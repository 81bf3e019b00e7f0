/**
 Where canonical text departs from RFC 8785: the order of member names (section 3.2.3) and
 the spelling of strings (section 3.2.2.2).
 */
module CanonicalStandard {
  import opened CanonicalJson
  import opened JsonLayout

  // ---------------------------------------------------------------------------
  // Member names
  // ---------------------------------------------------------------------------

  /** The UTF-16 code units of a character. */
  function Units(c: char): (r: seq<int>)
    ensures |r| == if c as int < 0x1_0000 then 1 else 2
  {
    var v := c as int;
    if v < 0x1_0000 then [v] else [0xD800 + (v - 0x1_0000) / 0x400, 0xDC00 + (v - 0x1_0000) % 0x400]
  }

  function Utf16(s: string): seq<int> {
    if s == "" then [] else Units(s[0]) + Utf16(s[1..])
  }

  predicate Lexicographic(a: seq<int>, b: seq<int>) {
    a == [] || (b != [] && (a[0] < b[0] || (a[0] == b[0] && Lexicographic(a[1..], b[1..]))))
  }

  /** The standard's order. */
  predicate Leq16(a: string, b: string) {
    Lexicographic(Utf16(a), Utf16(b))
  }

  predicate IsHighBasic(c: char) {
    0xE000 <= c as int < 0x1_0000
  }

  predicate IsSupplementary(c: char) {
    c as int >= 0x1_0000
  }

  /** Where the two first differ, one has a character from U+E000 to U+FFFF and the other one
      above U+FFFF. */
  predicate PlanesDiffer(a: string, b: string) {
    a != "" && b != "" &&
    if a[0] == b[0] then PlanesDiffer(a[1..], b[1..])
    else (IsHighBasic(a[0]) && IsSupplementary(b[0])) || (IsSupplementary(a[0]) && IsHighBasic(b[0]))
  }

  lemma {:induction false} SamePrefix(p: seq<int>, a: seq<int>, b: seq<int>)
    ensures Lexicographic(p + a, p + b) <==> Lexicographic(a, b)
  {
    if p == [] {
      assert p + a == a && p + b == b;
    } else {
      assert (p + a)[1..] == p[1..] + a && (p + b)[1..] == p[1..] + b;
      SamePrefix(p[1..], a, b);
    }
  }

  lemma FirstUnits(c: char, d: char, a: seq<int>, b: seq<int>)
    requires c != d
    ensures Lexicographic(Units(c) + a, Units(d) + b) <==>
            if (IsHighBasic(c) && IsSupplementary(d)) || (IsSupplementary(c) && IsHighBasic(d)) then d < c else c < d
  {
    var x, y := Units(c) + a, Units(d) + b;
    assert x[0] == Units(c)[0] && y[0] == Units(d)[0];
    if IsSupplementary(c) && IsSupplementary(d) {
      assert x[1..][0] == Units(c)[1] && y[1..][0] == Units(d)[1];
    }
  }

  /** The two orders compare two names differently exactly when their first difference is between
      those planes. */
  lemma {:induction false} OrdersDifferIff(a: string, b: string)
    ensures (Leq(a, b) <==> Leq16(a, b)) <==> !PlanesDiffer(a, b)
    decreases |a|
  {
    if a != "" && b != "" {
      if a[0] == b[0] {
        OrdersDifferIff(a[1..], b[1..]);
        SamePrefix(Units(a[0]), Utf16(a[1..]), Utf16(b[1..]));
      } else {
        FirstUnits(a[0], b[0], Utf16(a[1..]), Utf16(b[1..]));
      }
    }
  }

  ghost predicate IsStandardSorting(keys: seq<string>, ks: set<string>) {
    && (forall k :: k in keys <==> k in ks)
    && (forall i, j :: 0 <= i < j < |keys| ==> keys[i] != keys[j] && Leq16(keys[i], keys[j]))
  }

  lemma BothOrders(a: string, b: string)
    requires a != b && Leq(a, b)
    ensures Leq16(a, b) <==> !PlanesDiffer(a, b)
    ensures PlanesDiffer(a, b) <==> PlanesDiffer(b, a)
  {
    OrdersDifferIff(a, b);
    PlanesDifferSymmetric(a, b);
  }

  lemma {:induction false} PlanesDifferSymmetric(a: string, b: string)
    ensures PlanesDiffer(a, b) <==> PlanesDiffer(b, a)
    decreases |a|
  {
    if a != "" && b != "" && a[0] == b[0] {
      PlanesDifferSymmetric(a[1..], b[1..]);
    }
  }

  ghost predicate SamePlanes(ks: set<string>) {
    forall a, b :: a in ks && b in ks ==> !PlanesDiffer(a, b)
  }

  lemma SortingIsStandard(keys: seq<string>, ks: set<string>)
    requires IsSorting(keys, ks) && SamePlanes(ks)
    ensures IsStandardSorting(keys, ks)
  {
    forall i, j | 0 <= i < j < |keys| ensures Leq16(keys[i], keys[j]) {
      assert keys[i] in ks && keys[j] in ks;
      BothOrders(keys[i], keys[j]);
    }
  }

  lemma NamesAgree(keys: seq<string>, ks: set<string>, a: string, b: string)
    requires IsSorting(keys, ks) && IsStandardSorting(keys, ks) && a in ks && b in ks
    ensures !PlanesDiffer(a, b)
  {
    var i :| 0 <= i < |keys| && keys[i] == a;
    var j :| 0 <= j < |keys| && keys[j] == b;
    if i < j {
      BothOrders(a, b);
    } else if j < i {
      BothOrders(b, a);
    } else {
      NeverWithItself(a);
    }
  }

  lemma {:induction false} NeverWithItself(a: string)
    ensures !PlanesDiffer(a, a)
  {
    if a != "" {
      NeverWithItself(a[1..]);
    }
  }

  /** The members of an object are written in the standard's order exactly when no two names
      first differ between those planes. */
  lemma StandardOrderIff(ks: set<string>)
    ensures IsStandardSorting(SortedKeys(ks), ks) <==> SamePlanes(ks)
  {
    var keys := SortedKeys(ks);
    if SamePlanes(ks) {
      SortingIsStandard(keys, ks);
    }
    if IsStandardSorting(keys, ks) {
      StandardSortingAgrees(keys, ks);
    }
  }

  lemma StandardSortingAgrees(keys: seq<string>, ks: set<string>)
    requires IsSorting(keys, ks) && IsStandardSorting(keys, ks)
    ensures SamePlanes(ks)
  {
    forall a, b | a in ks && b in ks ensures !PlanesDiffer(a, b) {
      NamesAgree(keys, ks, a, b);
    }
  }

  // ---------------------------------------------------------------------------
  // Strings
  // ---------------------------------------------------------------------------

  /** The standard's spelling of one character. */
  function StandardPiece(c: char): Piece {
    if c == '"' || c == '\\' then Short(c)
    else if c as int == 8 then Short('b')
    else if c as int == 12 then Short('f')
    else if c == '\n' then Short('n')
    else if c == '\r' then Short('r')
    else if c == '\t' then Short('t')
    else if c < ' ' then Hex(['0', '0', HexDigit(c as int / 16), HexDigit(c as int % 16)])
    else Plain(c)
  }

  function StandardEscaped(s: string): string {
    if s == "" then "" else PieceText(StandardPiece(s[0])) + StandardEscaped(s[1..])
  }

  /** Escaped by the library for the sake of HTML and JavaScript. */
  predicate IsSensitive(c: char) {
    c == '<' || c == '>' || c == '&' || c as int == 0x2028 || c as int == 0x2029
  }

  lemma SensitiveIsLonger(c: char)
    ensures IsSensitive(c) ==> |PieceText(CanonicalPiece(c))| > |PieceText(StandardPiece(c))|
    ensures !IsSensitive(c) ==> CanonicalPiece(c) == StandardPiece(c)
  {
  }

  lemma {:induction false} EscapedIsLonger(s: string)
    ensures |Escaped(s)| >= |StandardEscaped(s)|
    ensures (forall i :: 0 <= i < |s| ==> !IsSensitive(s[i])) ==> Escaped(s) == StandardEscaped(s)
    ensures |Escaped(s)| == |StandardEscaped(s)| ==> forall i :: 0 <= i < |s| ==> !IsSensitive(s[i])
  {
    if s != "" {
      SensitiveIsLonger(s[0]);
      EscapedIsLonger(s[1..]);
      assert s == [s[0]] + s[1..];
    }
  }

  /** A string is spelled as the standard demands exactly when it has no such character. */
  lemma StandardSpellingIff(s: string)
    ensures Escaped(s) == StandardEscaped(s) <==> forall i :: 0 <= i < |s| ==> !IsSensitive(s[i])
  {
    EscapedIsLonger(s);
  }
}

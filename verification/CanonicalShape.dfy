/**
 What canonical text looks like: of all the layouts of a value it is the one without
 whitespace, with member names in increasing order, one spelling per character and numbers as
 the encoder prints them.
 */
module CanonicalShape {
  import opened Common
  import opened JsonText
  import opened JsonLayout
  import opened CanonicalJson

  // ---------------------------------------------------------------------------
  // The one canonical layout
  // ---------------------------------------------------------------------------

  /** `a` is a proper front of `b`, or has the lesser character where they first differ. */
  predicate Precedes(a: string, b: string) {
    exists n :: 0 <= n <= |a| && n < |b| && a[..n] == b[..n] && (n == |a| || a[n] < b[n])
  }

  predicate IsLowerDigit(c: char) {
    c in "0123456789abcdef"
  }

  predicate IsLowerHex(d: string) {
    IsHex4(d) && IsLowerDigit(d[0]) && IsLowerDigit(d[1]) && IsLowerDigit(d[2]) && IsLowerDigit(d[3])
  }

  /** Controls without a letter of their own, and what is special in HTML or JavaScript. */
  predicate NeedsHex(v: nat) {
    (v < 0x20 && v !in [8, 9, 10, 12, 13]) || v in [0x3C, 0x3E, 0x26, 0x2028, 0x2029]
  }

  /** The spelling the encoder chooses among the valid ones: letters where it knows one, lower-case
      hexadecimal for other controls and for characters that are special in HTML or JavaScript. */
  predicate Spelled(p: Piece) {
    match p
    case Plain(c) => c !in "<>&" && c as int != 0x2028 && c as int != 0x2029
    case Short(letter) => letter in "\"\\bfnrt"
    case Hex(d) => IsLowerHex(d) && NeedsHex(Hex4Value(d))
    case Pair(_, _) => false
  }

  predicate AllSpelled(ps: seq<Piece>) {
    ps == [] || (Spelled(ps[0]) && AllSpelled(ps[1..]))
  }

  function Names(ms: Members): seq<string>
    requires ValidNames(ms)
  {
    [PiecesString(ms.key)] + if ms.LastMember? then [] else Names(ms.more)
  }

  predicate ValidNames(ms: Members) {
    ValidPieces(ms.key) && (ms.NextMember? ==> ValidNames(ms.more))
  }

  predicate Increasing(names: seq<string>) {
    forall i, j :: 0 <= i < j < |names| ==> Precedes(names[i], names[j])
  }

  /** No whitespace, names in order, one spelling, printed numbers; at every level. */
  predicate Tidy(d: Doc, shortest: Shortest) {
    match d
    case NumberDoc(t) => shortest(t) == Some(t)
    case StringDoc(ps) => AllSpelled(ps)
    case EmptyArray(gap) => gap == ""
    case ArrayDoc(items) => TidyItems(items, shortest)
    case EmptyObject(gap) => gap == ""
    case ObjectDoc(ms) => TidyMembers(ms, shortest) && ValidNames(ms) && Increasing(Names(ms))
    case _ => true
  }

  predicate TidyItems(s: Items, shortest: Shortest) {
    && s.before == "" && s.after == "" && Tidy(s.item, shortest)
    && (s.NextItem? ==> TidyItems(s.more, shortest))
  }

  predicate TidyMembers(s: Members, shortest: Shortest) {
    && s.before == "" && s.mid == "" && s.gap == "" && s.after == ""
    && AllSpelled(s.key) && Tidy(s.value, shortest)
    && (s.NextMember? ==> TidyMembers(s.more, shortest))
  }

  lemma {:induction false} PrecedesIsBefore(a: string, b: string)
    ensures Precedes(a, b) <==> Leq(a, b) && a != b
    decreases |a|
  {
    if a == "" {
      if b != "" {
        assert a[..0] == b[..0];
      }
    } else if b != "" {
      if a[0] == b[0] {
        PrecedesTail(a, b);
        PrecedesIsBefore(a[1..], b[1..]);
        assert a == [a[0]] + a[1..] && b == [b[0]] + b[1..];
      } else {
        PrecedesFirst(a, b);
      }
    }
  }

  lemma PrecedesFirst(a: string, b: string)
    requires a != "" && b != "" && a[0] != b[0]
    ensures Precedes(a, b) <==> a[0] < b[0]
  {
    assert a[..0] == b[..0];
    forall n | 0 < n <= |a| && n < |b| ensures a[..n] != b[..n] {
      assert a[..n][0] == a[0] && b[..n][0] == b[0];
    }
  }

  lemma PrecedesTail(a: string, b: string)
    requires a != "" && b != "" && a[0] == b[0]
    ensures Precedes(a, b) <==> Precedes(a[1..], b[1..])
  {
    if n :| 0 <= n <= |a| && n < |b| && a[..n] == b[..n] && (n == |a| || a[n] < b[n]) {
      assert n > 0;
      assert a[1..][..n - 1] == a[..n][1..] && b[1..][..n - 1] == b[..n][1..];
    }
    if n :| 0 <= n <= |a[1..]| && n < |b[1..]| && a[1..][..n] == b[1..][..n]
            && (n == |a[1..]| || a[1..][n] < b[1..][n]) {
      var k := n + 1;
      assert a[..k] == [a[0]] + a[1..][..n] && b[..k] == [b[0]] + b[1..][..n];
      assert k == |a| || a[k] < b[k];
    }
  }

  /** Each valid spelling of the encoder's is the one it gives to the character it stands for. */
  lemma SpelledIsChosen(p: Piece)
    requires ValidPiece(p)
    ensures Spelled(p) <==> CanonicalPiece(PieceChar(p)) == p
  {
    match p {
      case Plain(c) =>
      case Short(letter) =>
      case Pair(h, l) =>
      case Hex(d) => SpelledHex(d);
    }
  }

  lemma LowerDigit(c: char)
    requires IsLowerDigit(c)
    ensures IsHex(c) && HexDigit(HexValue(c)) == c
  {
  }

  lemma DigitIsLower(v: nat)
    requires v < 16
    ensures IsLowerDigit(HexDigit(v)) && HexValue(HexDigit(v)) == v
  {
  }

  lemma DigitsAreUnique(a: nat, b: nat, c: nat, d: nat, a': nat, b': nat, c': nat, d': nat)
    requires a < 16 && b < 16 && c < 16 && d < 16 && a' < 16 && b' < 16 && c' < 16 && d' < 16
    requires a * 0x1000 + b * 0x100 + c * 0x10 + d == a' * 0x1000 + b' * 0x100 + c' * 0x10 + d'
    ensures a == a' && b == b' && c == c' && d == d'
  {
  }

  lemma LowerDigitIsUnique(c: char, d: char)
    requires IsLowerDigit(c) && IsLowerDigit(d) && IsHex(c) && IsHex(d) && HexValue(c) == HexValue(d)
    ensures c == d
  {
    LowerDigit(c);
    LowerDigit(d);
  }

  /** One lower-case spelling per value. */
  lemma LowerHexIsUnique(d: string, e: string)
    requires IsLowerHex(d) && IsLowerHex(e) && Hex4Value(d) == Hex4Value(e)
    ensures d == e
  {
    DigitsAreUnique(HexValue(d[0]), HexValue(d[1]), HexValue(d[2]), HexValue(d[3]),
                    HexValue(e[0]), HexValue(e[1]), HexValue(e[2]), HexValue(e[3]));
    LowerDigitIsUnique(d[0], e[0]);
    LowerDigitIsUnique(d[1], e[1]);
    LowerDigitIsUnique(d[2], e[2]);
    LowerDigitIsUnique(d[3], e[3]);
  }

  lemma ControlHex(a: nat, b: nat)
    requires a < 16 && b < 16
    ensures var d := ['0', '0', HexDigit(a), HexDigit(b)]; IsLowerHex(d) && Hex4Value(d) == 0x10 * a + b
  {
    DigitIsLower(a);
    DigitIsLower(b);
    DigitIsLower(0);
  }

  lemma SeparatorHex()
    ensures IsLowerHex("2028") && Hex4Value("2028") == 0x2028 && IsLowerHex("2029") && Hex4Value("2029") == 0x2029
  {
  }

  /** When the encoder writes hexadecimal digits. */
  lemma ChoosesHex(c: char)
    ensures CanonicalPiece(c).Hex? <==> NeedsHex(c as int)
    ensures CanonicalPiece(c).Hex? && c as int < 0x100 ==>
      CanonicalPiece(c).digits == ['0', '0', HexDigit(c as int / 16), HexDigit(c as int % 16)]
    ensures c as int == 0x2028 ==> CanonicalPiece(c) == Hex("2028")
    ensures c as int == 0x2029 ==> CanonicalPiece(c) == Hex("2029")
  {
  }

  lemma ChosenHex(c: char)
    requires NeedsHex(c as int)
    ensures var p := CanonicalPiece(c); p.Hex? && IsLowerHex(p.digits) && Hex4Value(p.digits) == c as int
  {
    ChoosesHex(c);
    SeparatorHex();
    if c as int < 0x100 {
      ControlHex(c as int / 16, c as int % 16);
    }
  }

  lemma SpelledHex(d: string)
    requires ValidPiece(Hex(d))
    ensures Spelled(Hex(d)) <==> CanonicalPiece(PieceChar(Hex(d))) == Hex(d)
  {
    var c := PieceChar(Hex(d));
    var p := CanonicalPiece(c);
    ChoosesHex(c);
    assert c as int == Hex4Value(d);
    if p.Hex? {
      ChosenHex(c);
      if IsLowerHex(d) {
        LowerHexIsUnique(d, p.digits);
      }
    }
  }

  lemma {:induction false} SpelledPieces(ps: seq<Piece>)
    requires ValidPieces(ps)
    ensures AllSpelled(ps) <==> CanonicalPieces(PiecesString(ps)) == ps
  {
    if ps != [] {
      var p, more := ps[0], ps[1..];
      SpelledIsChosen(p);
      SpelledPieces(more);
      assert ps == [p] + more;
      FirstPiece(p, more);
      ConsEqual(CanonicalPiece(PieceChar(p)), CanonicalPieces(PiecesString(more)), p, more);
      SpelledFirst(p, more);
    }
  }

  lemma ConsEqual(p: Piece, ps: seq<Piece>, q: Piece, qs: seq<Piece>)
    ensures [p] + ps == [q] + qs <==> p == q && ps == qs
  {
    assert ([p] + ps)[1..] == ps && ([q] + qs)[1..] == qs;
  }

  lemma SpelledFirst(p: Piece, more: seq<Piece>)
    ensures AllSpelled([p] + more) <==> Spelled(p) && AllSpelled(more)
  {
    assert ([p] + more)[1..] == more;
  }

  lemma FirstPiece(p: Piece, more: seq<Piece>)
    requires ValidPiece(p) && ValidPieces(more)
    ensures ValidPieces([p] + more)
    ensures CanonicalPieces(PiecesString([p] + more))
         == [CanonicalPiece(PieceChar(p))] + CanonicalPieces(PiecesString(more))
  {
    var s, c := PiecesString(more), PieceChar(p);
    assert ([p] + more)[1..] == more;
    assert PiecesString([p] + more) == [c] + s;
    assert ([c] + s)[1..] == s;
  }

  // ---------------------------------------------------------------------------
  // Canonical documents are tidy, and no others are
  // ---------------------------------------------------------------------------

  lemma SortedIsIncreasing(keys: seq<string>, ks: set<string>)
    requires IsSorting(keys, ks)
    ensures Increasing(keys)
  {
    forall i, j | 0 <= i < j < |keys| ensures Precedes(keys[i], keys[j]) {
      PrecedesIsBefore(keys[i], keys[j]);
    }
  }

  lemma IncreasingIsSorted(keys: seq<string>)
    requires Increasing(keys)
    ensures IsSorting(keys, set k | k in keys)
  {
    forall i, j | 0 <= i < j < |keys| ensures keys[i] != keys[j] && Leq(keys[i], keys[j]) {
      PrecedesIsBefore(keys[i], keys[j]);
    }
  }

  lemma {:induction false} CanonicalDocIsTidy(v: Json, shortest: Shortest)
    requires Printed(v, shortest)
    ensures Tidy(CanonicalDoc(v), shortest)
    decreases v, 1
  {
    match v {
      case String(s) => SpelledPieces(CanonicalPieces(s));
      case Array(items) =>
        if items != [] {
          ItemsDocIsTidy(v, 0, shortest);
        }
      case Object(m) =>
        var keys := SortedKeys(m.Keys);
        if keys != [] {
          MembersDocIsTidy(v, keys, 0, shortest);
          assert keys[0..] == keys;
          SortedIsIncreasing(keys, m.Keys);
        }
      case _ =>
    }
  }

  lemma {:induction false} ItemsDocIsTidy(v: Json, i: nat, shortest: Shortest)
    requires v.Array? && i < |v.items| && Printed(v, shortest)
    ensures TidyItems(ItemsDoc(v, i), shortest)
    decreases v, 0, |v.items| - i
  {
    CanonicalDocIsTidy(v.items[i], shortest);
    if i + 1 < |v.items| {
      ItemsDocIsTidy(v, i + 1, shortest);
    }
  }

  lemma {:induction false} MembersDocIsTidy(v: Json, keys: seq<string>, i: nat, shortest: Shortest)
    requires v.Object? && i < |keys| && (forall k :: k in keys ==> k in v.members) && Printed(v, shortest)
    ensures var ms := MembersDoc(v, keys, i); TidyMembers(ms, shortest) && ValidNames(ms) && Names(ms) == keys[i..]
    decreases v, 0, |keys| - i
  {
    MemberIsTidy(v, keys[i], shortest);
    MembersDocStep(v, keys, i);
    SuffixStep(keys, i);
    var d := CanonicalDoc(v.members[keys[i]]);
    if i + 1 < |keys| {
      MembersDocIsTidy(v, keys, i + 1, shortest);
      TidyNextMember(keys[i], d, MembersDoc(v, keys, i + 1), shortest);
    } else {
      TidyLastMember(keys[i], d, shortest);
    }
  }

  lemma {:induction false} MemberIsTidy(v: Json, k: string, shortest: Shortest)
    requires v.Object? && k in v.members && Printed(v, shortest)
    ensures Tidy(CanonicalDoc(v.members[k]), shortest)
    decreases v, 0, 0
  {
    CanonicalDocIsTidy(v.members[k], shortest);
  }

  lemma SuffixStep(keys: seq<string>, i: nat)
    requires i < |keys|
    ensures keys[i..] == [keys[i]] + keys[i + 1..] && (i + 1 == |keys| ==> keys[i..] == [keys[i]])
  {
  }

  lemma TidyLastMember(name: string, d: Doc, shortest: Shortest)
    requires Tidy(d, shortest)
    ensures var ms := LastMember("", CanonicalPieces(name), "", "", d, "");
            TidyMembers(ms, shortest) && ValidNames(ms) && Names(ms) == [name]
  {
    SpelledPieces(CanonicalPieces(name));
  }

  lemma TidyNextMember(name: string, d: Doc, more: Members, shortest: Shortest)
    requires Tidy(d, shortest) && TidyMembers(more, shortest) && ValidNames(more)
    ensures var ms := NextMember("", CanonicalPieces(name), "", "", d, "", more);
            TidyMembers(ms, shortest) && ValidNames(ms) && Names(ms) == [name] + Names(more)
  {
    SpelledPieces(CanonicalPieces(name));
  }

  /** A tidy layout is the canonical one of its value. */
  lemma {:induction false} TidyIsCanonical(d: Doc, shortest: Shortest)
    requires ValidDoc(d, shortest) && Tidy(d, shortest)
    ensures CanonicalDoc(DocValue(d, shortest)) == d
    decreases d, 1
  {
    match d {
      case StringDoc(ps) => SpelledPieces(ps);
      case ArrayDoc(items) =>
        var v := DocValue(d, shortest);
        ItemsValueStep(items, v.items, shortest);
        assert v.items[0..] == v.items;
        TidyItemsAreCanonical(items, v, 0, shortest);
      case ObjectDoc(ms) => TidyObjectIsCanonical(d, shortest);
      case _ =>
    }
  }

  lemma ItemsValueStep(s: Items, rest: seq<Json>, shortest: Shortest)
    requires ValidItems(s, shortest) && rest == ItemsValue(s, shortest)
    ensures rest != [] && rest[0] == DocValue(s.item, shortest)
    ensures s.LastItem? ==> |rest| == 1
    ensures s.NextItem? ==> rest[1..] == ItemsValue(s.more, shortest) != []
  {
  }

  lemma {:induction false} TidyItemsAreCanonical(s: Items, v: Json, i: nat, shortest: Shortest)
    requires ValidItems(s, shortest) && TidyItems(s, shortest)
    requires v.Array? && i < |v.items| && v.items[i..] == ItemsValue(s, shortest)
    ensures ItemsDoc(v, i) == s
    decreases s, 0
  {
    TidyIsCanonical(s.item, shortest);
    ItemsValueStep(s, v.items[i..], shortest);
    ItemsDocStep(v, i);
    if s.NextItem? {
      assert v.items[i..][1..] == v.items[i + 1..];
      TidyItemsAreCanonical(s.more, v, i + 1, shortest);
    }
  }

  lemma NamesAreSorted(ms: Members, m: map<string, Json>, shortest: Shortest)
    requires ValidMembers(ms, shortest) && ValidNames(ms) && Increasing(Names(ms))
    requires m == MembersValue(ms, map[], shortest)
    ensures SortedKeys(m.Keys) == Names(ms)
  {
    MembersByName(ms, map[], shortest);
    IncreasingIsSorted(Names(ms));
    assert m.Keys == set k | k in Names(ms);
    SortingIsUnique(Names(ms), SortedKeys(m.Keys), m.Keys);
  }

  lemma {:induction false} TidyObjectIsCanonical(d: Doc, shortest: Shortest)
    requires d.ObjectDoc? && ValidDoc(d, shortest) && Tidy(d, shortest)
    ensures CanonicalDoc(DocValue(d, shortest)) == d
    decreases d, 0
  {
    var ms, v := d.members, DocValue(d, shortest);
    var names := Names(ms);
    NamesAreSorted(ms, v.members, shortest);
    MembersByName(ms, map[], shortest);
    assert names[0..] == names;
    TidyMembersAreCanonical(ms, v, names, 0, shortest);
    CanonicalObjectDoc(v, names);
  }

  /** The value of the member named by `Names(ms)[j]`. */
  function ValueAt(ms: Members, j: nat, shortest: Shortest): Json
    requires ValidMembers(ms, shortest) && ValidNames(ms) && j < |Names(ms)|
  {
    if j == 0 then DocValue(ms.value, shortest) else ValueAt(ms.more, j - 1, shortest)
  }

  lemma {:induction false} MembersByName(ms: Members, acc: map<string, Json>, shortest: Shortest)
    requires ValidMembers(ms, shortest) && ValidNames(ms) && Increasing(Names(ms))
    ensures var m := MembersValue(ms, acc, shortest);
      && (forall k :: k in m <==> k in acc || k in Names(ms))
      && (forall k :: k in acc && k !in Names(ms) ==> m[k] == acc[k])
      && (forall j :: 0 <= j < |Names(ms)| ==> m[Names(ms)[j]] == ValueAt(ms, j, shortest))
    decreases ms
  {
    if ms.NextMember? {
      var acc' := acc[PiecesString(ms.key) := DocValue(ms.value, shortest)];
      FirstNameIsNew(ms);
      MembersByName(ms.more, acc', shortest);
      var names, m := Names(ms), MembersValue(ms, acc, shortest);
      forall j | 0 <= j < |names| ensures m[names[j]] == ValueAt(ms, j, shortest) {
        if j > 0 {
          assert names[j] == Names(ms.more)[j - 1];
        }
      }
    }
  }

  lemma FirstNameIsNew(ms: Members)
    requires ms.NextMember? && ValidNames(ms) && Increasing(Names(ms))
    ensures Increasing(Names(ms.more)) && Names(ms) == [PiecesString(ms.key)] + Names(ms.more)
    ensures PiecesString(ms.key) !in Names(ms.more)
  {
    var names := Names(ms);
    assert names[1..] == Names(ms.more);
    forall j | 0 <= j < |Names(ms.more)| ensures Names(ms.more)[j] != names[0] {
      assert names[j + 1] == Names(ms.more)[j];
      PrecedesIsBefore(names[0], names[j + 1]);
    }
  }

  lemma NamesStep(ms: Members, rest: seq<string>)
    requires ValidNames(ms) && rest == Names(ms)
    ensures rest != [] && rest[0] == PiecesString(ms.key)
    ensures ms.LastMember? ==> |rest| == 1
    ensures ms.NextMember? ==> rest[1..] == Names(ms.more) != []
  {
  }

  /** From index `i` on, the keys and their values are those of the members. */
  ghost predicate Follows(ms: Members, m: map<string, Json>, keys: seq<string>, i: nat, shortest: Shortest)
    requires ValidMembers(ms, shortest) && ValidNames(ms)
  {
    && i < |keys| && keys[i..] == Names(ms)
    && forall j :: 0 <= j < |Names(ms)| ==> Names(ms)[j] in m && m[Names(ms)[j]] == ValueAt(ms, j, shortest)
  }

  lemma FollowsTail(ms: Members, m: map<string, Json>, keys: seq<string>, i: nat, shortest: Shortest)
    requires ValidMembers(ms, shortest) && ValidNames(ms) && Follows(ms, m, keys, i, shortest)
    ensures keys[i] in m && m[keys[i]] == DocValue(ms.value, shortest)
    ensures ms.LastMember? ==> i + 1 == |keys|
    ensures ms.NextMember? ==> Follows(ms.more, m, keys, i + 1, shortest)
  {
    var names := Names(ms);
    NamesStep(ms, names);
    assert keys[i] == names[0] && m[names[0]] == ValueAt(ms, 0, shortest);
    if ms.NextMember? {
      assert keys[i..][1..] == keys[i + 1..];
      forall j | 0 <= j < |Names(ms.more)|
        ensures Names(ms.more)[j] in m && m[Names(ms.more)[j]] == ValueAt(ms.more, j, shortest)
      {
        assert Names(ms.more)[j] == names[j + 1];
        assert ValueAt(ms, j + 1, shortest) == ValueAt(ms.more, j, shortest);
      }
    }
  }

  lemma {:induction false} TidyMembersAreCanonical(ms: Members, v: Json, keys: seq<string>, i: nat, shortest: Shortest)
    requires ValidMembers(ms, shortest) && TidyMembers(ms, shortest) && ValidNames(ms)
    requires v.Object? && (forall k :: k in keys ==> k in v.members) && Follows(ms, v.members, keys, i, shortest)
    ensures MembersDoc(v, keys, i) == ms
    decreases ms, 0
  {
    SpelledPieces(ms.key);
    NamesStep(ms, keys[i..]);
    FollowsTail(ms, v.members, keys, i, shortest);
    TidyIsCanonical(ms.value, shortest);
    MembersDocStep(v, keys, i);
    if ms.NextMember? {
      TidyMembersAreCanonical(ms.more, v, keys, i + 1, shortest);
    }
  }

  // ---------------------------------------------------------------------------
  // Main results
  // ---------------------------------------------------------------------------

  /** Every value has a tidy layout, and canonical text is the text of any of them: no whitespace
      between tokens, names in increasing order at every level, one spelling per character. */
  lemma CanonicalIsTheTidyText(v: Json, shortest: Shortest)
    requires Printed(v, shortest)
    ensures exists d :: ValidDoc(d, shortest) && DocValue(d, shortest) == v && Tidy(d, shortest)
    ensures forall d :: ValidDoc(d, shortest) && DocValue(d, shortest) == v && Tidy(d, shortest) ==>
              Text(d, "") == Canonical(v)
  {
    CanonicalDocMeans(v, shortest);
    CanonicalDocIsTidy(v, shortest);
    CanonicalIsText(v, "");
    NoSeparator(Canonical(v));
    forall d | ValidDoc(d, shortest) && DocValue(d, shortest) == v && Tidy(d, shortest)
      ensures Text(d, "") == Canonical(v)
    {
      TidyIsCanonical(d, shortest);
    }
  }

  // --- appending to a value -------------------------------------------------------

  /** What lies between the brackets. */
  ghost function Inner(v: Json): string {
    var text := Canonical(v);
    if |text| >= 2 then text[1..|text| - 1] else ""
  }

  lemma Bracketed(open: char, inner: string, close: char)
    ensures var text := [open] + inner + [close]; |text| >= 2 && text[1..|text| - 1] == inner
  {
  }

  lemma InnerOfArray(items: seq<Json>)
    ensures Inner(Array(items)) == ItemsFrom(Array(items), 0)
    ensures Canonical(Array(items)) == "[" + Inner(Array(items)) + "]"
  {
    Bracketed('[', ItemsFrom(Array(items), 0), ']');
  }

  lemma InnerOfObject(m: map<string, Json>)
    ensures Inner(Object(m)) == MembersFrom(Object(m), SortedKeys(m.Keys), 0)
    ensures Canonical(Object(m)) == "{" + Inner(Object(m)) + "}"
  {
    Bracketed('{', MembersFrom(Object(m), SortedKeys(m.Keys), 0), '}');
  }

  lemma {:induction false} ItemsAppend(v: Json, w: Json, x: Json, i: nat)
    requires v.Array? && w.Array? && w.items == v.items + [x] && i <= |v.items|
    ensures ItemsFrom(w, i) == ItemsFrom(v, i) + ((if v.items == [] then "" else ",") + Canonical(x))
    decreases |v.items| - i
  {
    var last := (if v.items == [] then "" else ",") + Canonical(x);
    if i == |v.items| {
      assert w.items[i] == x && ItemsFrom(w, i + 1) == "";
      NoSeparator(last);
    } else {
      ItemsAppend(v, w, x, i + 1);
      assert w.items[i] == v.items[i];
      var first := (if i > 0 then "," else "") + Canonical(v.items[i]);
      assert ItemsFrom(v, i) == first + ItemsFrom(v, i + 1);
      assert ItemsFrom(w, i) == first + ItemsFrom(w, i + 1);
      Behind(first, ItemsFrom(v, i + 1), last);
    }
  }

  /** An array ends with its last element, behind a comma and nothing else if others come before. */
  lemma ElementsAreCommaSeparated(items: seq<Json>, x: Json)
    ensures Canonical(Array([])) == "[]"
    ensures Canonical(Array(items + [x]))
         == if items == [] then "[" + Canonical(x) + "]" else "[" + Inner(Array(items)) + "," + Canonical(x) + "]"
  {
    InnerOfArray([]);
    InnerOfArray(items);
    InnerOfArray(items + [x]);
    ItemsAppend(Array(items), Array(items + [x]), x, 0);
    Spread("[", Inner(Array(items)), Canonical(x), "", "]");
  }

  lemma Spread(open: string, front: string, a: string, b: string, close: string)
    ensures open + (front + ("," + a)) + close == open + front + "," + a + close
    ensures open + (front + ("," + a + ":" + b)) + close == open + front + "," + a + ":" + b + close
    ensures open + ("" + ("" + a)) + close == open + a + close
    ensures open + ("" + ("" + a + ":" + b)) + close == open + a + ":" + b + close
  {
  }

  lemma {:induction false} MembersAppend(v: Json, w: Json, keys: seq<string>, k: string, i: nat)
    requires v.Object? && w.Object? && k in w.members && i <= |keys| && forall a :: a in keys ==> a in v.members
    requires forall a :: a in keys ==> a in w.members && w.members[a] == v.members[a]
    ensures MembersFrom(w, keys + [k], i)
         == MembersFrom(v, keys, i) + ((if keys == [] then "" else ",") + Quote(k) + ":" + Canonical(w.members[k]))
    decreases |keys| - i
  {
    var all, last := keys + [k], (if keys == [] then "" else ",") + Quote(k) + ":" + Canonical(w.members[k]);
    if i == |keys| {
      assert all[i] == k && MembersFrom(w, all, i + 1) == "";
      NoSeparator(last);
    } else {
      MembersAppend(v, w, keys, k, i + 1);
      assert all[i] == keys[i];
      var first := (if i > 0 then "," else "") + Quote(keys[i]) + ":" + Canonical(v.members[keys[i]]);
      MembersFromStep(v, keys, i);
      MembersFromStep(w, all, i);
      Behind(first, MembersFrom(v, keys, i + 1), last);
    }
  }

  lemma MembersFromStep(v: Json, keys: seq<string>, i: nat)
    requires v.Object? && i < |keys| && forall k :: k in keys ==> k in v.members
    ensures MembersFrom(v, keys, i)
         == ((if i > 0 then "," else "") + Quote(keys[i]) + ":" + Canonical(v.members[keys[i]]))
            + MembersFrom(v, keys, i + 1)
  {
  }

  lemma Behind(a: string, b: string, c: string)
    ensures a + (b + c) == (a + b) + c
  {
  }

  lemma SortedAppend(ks: set<string>, k: string)
    requires forall a :: a in ks ==> Precedes(a, k)
    ensures k !in ks && SortedKeys(ks + {k}) == SortedKeys(ks) + [k]
  {
    forall a | a in ks ensures a != k && Leq(a, k) {
      PrecedesIsBefore(a, k);
    }
    var keys := SortedKeys(ks);
    assert forall i :: 0 <= i < |keys| ==> keys[i] in ks;
    SortingIsUnique(SortedKeys(ks + {k}), keys + [k], ks + {k});
  }

  /** An object ends with the member of the last name: the quoted name, a colon and the value,
      behind a comma and nothing else if others come before. */
  lemma MembersAreCommaSeparated(m: map<string, Json>, k: string, x: Json)
    requires forall a :: a in m ==> Precedes(a, k)
    ensures Canonical(Object(map[])) == "{}"
    ensures Canonical(Object(m[k := x]))
         == if m == map[] then "{" + Quote(k) + ":" + Canonical(x) + "}"
            else "{" + Inner(Object(m)) + "," + Quote(k) + ":" + Canonical(x) + "}"
  {
    InnerOfObject(m);
    InnerOfObject(m[k := x]);
    InnerOfEmptyObject();
    InnerAppend(m, k, x);
    Spread("{", Inner(Object(m)), Quote(k), Canonical(x), "}");
  }

  lemma InnerOfEmptyObject()
    ensures Canonical(Object(map[])) == "{}" && Inner(Object(map[])) == ""
  {
    InnerOfObject(map[]);
  }

  lemma InnerAppend(m: map<string, Json>, k: string, x: Json)
    requires forall a :: a in m ==> Precedes(a, k)
    ensures Inner(Object(m[k := x]))
         == Inner(Object(m)) + ((if m == map[] then "" else ",") + Quote(k) + ":" + Canonical(x))
  {
    var keys := SortedKeys(m.Keys);
    InnerOfObject(m);
    InnerOfObject(m[k := x]);
    NamesAppend(m, k, x);
    NoKeys(m);
    MembersAppend(Object(m), Object(m[k := x]), keys, k, 0);
  }

  lemma NamesAppend(m: map<string, Json>, k: string, x: Json)
    requires forall a :: a in m ==> Precedes(a, k)
    ensures k !in m && SortedKeys(m[k := x].Keys) == SortedKeys(m.Keys) + [k]
  {
    SortedAppend(m.Keys, k);
    assert m[k := x].Keys == m.Keys + {k};
  }

  lemma NoKeys(m: map<string, Json>)
    ensures forall a :: a in SortedKeys(m.Keys) <==> a in m
    ensures SortedKeys(m.Keys) == [] <==> m == map[]
  {
    if m != map[] {
      var a :| a in m;
      assert a in SortedKeys(m.Keys);
    }
  }

  /** Scalars and plain text are written as they are. */
  lemma ScalarsAreVerbatim(t: string, s: string)
    requires forall i :: 0 <= i < |s| ==> ' ' <= s[i] <= '~' && s[i] !in "\"\\<>&"
    ensures Canonical(Null) == "null" && Canonical(Bool(true)) == "true" && Canonical(Bool(false)) == "false"
    ensures Canonical(Number(t)) == t && Canonical(String(s)) == "\"" + s + "\""
  {
    PlainIsVerbatim(s);
  }

  lemma {:induction false} PlainIsVerbatim(s: string)
    requires forall i :: 0 <= i < |s| ==> ' ' <= s[i] <= '~' && s[i] !in "\"\\<>&"
    ensures Escaped(s) == s
  {
    if s != "" {
      PlainIsVerbatim(s[1..]);
      assert CanonicalPiece(s[0]) == Plain(s[0]);
      assert s == [s[0]] + s[1..];
    }
  }
}

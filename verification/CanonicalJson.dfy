/**
 The deduplication key: canonical JSON and the bytes that are hashed.

 `CanonicalJson` is shown to depend on nothing but the parsed input, to be injective on
 it, and to be a fixpoint of itself; the bytes fed to the hash then identify session,
 tool and input whenever the two names are free of NUL.
 */
module CanonicalJson {
  import opened Common
  import opened JsonLayout
  import opened JsonText

  // ---------------------------------------------------------------------------
  // Key order
  // ---------------------------------------------------------------------------

  /** Code point order, which is also the byte order of the UTF-8 encodings. */
  predicate Leq(a: string, b: string) {
    a == "" || (b != "" && (a[0] < b[0] || (a[0] == b[0] && Leq(a[1..], b[1..]))))
  }

  lemma {:induction false} LeqAntisymmetric(a: string, b: string)
    requires Leq(a, b) && Leq(b, a)
    ensures a == b
  {
    if a != "" {
      LeqAntisymmetric(a[1..], b[1..]);
      assert a == [a[0]] + a[1..] && b == [b[0]] + b[1..];
    }
  }

  lemma {:induction false} LeqTransitive(a: string, b: string, c: string)
    requires Leq(a, b) && Leq(b, c)
    ensures Leq(a, c)
  {
    if a != "" && a[0] == b[0] == c[0] {
      LeqTransitive(a[1..], b[1..], c[1..]);
    }
  }

  lemma {:induction false} LeqTotal(a: string, b: string)
    ensures Leq(a, b) || Leq(b, a)
  {
    if a != "" && b != "" && a[0] == b[0] {
      LeqTotal(a[1..], b[1..]);
    }
  }

  /** `keys` lists each element of `ks` once, in increasing order. */
  ghost predicate IsSorting(keys: seq<string>, ks: set<string>) {
    && (forall k :: k in keys <==> k in ks)
    && (forall i, j :: 0 <= i < j < |keys| ==> keys[i] != keys[j] && Leq(keys[i], keys[j]))
  }

  lemma LeastKey(ks: set<string>) returns (k: string)
    requires ks != {}
    ensures k in ks && forall x :: x in ks ==> Leq(k, x)
    decreases |ks|
  {
    var y :| y in ks;
    LeqTotal(y, y);
    if ks == {y} {
      return y;
    }
    k := LeastKey(ks - {y});
    LeqTotal(y, k);
    if Leq(y, k) {
      forall x | x in ks ensures Leq(y, x) {
        if x != y {
          LeqTransitive(y, k, x);
        }
      }
      k := y;
    }
  }

  ghost function SortedKeys(ks: set<string>): (keys: seq<string>)
    ensures IsSorting(keys, ks)
    decreases |ks|
  {
    if ks == {} then []
    else
      assert exists k :: k in ks && forall x :: x in ks ==> Leq(k, x) by {
        var k := LeastKey(ks);
      }
      var k :| k in ks && forall x :: x in ks ==> Leq(k, x);
      [k] + SortedKeys(ks - {k})
  }

  /** There is one sorting only, so the order in which a map is iterated cannot matter. */
  lemma {:induction false} SortingIsUnique(a: seq<string>, b: seq<string>, ks: set<string>)
    requires IsSorting(a, ks) && IsSorting(b, ks)
    ensures a == b
    decreases |a|
  {
    assert a != [] ==> a[0] in ks;
    assert b != [] ==> b[0] in ks;
    if a != [] {
      var i :| 0 <= i < |b| && b[i] == a[0];
      var j :| 0 <= j < |a| && a[j] == b[0];
      if i > 0 && j > 0 {
        LeqAntisymmetric(a[0], b[0]);
      }
      assert a[0] == b[0];
      SortingTail(a, ks);
      SortingTail(b, ks);
      SortingIsUnique(a[1..], b[1..], ks - {a[0]});
      assert a == [a[0]] + a[1..] && b == [b[0]] + b[1..];
    }
  }

  lemma SortingTail(a: seq<string>, ks: set<string>)
    requires IsSorting(a, ks) && a != []
    ensures IsSorting(a[1..], ks - {a[0]})
  {
    forall k ensures k in a[1..] <==> k in ks - {a[0]} {
      if k in a[1..] {
        var i :| 0 <= i < |a[1..]| && a[1..][i] == k;
        assert a[i + 1] == k;
        assert k in a;
      }
      if k in ks && k != a[0] {
        var i :| 0 <= i < |a| && a[i] == k;
        assert a[1..][i - 1] == k;
      }
    }
  }

  // ---------------------------------------------------------------------------
  // Strings
  // ---------------------------------------------------------------------------

  function HexDigit(v: nat): (c: char)
    requires v < 16
    ensures IsHex(c) && HexValue(c) == v
  {
    if v < 10 then ('0' as int + v) as char else ('a' as int + v - 10) as char
  }

  /** The spelling the library's encoder picks for one character, HTML escaping included. */
  function CanonicalPiece(c: char): (p: Piece)
    ensures ValidPiece(p) && PieceChar(p) == c
  {
    if c == '"' || c == '\\' then Short(c)
    else if c as int == 8 then Short('b')
    else if c as int == 12 then Short('f')
    else if c == '\n' then Short('n')
    else if c == '\r' then Short('r')
    else if c == '\t' then Short('t')
    else if c < ' ' || c == '<' || c == '>' || c == '&' then
      Hex(['0', '0', HexDigit(c as int / 16), HexDigit(c as int % 16)])
    else if c as int == 0x2028 then Hex("2028")
    else if c as int == 0x2029 then Hex("2029")
    else Plain(c)
  }

  function CanonicalPieces(s: string): (ps: seq<Piece>)
    ensures ValidPieces(ps) && PiecesString(ps) == s
  {
    if s == "" then [] else [CanonicalPiece(s[0])] + CanonicalPieces(s[1..])
  }

  function Escaped(s: string): string {
    if s == "" then "" else PieceText(CanonicalPiece(s[0])) + Escaped(s[1..])
  }

  function Quote(s: string): string {
    "\"" + Escaped(s) + "\""
  }

  // ---------------------------------------------------------------------------
  // Canonical text
  // ---------------------------------------------------------------------------

  ghost function Canonical(v: Json): string
    decreases v, 1
  {
    match v
    case Null => "null"
    case Bool(b) => if b then "true" else "false"
    case Number(t) => t
    case String(s) => Quote(s)
    case Array(items) => "[" + ItemsFrom(v, 0) + "]"
    case Object(m) => "{" + MembersFrom(v, SortedKeys(m.Keys), 0) + "}"
  }

  /** The elements from index `i` on, each but the first preceded by a comma. */
  ghost function ItemsFrom(v: Json, i: nat): string
    requires v.Array? && i <= |v.items|
    decreases v, 0, |v.items| - i
  {
    if i == |v.items| then ""
    else (if i > 0 then "," else "") + Canonical(v.items[i]) + ItemsFrom(v, i + 1)
  }

  /** The members named by `keys` from index `i` on. */
  ghost function MembersFrom(v: Json, keys: seq<string>, i: nat): string
    requires v.Object? && i <= |keys| && forall k :: k in keys ==> k in v.members
    decreases v, 0, |keys| - i
  {
    if i == |keys| then ""
    else (if i > 0 then "," else "") + Quote(keys[i]) + ":" + Canonical(v.members[keys[i]])
         + MembersFrom(v, keys, i + 1)
  }

  // ---------------------------------------------------------------------------
  // The encoder
  // ---------------------------------------------------------------------------

  method SortStrings(ks: set<string>) returns (keys: seq<string>)
    ensures keys == SortedKeys(ks)
  {
    keys := [];
    var rest := ks;
    while rest != {}
      invariant rest <= ks && IsSorting(keys, ks - rest)
      decreases |rest|
    {
      var k :| k in rest;
      var at := 0;
      while at < |keys| && Leq(keys[at], k)
        invariant 0 <= at <= |keys|
        invariant forall i :: 0 <= i < at ==> Leq(keys[i], k)
      {
        at := at + 1;
      }
      InsertSorted(keys, ks - rest, k, at);
      keys := keys[..at] + [k] + keys[at..];
      rest := rest - {k};
      assert ks - rest == ks - (rest + {k}) + {k};
    }
    assert ks - {} == ks;
    SortingIsUnique(keys, SortedKeys(ks), ks);
  }

  lemma BelowTheRest(keys: seq<string>, ks: set<string>, k: string, at: nat, i: nat)
    requires IsSorting(keys, ks) && at <= i < |keys| && !Leq(keys[at], k)
    ensures Leq(k, keys[i])
  {
    LeqTotal(k, keys[at]);
    if i > at {
      LeqTransitive(k, keys[at], keys[i]);
    }
  }

  lemma InsertedKeys(keys: seq<string>, k: string, at: nat, x: string)
    requires at <= |keys|
    ensures x in keys[..at] + [k] + keys[at..] <==> x in keys || x == k
  {
    assert keys == keys[..at] + keys[at..];
    assert x in keys <==> x in keys[..at] || x in keys[at..];
  }

  lemma InsertSorted(keys: seq<string>, ks: set<string>, k: string, at: nat)
    requires IsSorting(keys, ks) && k !in ks && at <= |keys|
    requires forall i :: 0 <= i < at ==> Leq(keys[i], k)
    requires at < |keys| ==> !Leq(keys[at], k)
    ensures IsSorting(keys[..at] + [k] + keys[at..], ks + {k})
  {
    var r := keys[..at] + [k] + keys[at..];
    forall i | at <= i < |keys| ensures Leq(k, keys[i]) {
      BelowTheRest(keys, ks, k, at, i);
    }
    forall i | 0 <= i < |keys| ensures keys[i] != k {
      assert keys[i] in keys;
    }
    forall x ensures x in r <==> x in ks + {k} {
      InsertedKeys(keys, k, at, x);
    }
    forall i, j | 0 <= i < j < |r| ensures r[i] != r[j] && Leq(r[i], r[j]) {
      assert r[i] == if i < at then keys[i] else if i == at then k else keys[i - 1];
      assert r[j] == if j < at then keys[j] else if j == at then k else keys[j - 1];
    }
  }

  method MarshalCanonical(v: Json) returns (out: string)
    ensures out == Canonical(v)
    decreases v
  {
    match v {
      case Object(m) =>
        var keys := SortStrings(m.Keys);
        out := "{";
        for i := 0 to |keys|
          invariant out + MembersFrom(v, keys, i) + "}" == Canonical(v)
        {
          ghost var done := out;
          if i > 0 {
            out := out + ",";
          }
          out := out + Quote(keys[i]);
          out := out + ":";
          assert keys[i] in m;
          var vb := MarshalCanonical(m[keys[i]]);
          out := out + vb;
          Reassociate(done, if i > 0 then "," else "", Quote(keys[i]), ":", vb, MembersFrom(v, keys, i + 1), "}");
        }
        assert out + "" == out;
        out := out + "}";
      case Array(items) =>
        out := "[";
        for i := 0 to |items|
          invariant out + ItemsFrom(v, i) + "]" == Canonical(v)
        {
          ghost var done := out;
          if i > 0 {
            out := out + ",";
          }
          var eb := MarshalCanonical(items[i]);
          out := out + eb;
          Reassociate(done, if i > 0 then "," else "", "", "", eb, ItemsFrom(v, i + 1), "]");
        }
        assert out + "" == out;
        out := out + "]";
      case Null => out := "null";
      case Bool(b) => out := if b then "true" else "false";
      case Number(t) => out := t;
      case String(s) => out := Quote(s);
    }
  }

  lemma Reassociate(done: string, sep: string, key: string, colon: string, value: string, rest: string, end: string)
    ensures done + (sep + key + colon + value + rest) + end == (((done + sep) + key) + colon + value) + rest + end
    ensures done + (sep + value + rest) + end == ((done + sep) + value) + rest + end
    ensures done + "" == done
  {
  }

  // ---------------------------------------------------------------------------
  // Canonical text is a layout of its value
  // ---------------------------------------------------------------------------

  ghost function CanonicalDoc(v: Json): Doc
    decreases v, 1
  {
    match v
    case Null => NullDoc
    case Bool(b) => BoolDoc(b)
    case Number(t) => NumberDoc(t)
    case String(s) => StringDoc(CanonicalPieces(s))
    case Array(items) => if items == [] then EmptyArray("") else ArrayDoc(ItemsDoc(v, 0))
    case Object(m) =>
      var keys := SortedKeys(m.Keys);
      if keys == [] then EmptyObject("") else ObjectDoc(MembersDoc(v, keys, 0))
  }

  ghost function ItemsDoc(v: Json, i: nat): Items
    requires v.Array? && i < |v.items|
    decreases v, 0, |v.items| - i
  {
    var d := CanonicalDoc(v.items[i]);
    if i + 1 == |v.items| then LastItem("", d, "") else NextItem("", d, "", ItemsDoc(v, i + 1))
  }

  ghost function MembersDoc(v: Json, keys: seq<string>, i: nat): Members
    requires v.Object? && i < |keys| && forall k :: k in keys ==> k in v.members
    decreases v, 0, |keys| - i
  {
    var k, d := CanonicalPieces(keys[i]), CanonicalDoc(v.members[keys[i]]);
    if i + 1 == |keys| then LastMember("", k, "", "", d, "")
    else NextMember("", k, "", "", d, "", MembersDoc(v, keys, i + 1))
  }

  lemma {:induction false} PiecesAreEscaped(s: string, rest: string)
    ensures PiecesText(CanonicalPieces(s), rest) == Escaped(s) + rest
  {
    if s == "" {
      assert "" + rest == rest;
    } else {
      PiecesAreEscaped(s[1..], rest);
    }
  }

  lemma QuotedPieces(s: string, rest: string)
    ensures "\"" + PiecesText(CanonicalPieces(s), "\"" + rest) == Quote(s) + rest
  {
    PiecesAreEscaped(s, "\"" + rest);
    QuotesAround(Escaped(s), rest);
  }

  lemma QuotesAround(inner: string, rest: string)
    ensures "\"" + (inner + ("\"" + rest)) == ("\"" + inner + "\"") + rest
  {
  }

  lemma Enclose(open: string, text: string, inner: string, close: string, rest: string)
    requires text == inner + (close + rest)
    ensures open + text == (open + inner + close) + rest
  {
  }

  lemma EmptyIsText(open: string, close: string, rest: string)
    ensures open + ("" + (close + rest)) == (open + "" + close) + rest
  {
  }

  lemma ArrayIsText(v: Json, rest: string)
    requires v.Array?
    requires v.items != [] ==> ItemsText(ItemsDoc(v, 0), rest) == ItemsFrom(v, 0) + ("]" + rest)
    ensures Text(CanonicalDoc(v), rest) == Canonical(v) + rest
  {
    if v.items == [] {
      EmptyIsText("[", "]", rest);
    } else {
      Enclose("[", ItemsText(ItemsDoc(v, 0), rest), ItemsFrom(v, 0), "]", rest);
    }
  }

  lemma ObjectDocText(ms: Members, rest: string)
    ensures Text(ObjectDoc(ms), rest) == "{" + MembersText(ms, rest)
  {
  }

  lemma EmptyObjectText(rest: string)
    ensures Text(EmptyObject(""), rest) == "{" + ("" + ("}" + rest))
  {
  }

  lemma CanonicalObjectDoc(v: Json, keys: seq<string>)
    requires v.Object? && keys == SortedKeys(v.members.Keys)
    ensures CanonicalDoc(v) == if keys == [] then EmptyObject("") else ObjectDoc(MembersDoc(v, keys, 0))
  {
  }

  /** An object's text, given that of its members. */
  lemma ObjectIsText(v: Json, keys: seq<string>, inner: string, rest: string)
    requires v.Object? && keys == SortedKeys(v.members.Keys) && inner == MembersFrom(v, keys, 0)
    requires keys != [] ==> MembersText(MembersDoc(v, keys, 0), rest) == inner + ("}" + rest)
    ensures Text(CanonicalDoc(v), rest) == ("{" + inner + "}") + rest
  {
    CanonicalObjectDoc(v, keys);
    if keys == [] {
      EmptyObjectText(rest);
      EmptyIsText("{", "}", rest);
    } else {
      ObjectDocText(MembersDoc(v, keys, 0), rest);
      Enclose("{", MembersText(MembersDoc(v, keys, 0), rest), inner, "}", rest);
    }
  }

  lemma {:induction false} CanonicalIsText(v: Json, rest: string)
    ensures Text(CanonicalDoc(v), rest) == Canonical(v) + rest
    decreases v, 1
  {
    if v.String? {
      QuotedPieces(v.s, rest);
    } else if v.Array? {
      CanonicalArrayIsText(v, rest);
    } else if v.Object? {
      CanonicalObjectIsText(v, rest);
    }
  }

  lemma {:induction false} CanonicalArrayIsText(v: Json, rest: string)
    requires v.Array?
    ensures Text(CanonicalDoc(v), rest) == Canonical(v) + rest
    decreases v, 0, |v.items| + 1
  {
    if v.items != [] {
      ItemsAreText(v, 0, rest);
      NoSeparator(ItemsText(ItemsDoc(v, 0), rest));
    }
    ArrayIsText(v, rest);
  }

  lemma {:induction false} CanonicalObjectIsText(v: Json, rest: string)
    requires v.Object?
    ensures Text(CanonicalDoc(v), rest) == Canonical(v) + rest
    decreases v, 0, |SortedKeys(v.members.Keys)| + 1
  {
    var keys := SortedKeys(v.members.Keys);
    if keys != [] {
      MembersAreText(v, keys, 0, rest);
      NoSeparator(MembersText(MembersDoc(v, keys, 0), rest));
    }
    ObjectIsText(v, keys, MembersFrom(v, keys, 0), rest);
  }

  lemma NoSeparator(text: string)
    ensures "" + text == text == text + ""
  {
  }

  lemma {:induction false} ItemsAreText(v: Json, i: nat, rest: string)
    requires v.Array? && i < |v.items|
    ensures (if i > 0 then "," else "") + ItemsText(ItemsDoc(v, i), rest) == ItemsFrom(v, i) + ("]" + rest)
    decreases v, 0, |v.items| - i
  {
    var sep, item, end := if i > 0 then "," else "", Canonical(v.items[i]), "]" + rest;
    if i + 1 == |v.items| {
      CanonicalIsText(v.items[i], end);
      GapsAreEmpty(CanonicalDoc(v.items[i]), end);
      Regroup(sep, item, "", end);
    } else {
      ItemsAreText(v, i + 1, rest);
      var more := "," + ItemsText(ItemsDoc(v, i + 1), rest);
      CanonicalIsText(v.items[i], more);
      GapsAreEmpty(CanonicalDoc(v.items[i]), more);
      Regroup(sep, item, ItemsFrom(v, i + 1), end);
    }
  }

  lemma GapsAreEmpty(d: Doc, more: string)
    ensures "" + Text(d, "" + more) == Text(d, more)
  {
    assert "" + more == more;
  }

  lemma Regroup(sep: string, item: string, more: string, end: string)
    ensures sep + (item + (more + end)) == (sep + item + more) + end
    ensures "" + end == end
  {
  }

  /** One member with empty gaps, followed by `more`. */
  lemma MemberIsText(v: Json, keys: seq<string>, i: nat, more: string)
    requires v.Object? && i < |keys| && forall k :: k in keys ==> k in v.members
    requires Text(CanonicalDoc(v.members[keys[i]]), more) == Canonical(v.members[keys[i]]) + more
    ensures var s := MembersDoc(v, keys, i);
      s.before + ("\"" + PiecesText(s.key, "\"" + (s.mid + (":" + (s.gap + Text(s.value, s.after + more))))))
      == Quote(keys[i]) + (":" + (Canonical(v.members[keys[i]]) + more))
  {
    MemberText(MembersDoc(v, keys, i), keys[i], CanonicalDoc(v.members[keys[i]]), more);
    QuotedPieces(keys[i], ":" + (Canonical(v.members[keys[i]]) + more));
  }

  lemma RegroupMember(sep: string, key: string, value: string, more: string, end: string)
    ensures sep + (key + (":" + (value + (more + end)))) == (sep + key + ":" + value + more) + end
    ensures "" + end == end
  {
  }

  lemma {:induction false} MembersAreText(v: Json, keys: seq<string>, i: nat, rest: string)
    requires v.Object? && i < |keys| && forall k :: k in keys ==> k in v.members
    ensures (if i > 0 then "," else "") + MembersText(MembersDoc(v, keys, i), rest)
         == MembersFrom(v, keys, i) + ("}" + rest)
    decreases v, 0, |keys| - i
  {
    var sep, end := if i > 0 then "," else "", "}" + rest;
    var value := v.members[keys[i]];
    if i + 1 == |keys| {
      CanonicalIsText(value, end);
      MemberIsText(v, keys, i, end);
      RegroupMember(sep, Quote(keys[i]), Canonical(value), "", end);
    } else {
      MembersAreText(v, keys, i + 1, rest);
      var more := "," + MembersText(MembersDoc(v, keys, i + 1), rest);
      CanonicalIsText(value, more);
      MemberIsText(v, keys, i, more);
      RegroupMember(sep, Quote(keys[i]), Canonical(value), MembersFrom(v, keys, i + 1), end);
    }
  }

  lemma MemberText(s: Members, key: string, d: Doc, more: string)
    requires s.before == s.mid == s.gap == s.after == "" && s.key == CanonicalPieces(key) && s.value == d
    ensures s.before + ("\"" + PiecesText(s.key, "\"" + (s.mid + (":" + (s.gap + Text(s.value, s.after + more))))))
         == "\"" + PiecesText(CanonicalPieces(key), "\"" + (":" + Text(d, more)))
  {
    assert "" + more == more;
    assert "" + Text(d, more) == Text(d, more);
    assert "" + (":" + Text(d, more)) == ":" + Text(d, more);
  }

  lemma {:induction false} CanonicalDocMeans(v: Json, shortest: Shortest)
    requires Printed(v, shortest)
    ensures ValidDoc(CanonicalDoc(v), shortest) && DocValue(CanonicalDoc(v), shortest) == v
    decreases v, 1
  {
    match v {
      case Array(items) =>
        if items != [] {
          ItemsDocMeans(v, 0, shortest);
        }
      case Object(m) =>
        var keys := SortedKeys(m.Keys);
        if keys == [] {
          assert m.Keys == {};
          assert m == map[];
        } else {
          MembersDocMeans(v, keys, 0, map[], shortest);
          assert keys[0..] == keys;
        }
      case _ =>
    }
  }

  lemma ItemsDocStep(v: Json, i: nat)
    requires v.Array? && i < |v.items|
    ensures ItemsDoc(v, i) ==
      var d := CanonicalDoc(v.items[i]);
      if i + 1 == |v.items| then LastItem("", d, "") else NextItem("", d, "", ItemsDoc(v, i + 1))
  {
  }

  lemma MembersDocStep(v: Json, keys: seq<string>, i: nat)
    requires v.Object? && i < |keys| && forall k :: k in keys ==> k in v.members
    ensures MembersDoc(v, keys, i) ==
      var k, d := CanonicalPieces(keys[i]), CanonicalDoc(v.members[keys[i]]);
      if i + 1 == |keys| then LastMember("", k, "", "", d, "")
      else NextMember("", k, "", "", d, "", MembersDoc(v, keys, i + 1))
  {
  }

  lemma LastItemMeans(d: Doc, shortest: Shortest)
    requires ValidDoc(d, shortest)
    ensures var s := LastItem("", d, "");
            ValidItems(s, shortest) && ItemsValue(s, shortest) == [DocValue(d, shortest)]
  {
  }

  lemma NextItemMeans(d: Doc, more: Items, shortest: Shortest)
    requires ValidDoc(d, shortest) && ValidItems(more, shortest)
    ensures var s := NextItem("", d, "", more);
            ValidItems(s, shortest) && ItemsValue(s, shortest) == [DocValue(d, shortest)] + ItemsValue(more, shortest)
  {
  }

  lemma {:induction false} ItemsDocMeans(v: Json, i: nat, shortest: Shortest)
    requires v.Array? && i < |v.items| && Printed(v, shortest)
    ensures ValidItems(ItemsDoc(v, i), shortest) && ItemsValue(ItemsDoc(v, i), shortest) == v.items[i..]
    decreases v, 0, |v.items| - i
  {
    var d := CanonicalDoc(v.items[i]);
    CanonicalDocMeans(v.items[i], shortest);
    ItemsDocStep(v, i);
    assert v.items[i..] == [v.items[i]] + v.items[i + 1..];
    if i + 1 < |v.items| {
      ItemsDocMeans(v, i + 1, shortest);
      NextItemMeans(d, ItemsDoc(v, i + 1), shortest);
    } else {
      LastItemMeans(d, shortest);
    }
  }

  /** The members named in `acc` and by `keys` from index `i` on. */
  ghost function MembersUpTo(m: map<string, Json>, acc: map<string, Json>, keys: seq<string>, i: nat)
    : map<string, Json>
    requires i <= |keys|
  {
    map k | k in m && (k in acc || k in keys[i..]) :: m[k]
  }

  lemma OneMoreMember(m: map<string, Json>, acc: map<string, Json>, keys: seq<string>, i: nat)
    requires i < |keys| && keys[i] in m && forall k :: k in acc ==> k in m && acc[k] == m[k]
    ensures var acc' := acc[keys[i] := m[keys[i]]];
      && MembersUpTo(m, acc, keys, i) == MembersUpTo(m, acc', keys, i + 1)
      && (i + 1 == |keys| ==> MembersUpTo(m, acc', keys, i + 1) == acc')
  {
    assert keys[i..] == [keys[i]] + keys[i + 1..];
  }

  lemma {:induction false} MembersDocMeans(v: Json, keys: seq<string>, i: nat, acc: map<string, Json>,
                                           shortest: Shortest)
    requires v.Object? && i < |keys| && (forall k :: k in keys ==> k in v.members) && Printed(v, shortest)
    requires forall k :: k in acc ==> k in v.members && acc[k] == v.members[k]
    ensures ValidMembers(MembersDoc(v, keys, i), shortest)
    ensures MembersValue(MembersDoc(v, keys, i), acc, shortest) == MembersUpTo(v.members, acc, keys, i)
    decreases v, 0, |keys| - i
  {
    var value := v.members[keys[i]];
    CanonicalDocMeans(value, shortest);
    OneMoreMember(v.members, acc, keys, i);
    if i + 1 < |keys| {
      MembersDocMeans(v, keys, i + 1, acc[keys[i] := value], shortest);
    }
  }

  // ---------------------------------------------------------------------------
  // Main results about canonical text
  // ---------------------------------------------------------------------------

  /** Canonical text can be decoded: parsing it gives the value back. */
  lemma RoundTrip(v: Json, shortest: Shortest)
    requires Printed(v, shortest)
    ensures Parse(Canonical(v), shortest) == Some(v)
  {
    CanonicalDocMeans(v, shortest);
    CanonicalIsText(v, "");
    NoSeparator(Canonical(v));
    TextParses(CanonicalDoc(v), Canonical(v), shortest);
  }

  lemma TextParses(d: Doc, text: string, shortest: Shortest)
    requires ValidDoc(d, shortest) && Text(d, "") == text
    ensures Parse(text, shortest) == Some(DocValue(d, shortest))
  {
    ParseLayout(d, "", "", shortest);
    NoSeparator(text);
  }

  /** The encoding is injective. */
  lemma CanonicalIsInjective(u: Json, v: Json, shortest: Shortest)
    requires Printed(u, shortest) && Printed(v, shortest)
    ensures Canonical(u) == Canonical(v) <==> u == v
  {
    RoundTrip(u, shortest);
    RoundTrip(v, shortest);
  }

  // ---------------------------------------------------------------------------
  // Raw input
  // ---------------------------------------------------------------------------

  /** What a raw tool input stands for: the parsed value, or the raw text itself when it
      is not JSON.  No input at all stands for null. */
  datatype Meaning = Value(v: Json) | Verbatim(raw: string)

  function MeaningOf(raw: string, shortest: Shortest): Meaning {
    if raw == "" then Value(Null)
    else
      match Parse(raw, shortest)
      case None => Verbatim(raw)
      case Some(v) => Value(v)
  }

  ghost function CanonicalOf(raw: string, shortest: Shortest): string {
    match MeaningOf(raw, shortest)
    case Value(v) => Canonical(v)
    case Verbatim(text) => text
  }

  method CanonicalJson(raw: string, shortest: Shortest) returns (out: string)
    ensures out == CanonicalOf(raw, shortest)
    ensures raw == "" ==> out == "null"
    ensures raw != "" && Parse(raw, shortest).None? ==> out == raw
    ensures raw != "" && Parse(raw, shortest).Some? ==> out == Canonical(Parse(raw, shortest).value)
  {
    if |raw| == 0 {
      return "null";
    }
    var parsed := Parse(raw, shortest);
    if parsed.None? {
      return raw;
    }
    out := MarshalCanonical(parsed.value);
  }

  lemma MeaningIsPrinted(raw: string, shortest: Shortest)
    requires PrintsBack(shortest) && MeaningOf(raw, shortest).Value?
    ensures Printed(MeaningOf(raw, shortest).v, shortest)
  {
    if raw != "" {
      ParsedIsPrinted(raw, shortest);
    }
  }

  /** Canonical text means what the raw text meant. */
  lemma MeaningIsKept(raw: string, shortest: Shortest)
    requires PrintsBack(shortest)
    ensures MeaningOf(CanonicalOf(raw, shortest), shortest) == MeaningOf(raw, shortest)
  {
    if MeaningOf(raw, shortest).Value? {
      var v := MeaningOf(raw, shortest).v;
      MeaningIsPrinted(raw, shortest);
      RoundTrip(v, shortest);
      assert Parse("", shortest) == None;
    }
  }

  /** Two inputs get the same canonical text exactly when they mean the same. */
  lemma SameTextIffSameMeaning(a: string, b: string, shortest: Shortest)
    requires PrintsBack(shortest)
    ensures CanonicalOf(a, shortest) == CanonicalOf(b, shortest)
       <==> MeaningOf(a, shortest) == MeaningOf(b, shortest)
  {
    MeaningIsKept(a, shortest);
    MeaningIsKept(b, shortest);
  }

  /** Canonicalising twice is canonicalising once. */
  lemma CanonicalIsFixpoint(raw: string, shortest: Shortest)
    requires PrintsBack(shortest)
    ensures CanonicalOf(CanonicalOf(raw, shortest), shortest) == CanonicalOf(raw, shortest)
  {
    MeaningIsKept(raw, shortest);
  }

  /** Member order, whitespace and escape spelling are invisible: two layouts have the same
      canonical text exactly when their documents have the same value. */
  lemma LayoutIsInvisible(c: Doc, d: Doc, before: string, after: string, before': string, after': string,
                          shortest: Shortest)
    requires PrintsBack(shortest) && ValidDoc(c, shortest) && ValidDoc(d, shortest)
    requires IsGap(before) && IsGap(after) && IsGap(before') && IsGap(after')
    ensures CanonicalOf(before + Text(c, after), shortest) == CanonicalOf(before' + Text(d, after'), shortest)
       <==> DocValue(c, shortest) == DocValue(d, shortest)
  {
    var s, t := before + Text(c, after), before' + Text(d, after');
    ParseLayout(c, before, after, shortest);
    ParseLayout(d, before', after', shortest);
    TextStart(c, after, shortest);
    TextStart(d, after', shortest);
    assert s != "" && t != "";
    SameTextIffSameMeaning(s, t, shortest);
  }

  // ---------------------------------------------------------------------------
  // The hashed bytes
  // ---------------------------------------------------------------------------

  const NUL: char := 0 as char

  predicate NulFree(s: string) {
    NUL !in s
  }

  function Preimage(session: string, tool: string, canonical: string): string {
    session + [NUL] + tool + [NUL] + canonical
  }

  method ComputeKey<H>(session: string, tool: string, raw: string, shortest: Shortest, sha256: string -> H)
    returns (key: H)
    ensures key == sha256(session + [0 as char] + tool + [0 as char] + CanonicalOf(raw, shortest))
    ensures key == sha256(Preimage(session, tool, CanonicalOf(raw, shortest)))
  {
    var canonical := CanonicalJson(raw, shortest);
    var h := "";
    h := h + session;
    h := h + [NUL];
    h := h + tool;
    h := h + [NUL];
    h := h + canonical;
    assert h == Preimage(session, tool, canonical);
    key := sha256(h);
  }

  lemma NulPosition(a: string, b: string)
    requires NulFree(a)
    ensures var s := a + [NUL] + b;
            s[|a|] == NUL && (forall i :: 0 <= i < |a| ==> s[i] != NUL) && a == s[..|a|] && b == s[|a| + 1..]
  {
    forall i | 0 <= i < |a| ensures (a + [NUL] + b)[i] != NUL {
      assert a[i] in a;
    }
  }

  /** A NUL-free prefix is recovered by the first NUL. */
  lemma FirstNul(a: string, b: string, c: string, d: string)
    requires NulFree(a) && NulFree(c)
    requires a + [NUL] + b == c + [NUL] + d
    ensures a == c && b == d
  {
    NulPosition(a, b);
    NulPosition(c, d);
    assert |a| == |c|;
  }

  lemma SamePreimage(s: string, t: string, c: string, s': string, t': string, c': string)
    requires NulFree(s) && NulFree(t) && NulFree(s') && NulFree(t')
    requires Preimage(s, t, c) == Preimage(s', t', c')
    ensures s == s' && t == t' && c == c'
  {
    assert Preimage(s, t, c) == s + [NUL] + (t + [NUL] + c);
    assert Preimage(s', t', c') == s' + [NUL] + (t' + [NUL] + c');
    FirstNul(s, t + [NUL] + c, s', t' + [NUL] + c');
    FirstNul(t, c, t', c');
  }

  /** With NUL-free names the hashed bytes identify session, tool and meaning of the input. */
  lemma PreimageIdentifies(s: string, t: string, raw: string, s': string, t': string, raw': string,
                           shortest: Shortest)
    requires PrintsBack(shortest)
    requires NulFree(s) && NulFree(t) && NulFree(s') && NulFree(t')
    ensures Preimage(s, t, CanonicalOf(raw, shortest)) == Preimage(s', t', CanonicalOf(raw', shortest))
       <==> s == s' && t == t' && MeaningOf(raw, shortest) == MeaningOf(raw', shortest)
  {
    var c, c' := CanonicalOf(raw, shortest), CanonicalOf(raw', shortest);
    SameTextIffSameMeaning(raw, raw', shortest);
    if Preimage(s, t, c) == Preimage(s', t', c') {
      SamePreimage(s, t, c, s', t', c');
    }
  }

  /** No other triple has the same hashed bytes as this one. */
  ghost predicate Unambiguous(session: string, tool: string, canonical: string) {
    forall s, t, c :: Preimage(s, t, c) == Preimage(session, tool, canonical) ==>
      s == session && t == tool && c == canonical
  }

  lemma {:induction false} NulCount(s: string, t: string, c: string)
    ensures multiset(Preimage(s, t, c))[NUL] == 2 + multiset(s)[NUL] + multiset(t)[NUL] + multiset(c)[NUL]
    ensures NulFree(s) && NulFree(t) && NulFree(c) <==> multiset(Preimage(s, t, c))[NUL] == 2
  {
    assert NulFree(s) <==> multiset(s)[NUL] == 0;
    assert NulFree(t) <==> multiset(t)[NUL] == 0;
    assert NulFree(c) <==> multiset(c)[NUL] == 0;
  }

  /** A NUL inside any part can be mistaken for a separator. */
  lemma MovedSeparator(session: string, tool: string, canonical: string)
    requires !(NulFree(session) && NulFree(tool) && NulFree(canonical))
    ensures !Unambiguous(session, tool, canonical)
  {
    var p := Preimage(session, tool, canonical);
    if i :| 0 <= i < |session| && session[i] == NUL {
      assert session == session[..i] + [NUL] + session[i + 1..];
      assert Preimage(session[..i], session[i + 1..], tool + [NUL] + canonical) == p;
    } else if i :| 0 <= i < |tool| && tool[i] == NUL {
      assert tool == tool[..i] + [NUL] + tool[i + 1..];
      assert Preimage(session, tool[..i], tool[i + 1..] + [NUL] + canonical) == p;
    } else {
      var i :| 0 <= i < |canonical| && canonical[i] == NUL;
      assert canonical == canonical[..i] + [NUL] + canonical[i + 1..];
      assert Preimage(session + [NUL] + tool, canonical[..i], canonical[i + 1..]) == p;
    }
  }

  /** Over arbitrary byte strings a triple is unambiguous exactly when it is NUL-free. */
  lemma UnambiguousIffNulFree(session: string, tool: string, canonical: string)
    ensures Unambiguous(session, tool, canonical) <==> NulFree(session) && NulFree(tool) && NulFree(canonical)
  {
    if NulFree(session) && NulFree(tool) && NulFree(canonical) {
      forall s, t, c | Preimage(s, t, c) == Preimage(session, tool, canonical)
        ensures s == session && t == tool && c == canonical
      {
        NulCount(s, t, c);
        NulCount(session, tool, canonical);
        SamePreimage(s, t, c, session, tool, canonical);
      }
    } else {
      MovedSeparator(session, tool, canonical);
    }
  }
}

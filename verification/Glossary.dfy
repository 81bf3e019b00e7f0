/**
 The per-project abbreviation glossary: one row per abbreviation, merged first-write-wins
 and read back through a prefix listing.
 */
module Glossary {
  import opened Common
  import KeyValue
  import CanonicalJson
  import JsonLayout

  const SCOPE := "abbreviations"
  const MAX_ENTRIES := 500
  const MAX_ABBREV := 16
  const MIN_ABBREV := 2
  const MAX_EXPANSION := 200

  type Rows = map<string, string>

  /** Case-insensitive equality of the library. */
  type EqualFold = (string, string) -> bool

  // ---------------------------------------------------------------------------
  // Keys
  // ---------------------------------------------------------------------------

  function Prefix(project: string): string {
    KeyValue.Key(SCOPE, project, "") + ":"
  }

  function EntryKey(project: string, abbrev: string): string {
    KeyValue.Key(SCOPE, project, abbrev)
  }

  function AbbrevFromKey(prefix: string, key: string): string {
    if KeyValue.IsPrefix(prefix, key) then key[|prefix|..] else ""
  }

  /** An abbreviation that can be stored: non-empty and without a separator. */
  predicate Storable(abbrev: string) {
    abbrev != "" && ':' !in abbrev
  }

  lemma EntryKeyShape(project: string, abbrev: string)
    requires abbrev != ""
    ensures EntryKey(project, abbrev) == Prefix(project) + abbrev
    ensures EntryKey(project, abbrev) == KeyValue.Key(SCOPE, project, "") + (":" + abbrev)
    ensures project != "" ==> Prefix(project) == (SCOPE + ":") + (project + ":")
  {
    if project != "" {
      assert Prefix(project) == (SCOPE + ":") + (project + ":");
    }
  }

  lemma SeparatorPosition(p: string, a: string)
    requires ':' !in a
    ensures var s := p + (":" + a);
            s[|p|] == ':' && (forall i :: |p| < i < |s| ==> s[i] != ':') && p == s[..|p|] && a == s[|p| + 1..]
  {
    var s := p + (":" + a);
    forall i | |p| < i < |s| ensures s[i] != ':' {
      assert s[i] == a[i - |p| - 1];
    }
  }

  /** The last separator splits project and abbreviation, so keys do not collide. */
  lemma LastSeparator(p: string, a: string, q: string, b: string)
    requires ':' !in a && ':' !in b
    requires p + (":" + a) == q + (":" + b)
    ensures p == q && a == b
  {
    SeparatorPosition(p, a);
    SeparatorPosition(q, b);
    assert |p| == |q|;
  }

  lemma ScopedProject(p: string, q: string)
    ensures KeyValue.Key(SCOPE, p, "") == KeyValue.Key(SCOPE, q, "") <==> p == q
  {
    var n := |SCOPE| + 1;
    assert p != "" ==> KeyValue.Key(SCOPE, p, "")[n..] == p;
    assert q != "" ==> KeyValue.Key(SCOPE, q, "")[n..] == q;
  }

  lemma EntryKeyInjective(p: string, a: string, q: string, b: string)
    requires Storable(a) && Storable(b)
    ensures EntryKey(p, a) == EntryKey(q, b) <==> p == q && a == b
  {
    EntryKeyShape(p, a);
    EntryKeyShape(q, b);
    if EntryKey(p, a) == EntryKey(q, b) {
      LastSeparator(KeyValue.Key(SCOPE, p, ""), a, KeyValue.Key(SCOPE, q, ""), b);
      ScopedProject(p, q);
    }
  }

  /** Reading project `p` meets an entry of project `q` exactly when `q` is `p` itself or lies
      under it, separated by a colon; the project without a name meets all. */
  lemma PrefixMeetsOnlySubprojects(p: string, q: string, b: string)
    requires Storable(b)
    ensures AbbrevFromKey(Prefix(p), EntryKey(q, b)) != "" <==> q == p || p == "" || KeyValue.IsPrefix(p + ":", q)
  {
    EntryKeyShape(p, b);
    EntryKeyShape(q, b);
    var n := |SCOPE| + 1;
    var text := (if q != "" then q + ":" else "") + b;
    var key := EntryKey(q, b);
    assert key == (SCOPE + ":") + text;
    if p == "" {
      assert Prefix(p) == SCOPE + ":" && key[..n] == SCOPE + ":";
    } else {
      UnderPrefix(SCOPE + ":", p + ":", text);
      OwnProject(p, q, b);
    }
  }

  lemma UnderPrefix(front: string, p: string, text: string)
    ensures KeyValue.IsPrefix(front + p, front + text) <==> KeyValue.IsPrefix(p, text)
  {
    if |p| <= |text| {
      assert (front + text)[..|front + p|] == front + text[..|p|];
      assert (front + p)[|front|..] == p && (front + text[..|p|])[|front|..] == text[..|p|];
    }
  }

  lemma OwnProject(p: string, q: string, b: string)
    requires p != "" && Storable(b)
    ensures KeyValue.IsPrefix(p + ":", (if q != "" then q + ":" else "") + b) <==>
            q == p || KeyValue.IsPrefix(p + ":", q)
  {
    var text := (if q != "" then q + ":" else "") + b;
    if q == "" {
      assert text == b;
      assert |p| < |b| ==> b[..|p| + 1][|p|] in b;
    } else {
      SeparatorPosition(q, b);
      assert text == q + (":" + b);
      if |p| < |q| {
        assert text[..|p| + 1] == q[..|p| + 1];
      } else if |p| == |q| {
        assert text[..|p| + 1] == q + ":";
      } else if |p| < |text| {
        assert text[..|p| + 1][|p|] == text[|p|];
      }
    }
  }

  // ---------------------------------------------------------------------------
  // What may be stored
  // ---------------------------------------------------------------------------

  predicate IsSpace(c: char) {
    var v := c as int;
    (9 <= v <= 13) || v == 0x20 || v == 0x85 || v == 0xA0 || v == 0x1680 || (0x2000 <= v <= 0x200A)
      || v == 0x2028 || v == 0x2029 || v == 0x202F || v == 0x205F || v == 0x3000
  }

  function TrimLeft(s: string): string {
    if s != "" && IsSpace(s[0]) then TrimLeft(s[1..]) else s
  }

  function TrimRight(s: string): string {
    if s != "" && IsSpace(s[|s| - 1]) then TrimRight(s[..|s| - 1]) else s
  }

  function TrimSpace(s: string): string {
    TrimRight(TrimLeft(s))
  }

  function Utf8Width(c: char): nat {
    var v := c as int;
    if v < 0x80 then 1 else if v < 0x800 then 2 else if v < 0x1_0000 then 3 else 4
  }

  function ByteLength(s: string): nat {
    if s == "" then 0 else Utf8Width(s[0]) + ByteLength(s[1..])
  }

  predicate ContainsAny(s: string, chars: string) {
    exists i :: 0 <= i < |s| && s[i] in chars
  }

  predicate ValidAbbrev(abbrev: string, expansion: string, fold: EqualFold) {
    var a, e := TrimSpace(abbrev), TrimSpace(expansion);
    && a != "" && e != ""
    && !ContainsAny(a, ": \t\n")
    && MIN_ABBREV <= |a| <= MAX_ABBREV
    && |e| <= MAX_EXPANSION
    && !fold(a, e) && ByteLength(e) > ByteLength(a)
  }

  lemma ValidIsStorable(abbrev: string, expansion: string, fold: EqualFold)
    requires ValidAbbrev(abbrev, expansion, fold)
    ensures Storable(TrimSpace(abbrev))
  {
    var a := TrimSpace(abbrev);
    if i :| 0 <= i < |a| && a[i] == ':' {
      assert ContainsAny(a, ": \t\n");
    }
  }

  /** Trimming twice is trimming once. */
  lemma TrimIsStable(s: string)
    ensures TrimSpace(TrimSpace(s)) == TrimSpace(s)
  {
    TrimLeftStops(s);
    TrimRightKeepsLeft(TrimLeft(s));
    TrimRightStops(TrimLeft(s));
  }

  lemma {:induction false} TrimLeftStops(s: string)
    ensures TrimLeft(s) != "" ==> !IsSpace(TrimLeft(s)[0])
  {
    if s != "" {
      TrimLeftStops(s[1..]);
    }
  }

  lemma {:induction false} TrimRightStops(s: string)
    ensures TrimRight(TrimRight(s)) == TrimRight(s)
    decreases |s|
  {
    if s != "" {
      TrimRightStops(s[..|s| - 1]);
    }
  }

  lemma {:induction false} TrimRightKeepsLeft(s: string)
    requires s != "" ==> !IsSpace(s[0])
    ensures TrimRight(s) != "" ==> !IsSpace(TrimRight(s)[0])
    decreases |s|
  {
    if s != "" {
      TrimRightKeepsLeft(s[..|s| - 1]);
    }
  }

  // ---------------------------------------------------------------------------
  // Reading and merging
  // ---------------------------------------------------------------------------

  function DropLeadingQuotes(s: string): string {
    if s != "" && s[0] == '"' then DropLeadingQuotes(s[1..]) else s
  }

  function DropTrailingQuotes(s: string): string {
    if s != "" && s[|s| - 1] == '"' then DropTrailingQuotes(s[..|s| - 1]) else s
  }

  /** A stored value as the reader sees it: quotes are stripped, escapes are not undone. */
  function ReadBack(blob: string): string {
    DropTrailingQuotes(DropLeadingQuotes(blob))
  }

  /** The abbreviations in a listing. */
  function Abbrevs(listing: Rows, project: string): set<string> {
    set k | k in listing && AbbrevFromKey(Prefix(project), k) != "" :: AbbrevFromKey(Prefix(project), k)
  }

  ghost predicate IsGlossary(listing: Rows, project: string, out: Rows) {
    && out.Keys == Abbrevs(listing, project)
    && forall k :: k in listing && AbbrevFromKey(Prefix(project), k) != "" ==>
         out[AbbrevFromKey(Prefix(project), k)] == ReadBack(listing[k])
  }

  datatype Merge = Merge(rows: Rows, existing: set<string>, added: nat)

  /** One offered pair: trimmed, checked, then written unless it is known or the glossary is full. */
  function MergeOne(m: Merge, project: string, pair: (string, string), fold: EqualFold): Merge {
    var a, e := TrimSpace(pair.0), TrimSpace(pair.1);
    if !Accepts(m, pair, fold) then m
    else Merge(m.rows[EntryKey(project, a) := CanonicalJson.Quote(e)], m.existing + {a}, m.added + 1)
  }

  function MergeAll(m: Merge, project: string, pairs: seq<(string, string)>, fold: EqualFold): Merge {
    if pairs == [] then m
    else MergeOne(MergeAll(m, project, pairs[..|pairs| - 1], fold), project, pairs[|pairs| - 1], fold)
  }

  /** Once full, nothing more is written. */
  lemma {:induction false} FullMergesNothing(m: Merge, project: string, pairs: seq<(string, string)>, i: nat,
                                             fold: EqualFold)
    requires i <= |pairs| && |MergeAll(m, project, pairs[..i], fold).existing| >= MAX_ENTRIES
    ensures MergeAll(m, project, pairs, fold) == MergeAll(m, project, pairs[..i], fold)
    decreases |pairs|
  {
    if i == |pairs| {
      assert pairs[..i] == pairs;
    } else {
      assert pairs[..|pairs| - 1][..i] == pairs[..i];
      FullMergesNothing(m, project, pairs[..|pairs| - 1], i, fold);
    }
  }

  class Store {
    var rows: Rows
    const collation: KeyValue.Collation

    constructor (rows: Rows, collation: KeyValue.Collation)
      ensures this.rows == rows && this.collation == collation
    {
      this.rows := rows;
      this.collation := collation;
    }

    method GetGlossary(project: string) returns (out: Rows)
      requires KeyValue.IsCollation(collation)
      ensures exists listing :: KeyValue.IsListing(rows, Prefix(project), collation, listing)
                               && IsGlossary(listing, project, out)
    {
      var prefix := Prefix(project);
      var pairs := KeyValue.ListByPrefix(rows, prefix, collation);
      out := map[];
      var todo := pairs.Keys;
      while todo != {}
        invariant todo <= pairs.Keys
        invariant forall a :: a in out <==> exists k :: k in pairs && k !in todo && AbbrevFromKey(prefix, k) == a != ""
        invariant forall k :: k in pairs && k !in todo && AbbrevFromKey(prefix, k) != "" ==>
          AbbrevFromKey(prefix, k) in out && out[AbbrevFromKey(prefix, k)] == ReadBack(pairs[k])
        decreases |todo|
      {
        var k :| k in todo;
        todo := todo - {k};
        var abbrev := AbbrevFromKey(prefix, k);
        if abbrev == "" {
          continue;
        }
        forall other | other in pairs && other != k && AbbrevFromKey(prefix, other) == abbrev ensures false {
          SameAbbrevSameKey(prefix, k, other);
        }
        out := out[abbrev := ReadBack(pairs[k])];
      }
    }

    method MergeGlossary(project: string, pairs: map<string, string>, fold: EqualFold)
      returns (added: nat, ghost listing: Rows, ghost order: seq<(string, string)>)
      requires KeyValue.IsCollation(collation)
      modifies this
      ensures KeyValue.IsListing(old(rows), Prefix(project), collation, listing)
      ensures forall p :: p in order <==> p.0 in pairs && pairs[p.0] == p.1
      ensures forall i, j :: 0 <= i < j < |order| ==> order[i] != order[j]
      ensures var m := MergeAll(Merge(old(rows), Abbrevs(listing, project), 0), project, order, fold);
              rows == m.rows && added == m.added
    {
      var existing := GetGlossary(project);
      listing :| KeyValue.IsListing(rows, Prefix(project), collation, listing)
        && IsGlossary(listing, project, existing);
      var items := Enumerate(pairs);
      order := items;
      rows, added := MergeItems(rows, existing.Keys, project, items, fold);
    }
  }

  lemma MergeAllStep(m: Merge, project: string, pairs: seq<(string, string)>, i: nat, fold: EqualFold)
    requires i < |pairs|
    ensures MergeAll(m, project, pairs[..i + 1], fold)
         == MergeOne(MergeAll(m, project, pairs[..i], fold), project, pairs[i], fold)
  {
    assert pairs[..i + 1][..i] == pairs[..i];
  }

  method MergeItems(before: Rows, existing: set<string>, project: string, items: seq<(string, string)>, fold: EqualFold)
    returns (rows: Rows, added: nat)
    ensures var m := MergeAll(Merge(before, existing, 0), project, items, fold);
            rows == m.rows && added == m.added
  {
    var known := existing;
    rows, added := before, 0;
    for i := 0 to |items|
      invariant Merge(rows, known, added) == MergeAll(Merge(before, existing, 0), project, items[..i], fold)
    {
      MergeAllStep(Merge(before, existing, 0), project, items, i, fold);
      var a, e := TrimSpace(items[i].0), TrimSpace(items[i].1);
      if !ValidAbbrev(a, e, fold) || a in known {
        continue;
      }
      if |known| >= MAX_ENTRIES {
        FullMergesNothing(Merge(before, existing, 0), project, items, i, fold);
        return;
      }
      rows := rows[EntryKey(project, a) := CanonicalJson.Quote(e)];
      known := known + {a};
      added := added + 1;
    }
    assert items[..|items|] == items;
  }

  lemma SameAbbrevSameKey(prefix: string, k: string, other: string)
    requires AbbrevFromKey(prefix, k) == AbbrevFromKey(prefix, other) != ""
    ensures k == other
  {
    assert k == k[..|prefix|] + k[|prefix|..] && other == other[..|prefix|] + other[|prefix|..];
  }

  method Enumerate(pairs: map<string, string>) returns (items: seq<(string, string)>)
    ensures forall p :: p in items <==> p.0 in pairs && pairs[p.0] == p.1
    ensures forall i, j :: 0 <= i < j < |items| ==> items[i] != items[j]
  {
    items := [];
    var todo := pairs.Keys;
    while todo != {}
      invariant todo <= pairs.Keys
      invariant forall p :: p in items <==> p.0 in pairs && p.0 !in todo && pairs[p.0] == p.1
      invariant forall i, j :: 0 <= i < j < |items| ==> items[i] != items[j]
      decreases |todo|
    {
      var k :| k in todo;
      assert forall i :: 0 <= i < |items| ==> items[i] in items;
      items := items + [(k, pairs[k])];
      todo := todo - {k};
    }
  }

  // ---------------------------------------------------------------------------
  // Runs of merges
  // ---------------------------------------------------------------------------

  /** The project's own abbreviations, without those of projects below it. */
  function OwnAbbrevs(rows: Rows, project: string): set<string> {
    set k | k in rows && Storable(AbbrevFromKey(Prefix(project), k)) :: AbbrevFromKey(Prefix(project), k)
  }

  lemma OwnMeansRow(rows: Rows, project: string, a: string)
    ensures a in OwnAbbrevs(rows, project) <==> Storable(a) && EntryKey(project, a) in rows
  {
    if a != "" {
      EntryKeyShape(project, a);
      assert AbbrevFromKey(Prefix(project), Prefix(project) + a) == a;
    }
    if a in OwnAbbrevs(rows, project) {
      var k :| k in rows && Storable(AbbrevFromKey(Prefix(project), k)) && AbbrevFromKey(Prefix(project), k) == a;
      SameAbbrevSameKey(Prefix(project), k, Prefix(project) + a);
    }
  }

  /** A valid pair in the form it is stored in. */
  predicate ValidEntry(a: string, e: string, fold: EqualFold) {
    Storable(a) && TrimSpace(a) == a && TrimSpace(e) == e && ValidAbbrev(a, e, fold)
  }

  /** A well-formed row: some project's valid, trimmed pair. */
  ghost predicate RowValid(k: string, v: string, fold: EqualFold) {
    exists p, a, e :: ValidEntry(a, e, fold) && k == EntryKey(p, a) && v == CanonicalJson.Quote(e)
  }

  ghost predicate AllValid(rows: Rows, fold: EqualFold) {
    forall k :: k in rows ==> RowValid(k, rows[k], fold)
  }

  ghost predicate WithinLimit(rows: Rows) {
    forall p :: |OwnAbbrevs(rows, p)| <= MAX_ENTRIES
  }

  ghost predicate Sound(rows: Rows, fold: EqualFold) {
    AllValid(rows, fold) && WithinLimit(rows)
  }

  ghost predicate Extends(before: Rows, after: Rows) {
    forall k :: k in before ==> k in after && after[k] == before[k]
  }

  /** What every offered pair keeps while project `p` is merged. */
  ghost predicate MergeSound(start: Rows, m: Merge, p: string, fold: EqualFold) {
    && Extends(start, m.rows) && Sound(m.rows, fold)
    && OwnAbbrevs(m.rows, p) <= m.existing
    && m.added == |m.rows| - |start|
    && KeepsOthers(start, m.rows, p)
  }

  /** The other projects have the same entries. */
  ghost predicate KeepsOthers(start: Rows, rows: Rows, p: string) {
    forall q :: q != p ==> OwnAbbrevs(rows, q) == OwnAbbrevs(start, q)
  }

  lemma OwnAfterWrite(rows: Rows, p: string, a: string, v: string, q: string)
    requires Storable(a)
    ensures OwnAbbrevs(rows[EntryKey(p, a) := v], q) == OwnAbbrevs(rows, q) + if q == p then {a} else {}
  {
    forall b ensures b in OwnAbbrevs(rows[EntryKey(p, a) := v], q) <==> b in OwnAbbrevs(rows, q) || (q == p && b == a) {
      OwnMeansRow(rows[EntryKey(p, a) := v], q, b);
      OwnMeansRow(rows, q, b);
      if Storable(b) {
        EntryKeyInjective(p, a, q, b);
      }
    }
  }

  lemma WriteKeepsLimit(rows: Rows, existing: set<string>, p: string, a: string, v: string)
    requires WithinLimit(rows) && Storable(a)
    requires OwnAbbrevs(rows, p) <= existing && |existing| < MAX_ENTRIES
    ensures WithinLimit(rows[EntryKey(p, a) := v])
  {
    var rows' := rows[EntryKey(p, a) := v];
    forall q ensures |OwnAbbrevs(rows', q)| <= MAX_ENTRIES {
      OwnAfterWrite(rows, p, a, v, q);
      if q == p {
        SubsetIsSmaller(OwnAbbrevs(rows, p), existing);
      } else {
        assert OwnAbbrevs(rows', q) == OwnAbbrevs(rows, q);
      }
    }
  }

  lemma WriteKeepsValid(rows: Rows, p: string, a: string, e: string, fold: EqualFold)
    requires AllValid(rows, fold) && ValidEntry(a, e, fold)
    ensures AllValid(rows[EntryKey(p, a) := CanonicalJson.Quote(e)], fold)
  {
    var key, v := EntryKey(p, a), CanonicalJson.Quote(e);
    var rows' := rows[key := v];
    assert RowValid(key, v, fold);
    forall k | k in rows' ensures RowValid(k, rows'[k], fold) {
      if k != key {
        assert RowValid(k, rows[k], fold);
      }
    }
  }

  lemma WriteGrows(start: Rows, rows: Rows, key: string, v: string)
    requires Extends(start, rows) && key !in rows
    ensures Extends(start, rows[key := v]) && |rows[key := v]| == |rows| + 1
  {
    assert rows[key := v].Keys == rows.Keys + {key};
  }

  lemma WriteKeepsOthers(start: Rows, rows: Rows, p: string, a: string, v: string)
    requires Storable(a)
    requires KeepsOthers(start, rows, p)
    ensures KeepsOthers(start, rows[EntryKey(p, a) := v], p)
  {
    var rows' := rows[EntryKey(p, a) := v];
    forall q | q != p ensures OwnAbbrevs(rows', q) == OwnAbbrevs(start, q) {
      OwnAfterWrite(rows, p, a, v, q);
    }
  }

  lemma WriteKeepsSound(rows: Rows, existing: set<string>, p: string, a: string, e: string, fold: EqualFold)
    requires Sound(rows, fold) && ValidEntry(a, e, fold)
    requires OwnAbbrevs(rows, p) <= existing && |existing| < MAX_ENTRIES
    ensures Sound(rows[EntryKey(p, a) := CanonicalJson.Quote(e)], fold)
  {
    WriteKeepsLimit(rows, existing, p, a, CanonicalJson.Quote(e));
    WriteKeepsValid(rows, p, a, e, fold);
  }

  lemma NewAbbrevGrows(start: Rows, rows: Rows, p: string, a: string, v: string)
    requires Storable(a) && a !in OwnAbbrevs(rows, p) && Extends(start, rows)
    ensures var rows' := rows[EntryKey(p, a) := v];
      && Extends(start, rows') && |rows'| == |rows| + 1 && OwnAbbrevs(rows', p) == OwnAbbrevs(rows, p) + {a}
  {
    OwnMeansRow(rows, p, a);
    WriteGrows(start, rows, EntryKey(p, a), v);
    OwnAfterWrite(rows, p, a, v, p);
  }

  lemma WriteKeepsMergeSound(start: Rows, m: Merge, p: string, a: string, e: string, fold: EqualFold)
    requires MergeSound(start, m, p, fold)
    requires ValidEntry(a, e, fold) && a !in m.existing && |m.existing| < MAX_ENTRIES
    ensures var rows' := m.rows[EntryKey(p, a) := CanonicalJson.Quote(e)];
            MergeSound(start, Merge(rows', m.existing + {a}, m.added + 1), p, fold)
  {
    var v := CanonicalJson.Quote(e);
    var rows' := m.rows[EntryKey(p, a) := v];
    WriteKeepsSound(m.rows, m.existing, p, a, e, fold);
    NewAbbrevGrows(start, m.rows, p, a, v);
    WriteKeepsOthers(start, m.rows, p, a, v);
    assert OwnAbbrevs(rows', p) <= m.existing + {a};
  }

  /** Whether the pair is written. */
  predicate Accepts(m: Merge, pair: (string, string), fold: EqualFold) {
    ValidAbbrev(TrimSpace(pair.0), TrimSpace(pair.1), fold) && TrimSpace(pair.0) !in m.existing
    && |m.existing| < MAX_ENTRIES
  }

  lemma MergeOneKeepsSound(start: Rows, m: Merge, p: string, pair: (string, string), fold: EqualFold)
    requires MergeSound(start, m, p, fold)
    ensures MergeSound(start, MergeOne(m, p, pair, fold), p, fold)
  {
    if Accepts(m, pair, fold) {
      TrimIsStable(pair.0);
      TrimIsStable(pair.1);
      ValidIsStorable(TrimSpace(pair.0), TrimSpace(pair.1), fold);
      WriteKeepsMergeSound(start, m, p, TrimSpace(pair.0), TrimSpace(pair.1), fold);
    } else {
      assert MergeOne(m, p, pair, fold) == m;
    }
  }

  lemma {:induction false} MergeAllKeepsSound(start: Rows, m: Merge, p: string, pairs: seq<(string, string)>,
                                              fold: EqualFold)
    requires MergeSound(start, m, p, fold)
    ensures MergeSound(start, MergeAll(m, p, pairs, fold), p, fold)
    decreases |pairs|
  {
    if pairs != [] {
      MergeAllKeepsSound(start, m, p, pairs[..|pairs| - 1], fold);
      MergeOneKeepsSound(start, MergeAll(m, p, pairs[..|pairs| - 1], fold), p, pairs[|pairs| - 1], fold);
    }
  }

  /** One merge call: the listing it got and the order in which it met the pairs. */
  datatype Call = Call(project: string, order: seq<(string, string)>, listing: Rows)

  function Merged(rows: Rows, c: Call, fold: EqualFold): Merge {
    MergeAll(Merge(rows, Abbrevs(c.listing, c.project), 0), c.project, c.order, fold)
  }

  // ---------------------------------------------------------------------------
  // When the first write wins
  // ---------------------------------------------------------------------------

  /** What the merge is shown suffices: every own entry, or a full glossary. */
  predicate Suffices(rows: Rows, project: string, listing: Rows) {
    OwnAbbrevs(rows, project) <= Abbrevs(listing, project) || |Abbrevs(listing, project)| >= MAX_ENTRIES
  }

  ghost predicate Shown(rows: Rows, leq: KeyValue.Collation, c: Call) {
    && KeyValue.IsListing(rows, Prefix(c.project), leq, c.listing)
    && Suffices(rows, c.project, c.listing)
  }

  /** One merge that is shown enough: nothing stored is changed, the answer is the growth, other
      projects are untouched, and the store stays sound. */
  lemma MergeKeepsStore(rows: Rows, leq: KeyValue.Collation, c: Call, fold: EqualFold)
    requires Sound(rows, fold) && Shown(rows, leq, c)
    ensures var m := Merged(rows, c, fold);
      && Extends(rows, m.rows) && Sound(m.rows, fold) && m.added == |m.rows| - |rows|
      && KeepsOthers(rows, m.rows, c.project)
  {
    var start := Merge(rows, Abbrevs(c.listing, c.project), 0);
    if |start.existing| >= MAX_ENTRIES {
      assert MergeAll(start, c.project, c.order[..0], fold) == start;
      FullMergesNothing(start, c.project, c.order, 0, fold);
    } else {
      MergeAllKeepsSound(rows, start, c.project, c.order, fold);
    }
  }

  /** Case-insensitively equal strings have the same number of characters. */
  ghost predicate IsFold(fold: EqualFold) {
    forall a, b :: fold(a, b) ==> |a| == |b|
  }

  function Xs(n: nat): string {
    seq(n, i => 'x')
  }

  lemma {:induction false} XsAreStable(n: nat)
    ensures ByteLength(Xs(n)) == n && |CanonicalJson.Quote(Xs(n))| == n + 2
    ensures TrimLeft(Xs(n)) == Xs(n) == TrimRight(Xs(n))
  {
    if n > 0 {
      XsAreStable(n - 1);
      assert Xs(n)[1..] == Xs(n - 1);
    }
    forall i | 0 <= i < n ensures Unescaped(Xs(n)[i]) {
      assert Xs(n)[i] == 'x';
    }
    EscapedLength(Xs(n));
  }

  lemma {:induction false} BytesPerCharacter(s: string)
    ensures |s| <= ByteLength(s) <= 4 * |s|
  {
    if s != "" {
      BytesPerCharacter(s[1..]);
    }
  }

  /** Any stored abbreviation could be offered again with another expansion. */
  lemma OtherExpansion(a: string, v: string, fold: EqualFold) returns (e: string)
    requires IsFold(fold) && TrimSpace(a) == a && a != "" && !ContainsAny(a, ": \t\n")
    requires MIN_ABBREV <= |a| <= MAX_ABBREV
    ensures ValidAbbrev(a, e, fold) && TrimSpace(e) == e && CanonicalJson.Quote(e) != v
  {
    var n := if |v| == 67 then 66 else 65;
    e := Xs(n);
    XsAreStable(n);
    BytesPerCharacter(a);
  }

  lemma OwnRowIsValid(rows: Rows, p: string, a: string, fold: EqualFold)
    requires AllValid(rows, fold) && a in OwnAbbrevs(rows, p)
    ensures EntryKey(p, a) in rows && TrimSpace(a) == a
    ensures exists e :: ValidAbbrev(a, e, fold)
  {
    OwnMeansRow(rows, p, a);
    var key := EntryKey(p, a);
    assert RowValid(key, rows[key], fold);
    var q, b, e :| ValidEntry(b, e, fold) && key == EntryKey(q, b) && rows[key] == CanonicalJson.Quote(e);
    EntryKeyInjective(p, a, q, b);
  }

  /** A merge that is shown too little can overwrite. */
  lemma UnshownOverwrites(rows: Rows, project: string, listing: Rows, fold: EqualFold)
    returns (order: seq<(string, string)>)
    requires Sound(rows, fold) && IsFold(fold) && !Suffices(rows, project, listing)
    ensures !Extends(rows, Merged(rows, Call(project, order, listing), fold).rows)
  {
    var a :| a in OwnAbbrevs(rows, project) && a !in Abbrevs(listing, project);
    OwnRowIsValid(rows, project, a, fold);
    var key := EntryKey(project, a);
    var e := OtherExpansion(a, rows[key], fold);
    order := [(a, e)];
    OnePairMerged(Merge(rows, Abbrevs(listing, project), 0), project, a, e, fold);
    assert Merged(rows, Call(project, order, listing), fold).rows[key] != rows[key];
  }

  lemma OnePairMerged(m: Merge, project: string, a: string, e: string, fold: EqualFold)
    requires TrimSpace(a) == a && TrimSpace(e) == e && ValidAbbrev(a, e, fold)
    requires a !in m.existing && |m.existing| < MAX_ENTRIES
    ensures MergeAll(m, project, [(a, e)], fold).rows == m.rows[EntryKey(project, a) := CanonicalJson.Quote(e)]
  {
    var order := [(a, e)];
    assert order[..0] == [];
    assert MergeAll(m, project, order, fold) == MergeOne(m, project, (a, e), fold);
  }

  /** The first write wins whatever is merged next, exactly when the listing shows all of the
      project's own entries or as many abbreviations as a glossary may hold. */
  lemma FirstWriteWinsIff(rows: Rows, leq: KeyValue.Collation, project: string, listing: Rows, fold: EqualFold)
    requires Sound(rows, fold) && IsFold(fold)
    requires KeyValue.IsListing(rows, Prefix(project), leq, listing)
    ensures (forall order :: Extends(rows, Merged(rows, Call(project, order, listing), fold).rows))
       <==> Suffices(rows, project, listing)
  {
    if Suffices(rows, project, listing) {
      forall order ensures Extends(rows, Merged(rows, Call(project, order, listing), fold).rows) {
        MergeKeepsStore(rows, leq, Call(project, order, listing), fold);
      }
    } else {
      var order := UnshownOverwrites(rows, project, listing, fold);
    }
  }

  lemma ListedAbbrev(listing: Rows, project: string, a: string)
    requires a != ""
    ensures a in Abbrevs(listing, project) <==> EntryKey(project, a) in listing
  {
    EntryKeyShape(project, a);
    var prefix := Prefix(project);
    assert AbbrevFromKey(prefix, prefix + a) == a;
    if a in Abbrevs(listing, project) {
      var k :| k in listing && AbbrevFromKey(prefix, k) != "" && AbbrevFromKey(prefix, k) == a;
      SameAbbrevSameKey(prefix, k, prefix + a);
    }
  }

  /** Without a backslash in the name, a listing that is not cut off suffices. */
  lemma UncutSuffices(rows: Rows, leq: KeyValue.Collation, project: string, listing: Rows)
    requires '\\' !in project
    requires KeyValue.IsListing(rows, Prefix(project), leq, listing)
    requires |KeyValue.Selected(rows, Prefix(project))| <= KeyValue.LIST_CAP
    ensures Suffices(rows, project, listing)
  {
    var prefix := Prefix(project);
    KeyValue.ShortListingIsAll(rows, prefix, leq, listing);
    forall a | a in OwnAbbrevs(rows, project) ensures a in Abbrevs(listing, project) {
      OwnIsSelected(rows, project, a);
      ListedAbbrev(listing, project, a);
    }
  }

  lemma OwnIsSelected(rows: Rows, project: string, a: string)
    requires '\\' !in project && a in OwnAbbrevs(rows, project)
    ensures a != "" && EntryKey(project, a) in KeyValue.Selected(rows, Prefix(project))
  {
    OwnMeansRow(rows, project, a);
    EntryKeyShape(project, a);
    var prefix := Prefix(project);
    assert '\\' !in SCOPE + ":";
    KeyValue.LikeSelectsPrefix(prefix, a);
  }

  lemma {:induction false} AbbrevPerRow(listing: Rows, project: string)
    requires forall k :: k in listing ==> KeyValue.IsPrefix(Prefix(project), k)
    ensures |Abbrevs(listing, project)| >= |listing| - 1
    ensures Prefix(project) !in listing ==> |Abbrevs(listing, project)| == |listing|
    decreases |listing|
  {
    var prefix := Prefix(project);
    if listing != map[] {
      var k :| k in listing;
      var rest := listing - {k};
      assert |rest| == |listing| - 1 by {
        assert listing.Keys == rest.Keys + {k};
      }
      AbbrevPerRow(rest, project);
      var a := AbbrevFromKey(prefix, k);
      assert k == k[..|prefix|] + a;
      if a == "" {
        assert k == prefix;
        assert Abbrevs(rest, project) == Abbrevs(listing, project);
      } else {
        if a in Abbrevs(rest, project) {
          var other :| other in rest && AbbrevFromKey(prefix, other) == a;
          SameAbbrevSameKey(prefix, k, other);
        }
        assert Abbrevs(listing, project) == Abbrevs(rest, project) + {a};
      }
    }
  }

  lemma LiteralPrefix(project: string)
    ensures KeyValue.Literal(Prefix(project)) <==> KeyValue.Literal(project)
  {
    EntryKeyShape(project, "x");
    assert forall c :: c in SCOPE + ":" ==> !KeyValue.IsSpecial(c);
    if project == "" {
      assert Prefix(project) == SCOPE + ":";
    } else {
      LiteralInside(SCOPE + ":", project, ":");
      assert Prefix(project) == (SCOPE + ":") + project + ":";
    }
  }

  lemma LiteralInside(front: string, text: string, back: string)
    requires forall c :: c in front + back ==> !KeyValue.IsSpecial(c)
    ensures KeyValue.Literal(front + text + back) <==> KeyValue.Literal(text)
  {
    var all := front + text + back;
    forall i | 0 <= i < |text| ensures all[|front| + i] == text[i] {
    }
    forall i | 0 <= i < |all| && !(|front| <= i < |front| + |text|) ensures all[i] in front + back {
      assert i < |front| ==> all[i] == front[i];
      assert i >= |front| ==> all[i] == back[i - |front| - |text|];
    }
    if KeyValue.Literal(all) {
      forall i | 0 <= i < |text| ensures !KeyValue.IsSpecial(text[i]) {
        assert !KeyValue.IsSpecial(all[|front| + i]);
      }
    }
  }

  /** A literal name is always shown enough: a listing that is cut off holds a thousand rows of
      the project, more than a glossary may hold. */
  lemma LiteralSuffices(rows: Rows, leq: KeyValue.Collation, project: string, listing: Rows)
    requires KeyValue.Literal(project)
    requires KeyValue.IsListing(rows, Prefix(project), leq, listing)
    ensures Suffices(rows, project, listing)
  {
    var prefix := Prefix(project);
    LiteralPrefix(project);
    if |KeyValue.Selected(rows, prefix)| <= KeyValue.LIST_CAP {
      assert '\\' !in project;
      UncutSuffices(rows, leq, project, listing);
    } else {
      assert |listing| == KeyValue.LIST_CAP;
      forall k | k in listing ensures KeyValue.IsPrefix(prefix, k) {
        KeyValue.LiteralLike(prefix, k);
      }
      AbbrevPerRow(listing, project);
    }
  }

  ghost predicate Leads(rows: Rows, leq: KeyValue.Collation, run: seq<Call>, fold: EqualFold, end: Rows)
    decreases |run|
  {
    if run == [] then end == rows
    else Shown(rows, leq, run[0]) && Leads(Merged(rows, run[0], fold).rows, leq, run[1..], fold, end)
  }

  /** Over any run of merges that are shown enough, on any projects: an expansion once stored never
      changes, every stored pair is valid, and no project's glossary exceeds the limit. */
  lemma {:induction false} FirstWriteWins(rows: Rows, leq: KeyValue.Collation, run: seq<Call>, fold: EqualFold,
                                          end: Rows)
    requires Sound(rows, fold) && Leads(rows, leq, run, fold, end)
    ensures Extends(rows, end) && Sound(end, fold)
    decreases |run|
  {
    if run != [] {
      MergeKeepsStore(rows, leq, run[0], fold);
      FirstWriteWins(Merged(rows, run[0], fold).rows, leq, run[1..], fold, end);
    }
  }

  /** Any run of merges, each on the listing its store gives. */
  ghost predicate Listed(rows: Rows, leq: KeyValue.Collation, run: seq<Call>, fold: EqualFold)
    decreases |run|
  {
    run != [] ==>
      && KeyValue.IsListing(rows, Prefix(run[0].project), leq, run[0].listing)
      && Listed(Merged(rows, run[0], fold).rows, leq, run[1..], fold)
  }

  function EndOf(rows: Rows, run: seq<Call>, fold: EqualFold): Rows
    decreases |run|
  {
    if run == [] then rows else EndOf(Merged(rows, run[0], fold).rows, run[1..], fold)
  }

  /** Runs on literal names need no further condition. */
  lemma {:induction false} LiteralNamesAreShown(rows: Rows, leq: KeyValue.Collation, run: seq<Call>, fold: EqualFold)
    requires Listed(rows, leq, run, fold)
    requires forall i :: 0 <= i < |run| ==> KeyValue.Literal(run[i].project)
    ensures Leads(rows, leq, run, fold, EndOf(rows, run, fold))
    decreases |run|
  {
    if run != [] {
      LiteralSuffices(rows, leq, run[0].project, run[0].listing);
      LiteralNamesAreShown(Merged(rows, run[0], fold).rows, leq, run[1..], fold);
    }
  }

  // ---------------------------------------------------------------------------
  // Reading back
  // ---------------------------------------------------------------------------

  /** The encoder writes the character as itself. */
  predicate Unescaped(c: char) {
    CanonicalJson.CanonicalPiece(c).Plain?
  }

  lemma {:induction false} EscapedLength(s: string)
    ensures |CanonicalJson.Escaped(s)| >= |s|
    ensures (forall i :: 0 <= i < |s| ==> Unescaped(s[i])) ==> CanonicalJson.Escaped(s) == s
    ensures |CanonicalJson.Escaped(s)| == |s| ==> forall i :: 0 <= i < |s| ==> Unescaped(s[i])
  {
    if s != "" {
      EscapedLength(s[1..]);
      assert s == [s[0]] + s[1..];
    }
  }

  /** Only an escaped quote ends in a quote. */
  lemma {:induction false} EscapedEnd(s: string)
    requires s != ""
    ensures var e := CanonicalJson.Escaped(s);
      && e != "" && e[0] != '"'
      && (e[|e| - 1] == '"' <==> s[|s| - 1] == '"')
      && (e[|e| - 1] == '"' ==> |e| >= 2 && e[|e| - 2] == '\\')
  {
    if |s| > 1 {
      EscapedEnd(s[1..]);
    } else {
      assert CanonicalJson.Escaped(s) == JsonLayout.PieceText(CanonicalJson.CanonicalPiece(s[0])) + "";
    }
  }

  lemma QuotesStripped(s: string)
    requires s != ""
    ensures var e := CanonicalJson.Escaped(s);
            e != "" && ReadBack(CanonicalJson.Quote(s)) == if e[|e| - 1] == '"' then e[..|e| - 1] else e
  {
    var e := CanonicalJson.Escaped(s);
    EscapedEnd(s);
    StripQuotes(e);
    assert CanonicalJson.Quote(s) == "\"" + (e + "\"");
  }

  lemma StripQuotes(e: string)
    requires e != "" && e[0] != '"'
    requires e[|e| - 1] == '"' ==> |e| >= 2 && e[|e| - 2] != '"'
    ensures ReadBack("\"" + (e + "\"")) == if e[|e| - 1] == '"' then e[..|e| - 1] else e
  {
    var tail := e + "\"";
    var blob := "\"" + tail;
    assert blob[1..] == tail && tail[0] == e[0];
    assert DropLeadingQuotes(tail) == tail;
    assert DropLeadingQuotes(blob) == tail;
    assert tail[..|tail| - 1] == e && tail[|tail| - 1] == '"';
    assert DropTrailingQuotes(tail) == DropTrailingQuotes(e);
    if e[|e| - 1] == '"' {
      var t := e[..|e| - 1];
      assert t[|t| - 1] == e[|e| - 2];
      assert DropTrailingQuotes(t) == t;
    }
  }

  /** An expansion reads back as it was merged exactly when the encoder escaped nothing in it. */
  lemma ReadsBackIffNothingEscaped(s: string)
    requires s != ""
    ensures ReadBack(CanonicalJson.Quote(s)) == s <==> forall i :: 0 <= i < |s| ==> Unescaped(s[i])
  {
    var e := CanonicalJson.Escaped(s);
    QuotesStripped(s);
    EscapedEnd(s);
    EscapedLength(s);
    if e[|e| - 1] == '"' {
      assert !Unescaped(s[|s| - 1]);
      var t := e[..|e| - 1];
      assert t[|t| - 1] == '\\' && s[|s| - 1] == '"';
    }
  }

  // ---------------------------------------------------------------------------
  // What one offered pair does
  // ---------------------------------------------------------------------------

  /** What trimming removes. */
  lemma SpacesAre(c: char)
    ensures IsSpace(c) <==>
            c in "\t\n\U{0B}\U{0C}\r \U{85}\U{A0}\U{1680}\U{2000}\U{2001}\U{2002}\U{2003}\U{2004}\U{2005}\U{2006}"
            || c in "\U{2007}\U{2008}\U{2009}\U{200A}\U{2028}\U{2029}\U{202F}\U{205F}\U{3000}"
  {
  }

  lemma {:induction false} TrimLeftCuts(s: string) returns (n: nat)
    ensures n <= |s| && TrimLeft(s) == s[n..] && forall i :: 0 <= i < n ==> IsSpace(s[i])
  {
    n := 0;
    if s != "" && IsSpace(s[0]) {
      var k := TrimLeftCuts(s[1..]);
      n := k + 1;
      assert s[1..][k..] == s[n..];
      forall i | 0 <= i < n ensures IsSpace(s[i]) {
        assert i > 0 ==> s[1..][i - 1] == s[i];
      }
    }
  }

  lemma {:induction false} TrimRightCuts(s: string) returns (n: nat)
    ensures n <= |s| && TrimRight(s) == s[..n] && forall i :: n <= i < |s| ==> IsSpace(s[i])
    ensures n > 0 ==> !IsSpace(s[n - 1])
    decreases |s|
  {
    n := |s|;
    if s != "" && IsSpace(s[|s| - 1]) {
      n := TrimRightCuts(s[..|s| - 1]);
      assert s[..|s| - 1][..n] == s[..n];
    } else {
      assert s[..|s|] == s;
    }
  }

  /** Trimming cuts the spaces from both ends and nothing else. */
  lemma TrimCutsSpaces(s: string) returns (i: nat, j: nat)
    ensures i <= j <= |s| && TrimSpace(s) == s[i..j]
    ensures forall k :: 0 <= k < i || j <= k < |s| ==> IsSpace(s[k])
    ensures i < j ==> !IsSpace(s[i]) && !IsSpace(s[j - 1])
  {
    i := TrimLeftCuts(s);
    var t := TrimLeft(s);
    var n := TrimRightCuts(t);
    j := i + n;
    assert t[..n] == s[i..j];
    TrimLeftStops(s);
    forall k | j <= k < |s| ensures IsSpace(s[k]) {
      assert t[k - i] == s[k];
    }
    if i < j {
      assert t[0] == s[i] && t[n - 1] == s[j - 1];
    }
  }

  /** A pair is stored exactly when its trimmed abbreviation has 2 to 16 characters and none of the
      four separators, its trimmed expansion has at most 200, is longer in bytes and not the same but
      for case, the listing does not show the abbreviation and shows fewer than 500; it is stored under
      scope, project and abbreviation as a JSON string. */
  lemma StoredIff(rows: Rows, project: string, listing: Rows, pair: (string, string), fold: EqualFold)
    ensures var a, e := TrimSpace(pair.0), TrimSpace(pair.1);
      var m := Merged(rows, Call(project, [pair], listing), fold);
      if && 2 <= |a| <= 16 && ':' !in a && ' ' !in a && '\t' !in a && '\n' !in a
         && e != "" && |e| <= 200 && ByteLength(e) > ByteLength(a) && !fold(a, e)
         && EntryKey(project, a) !in listing && |Abbrevs(listing, project)| < 500
      then m.added == 1 && m.rows == rows[KeyValue.Key("abbreviations", project, a) := CanonicalJson.Quote(e)]
      else m.added == 0 && m.rows == rows
  {
    var a, start := TrimSpace(pair.0), Merge(rows, Abbrevs(listing, project), 0);
    TrimIsStable(pair.0);
    TrimIsStable(pair.1);
    SeparatorsAre(a);
    if a != "" {
      ListedAbbrev(listing, project, a);
    }
    var order := [pair];
    assert order[..0] == [];
    assert MergeAll(start, project, order, fold) == MergeOne(start, project, pair, fold);
  }

  lemma SeparatorsAre(a: string)
    ensures ContainsAny(a, ": \t\n") <==> ':' in a || ' ' in a || '\t' in a || '\n' in a
  {
    forall c | c in a && c in ": \t\n" ensures ContainsAny(a, ": \t\n") {
      var i :| 0 <= i < |a| && a[i] == c;
    }
  }

  /** Lengths in bytes are those of UTF-8. */
  lemma {:induction false} ByteLengthAdds(s: string, t: string)
    ensures ByteLength(s + t) == ByteLength(s) + ByteLength(t)
    ensures |t| == 1 ==>
      var c := t[0] as int;
      ByteLength(t) == if c <= 0x7F then 1 else if c <= 0x7FF then 2 else if c <= 0xFFFF then 3 else 4
  {
    if s == "" {
      assert s + t == t;
    } else {
      assert (s + t)[1..] == s[1..] + t;
      ByteLengthAdds(s[1..], t);
    }
    if |t| == 1 {
      assert t[1..] == "";
    }
  }

  /** The glossary read from a listing: the abbreviations of its rows under the project's prefix, with
      their values as read back. */
  lemma GlossaryInFields(listing: Rows, project: string, out: Rows, a: string)
    requires IsGlossary(listing, project, out) && project != "" && a != ""
    ensures var key := "abbreviations:" + project + ":" + a;
      (a in out <==> key in listing) && (a in out ==> out[a] == ReadBack(listing[key]))
  {
    ListedAbbrev(listing, project, a);
    EntryKeyShape(project, a);
    var key := "abbreviations:" + project + ":" + a;
    assert EntryKey(project, a) == key;
    assert AbbrevFromKey(Prefix(project), Prefix(project) + a) == a;
  }
}

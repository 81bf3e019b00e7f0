/**
 Name-based entity deduplication: the capped Levenshtein table and its caller.

 The reference notion of distance is the length of a shortest chain of single-byte
 edits (`Chain`).  The classic recurrence `Lev` is shown to be that minimum and a
 metric; the in-place table is shown to compute `Lev`.
 */
module EditDistance {
  import opened Common

  function Last(a: Bytes): byte
    requires a != []
  {
    a[|a| - 1]
  }

  function Init(a: Bytes): (r: Bytes)
    requires a != []
    ensures |r| == |a| - 1
  {
    a[..|a| - 1]
  }

  // ---------------------------------------------------------------------------
  // Reference definition: chains of single-byte edits
  // ---------------------------------------------------------------------------

  /** `b` is `a` with one byte inserted at position `i`. */
  predicate InsertedAt(a: Bytes, b: Bytes, i: nat) {
    i <= |a| && |b| == |a| + 1 && b[..i] == a[..i] && b[i + 1..] == a[i..]
  }

  /** `b` is `a` with the byte at position `i` replaced. */
  predicate SubstitutedAt(a: Bytes, b: Bytes, i: nat) {
    i < |a| && |b| == |a| && b[..i] == a[..i] && b[i + 1..] == a[i + 1..]
  }

  /** One insertion, one deletion or one substitution. */
  ghost predicate OneEdit(a: Bytes, b: Bytes) {
    || (exists i: nat :: InsertedAt(a, b, i))
    || (exists i: nat :: InsertedAt(b, a, i))
    || (exists i: nat :: SubstitutedAt(a, b, i))
  }

  /** A script: every string of `c` is one edit away from the one before it. */
  ghost predicate Chain(c: seq<Bytes>, a: Bytes, b: Bytes) {
    && |c| > 0 && c[0] == a && c[|c| - 1] == b
    && forall i :: 0 < i < |c| ==> OneEdit(c[i - 1], c[i])
  }

  /** `n` edits are enough and no script is shorter. */
  ghost predicate IsShortestScript(a: Bytes, b: Bytes, n: nat) {
    && (exists c :: Chain(c, a, b) && |c| == n + 1)
    && (forall c :: Chain(c, a, b) ==> n + 1 <= |c|)
  }

  // ---------------------------------------------------------------------------
  // The recurrence
  // ---------------------------------------------------------------------------

  function Min3(a: int, b: int, c: int): (r: int)
    ensures r <= a && r <= b && r <= c && (r == a || r == b || r == c)
  {
    if a < b then (if a < c then a else c) else if b < c then b else c
  }

  function Cost(x: byte, y: byte): nat {
    if x == y then 0 else 1
  }

  function Lev(a: Bytes, b: Bytes): nat
    decreases |a| + |b|
  {
    if a == [] then |b|
    else if b == [] then |a|
    else Min3(Lev(Init(a), b) + 1, Lev(a, Init(b)) + 1, Lev(Init(a), Init(b)) + Cost(Last(a), Last(b)))
  }

  // --- metric laws -----------------------------------------------------------

  lemma {:induction false} LevSymmetric(a: Bytes, b: Bytes)
    ensures Lev(a, b) == Lev(b, a)
    decreases |a| + |b|
  {
    if a != [] && b != [] {
      LevSymmetric(Init(a), b);
      LevSymmetric(a, Init(b));
      LevSymmetric(Init(a), Init(b));
    }
  }

  lemma {:induction false} LevZero(a: Bytes, b: Bytes)
    ensures Lev(a, b) == 0 <==> a == b
    decreases |a| + |b|
  {
    if a != [] && b != [] {
      LevZero(Init(a), Init(b));
      assert a == Init(a) + [Last(a)] && b == Init(b) + [Last(b)];
    }
  }

  /** Dropping the last byte of either side changes the distance by at most one. */
  lemma {:induction false} LevDrop(a: Bytes, b: Bytes)
    ensures a != [] ==> Lev(a, b) <= Lev(Init(a), b) + 1
    ensures b != [] ==> Lev(a, b) <= Lev(a, Init(b)) + 1
    ensures a != [] && b != [] ==> Lev(a, b) <= Lev(Init(a), Init(b)) + Cost(Last(a), Last(b))
  {
  }

  lemma {:induction false} LevTriangle(a: Bytes, b: Bytes, c: Bytes)
    ensures Lev(a, c) <= Lev(a, b) + Lev(b, c)
    decreases |a| + |b| + |c|
  {
    LevDrop(a, c);
    if a == [] {
      LevBounds(b, c);
    } else if b == [] {
      LevBounds(a, c);
    } else if c == [] {
      LevBounds(a, b);
    } else {
      LevTriangle(Init(a), b, c);
      LevTriangle(a, b, Init(c));
      LevTriangle(a, Init(b), c);
      LevTriangle(a, Init(b), Init(c));
      LevTriangle(Init(a), Init(b), c);
      LevTriangle(Init(a), Init(b), Init(c));
    }
  }

  lemma {:induction false} LevBounds(a: Bytes, b: Bytes)
    ensures |a| - |b| <= Lev(a, b) && |b| - |a| <= Lev(a, b)
    ensures Lev(a, b) <= |a| || Lev(a, b) <= |b|
    decreases |a| + |b|
  {
    if a != [] && b != [] {
      LevBounds(Init(a), b);
      LevBounds(a, Init(b));
      LevBounds(Init(a), Init(b));
    }
  }

  // --- the recurrence is the shortest script -----------------------------------

  lemma {:induction false} LevCommonSuffix(u: Bytes, v: Bytes, s: Bytes)
    ensures Lev(u + s, v + s) <= Lev(u, v)
    decreases |s|
  {
    if s == [] {
      assert u + s == u && v + s == v;
    } else {
      LevCommonSuffix(u, v, Init(s));
      assert Init(u + s) == u + Init(s) && Init(v + s) == v + Init(s);
      LevDrop(u + s, v + s);
    }
  }

  lemma {:induction false} LevInserted(a: Bytes, b: Bytes, i: nat)
    requires InsertedAt(a, b, i)
    ensures Lev(a, b) <= 1
  {
    var p, s := a[..i], a[i..];
    assert a == p + s && b == (p + [b[i]]) + s;
    LevCommonSuffix(p, p + [b[i]], s);
    LevDrop(p, p + [b[i]]);
    LevZero(p, p);
    assert Init(p + [b[i]]) == p;
  }

  lemma {:induction false} LevOneEdit(a: Bytes, b: Bytes)
    requires OneEdit(a, b)
    ensures Lev(a, b) <= 1
  {
    if i: nat :| InsertedAt(a, b, i) {
      LevInserted(a, b, i);
    } else if i: nat :| InsertedAt(b, a, i) {
      LevInserted(b, a, i);
      LevSymmetric(a, b);
    } else {
      var i: nat :| SubstitutedAt(a, b, i);
      var p, s := a[..i], a[i + 1..];
      assert a == (p + [a[i]]) + s && b == (p + [b[i]]) + s;
      LevCommonSuffix(p + [a[i]], p + [b[i]], s);
      LevDrop(p + [a[i]], p + [b[i]]);
      LevZero(p, p);
      assert Init(p + [a[i]]) == p && Init(p + [b[i]]) == p;
    }
  }

  lemma {:induction false} ScriptsAreNoShorter(c: seq<Bytes>, a: Bytes, b: Bytes)
    requires Chain(c, a, b)
    ensures Lev(a, b) + 1 <= |c|
    decreases |c|
  {
    if |c| == 1 {
      LevZero(a, b);
    } else {
      ScriptsAreNoShorter(c[1..], c[1], b);
      LevOneEdit(a, c[1]);
      LevTriangle(a, c[1], b);
    }
  }

  lemma InsertLast(a: Bytes, x: byte)
    ensures OneEdit(a, a + [x]) && OneEdit(a + [x], a)
  {
    assert InsertedAt(a, a + [x], |a|);
  }

  lemma SubstituteLast(a: Bytes, x: byte, y: byte)
    ensures OneEdit(a + [x], a + [y])
  {
    assert SubstitutedAt(a + [x], a + [y], |a|);
  }

  lemma OneEditExtends(a: Bytes, b: Bytes, x: byte)
    requires OneEdit(a, b)
    ensures OneEdit(a + [x], b + [x])
  {
    if i: nat :| InsertedAt(a, b, i) {
      InsertedExtends(a, b, i, x);
    } else if i: nat :| InsertedAt(b, a, i) {
      InsertedExtends(b, a, i, x);
    } else {
      var i: nat :| SubstitutedAt(a, b, i);
      assert (a + [x])[i + 1..] == a[i + 1..] + [x] && (b + [x])[i + 1..] == b[i + 1..] + [x];
      assert (a + [x])[..i] == a[..i] && (b + [x])[..i] == b[..i];
      assert SubstitutedAt(a + [x], b + [x], i);
    }
  }

  lemma InsertedExtends(a: Bytes, b: Bytes, i: nat, x: byte)
    requires InsertedAt(a, b, i)
    ensures InsertedAt(a + [x], b + [x], i)
  {
    assert (a + [x])[i..] == a[i..] + [x] && (b + [x])[i + 1..] == b[i + 1..] + [x];
    assert (a + [x])[..i] == a[..i] && (b + [x])[..i] == b[..i];
  }

  /** Appending the same byte to every string of a script gives a script. */
  lemma ChainExtends(c: seq<Bytes>, a: Bytes, b: Bytes, x: byte) returns (d: seq<Bytes>)
    requires Chain(c, a, b)
    ensures Chain(d, a + [x], b + [x]) && |d| == |c|
  {
    d := seq(|c|, i requires 0 <= i < |c| => c[i] + [x]);
    forall i | 0 < i < |d| ensures OneEdit(d[i - 1], d[i]) {
      OneEditExtends(c[i - 1], c[i], x);
    }
  }

  lemma ChainPrepend(c: seq<Bytes>, z: Bytes, a: Bytes, b: Bytes)
    requires Chain(c, a, b) && OneEdit(z, a)
    ensures Chain([z] + c, z, b)
  {
    var d := [z] + c;
    forall i | 0 < i < |d| ensures OneEdit(d[i - 1], d[i]) {
      if i > 1 {
        assert OneEdit(c[i - 2], c[i - 1]);
      }
    }
  }

  lemma ChainAppend(c: seq<Bytes>, a: Bytes, b: Bytes, z: Bytes)
    requires Chain(c, a, b) && OneEdit(b, z)
    ensures Chain(c + [z], a, z)
  {
  }

  lemma {:induction false} ScriptExists(a: Bytes, b: Bytes) returns (c: seq<Bytes>)
    ensures Chain(c, a, b) && |c| == Lev(a, b) + 1
    decreases |a| + |b|
  {
    if a == [] && b == [] {
      c := [a];
    } else if b == [] || (a != [] && Lev(a, b) == Lev(Init(a), b) + 1) {
      c := ScriptExists(Init(a), b);
      InsertLast(Init(a), Last(a));
      assert a == Init(a) + [Last(a)];
      ChainPrepend(c, a, Init(a), b);
      c := [a] + c;
    } else if a == [] || Lev(a, b) == Lev(a, Init(b)) + 1 {
      c := ScriptExists(a, Init(b));
      InsertLast(Init(b), Last(b));
      assert b == Init(b) + [Last(b)];
      ChainAppend(c, a, Init(b), b);
      c := c + [b];
    } else {
      c := ScriptExists(Init(a), Init(b));
      c := ScriptExtended(c, a, b);
    }
  }

  lemma ScriptExtended(c: seq<Bytes>, a: Bytes, b: Bytes) returns (d: seq<Bytes>)
    requires a != [] && b != [] && Chain(c, Init(a), Init(b))
    ensures Chain(d, a, b) && |d| == |c| + Cost(Last(a), Last(b))
  {
    d := ChainExtends(c, Init(a), Init(b), Last(a));
    assert a == Init(a) + [Last(a)] && b == Init(b) + [Last(b)];
    if Last(a) != Last(b) {
      SubstituteLast(Init(b), Last(a), Last(b));
      ChainAppend(d, a, Init(b) + [Last(a)], b);
      d := d + [b];
    }
  }

  /** The recurrence is exactly the length of a shortest edit script. */
  lemma LevIsShortestScript(a: Bytes, b: Bytes, n: nat)
    ensures IsShortestScript(a, b, n) <==> n == Lev(a, b)
  {
    var s := ScriptExists(a, b);
    forall c | Chain(c, a, b) ensures Lev(a, b) + 1 <= |c| {
      ScriptsAreNoShorter(c, a, b);
    }
  }

  // ---------------------------------------------------------------------------
  // The table
  // ---------------------------------------------------------------------------

  const MAX_COMPARED := 20

  /** What a caller sees: the distance for short names, the constant 3 otherwise. */
  function CappedDistance(a: Bytes, b: Bytes): nat {
    if a == b then 0
    else if |a| > MAX_COMPARED || |b| > MAX_COMPARED then 3
    else Lev(a, b)
  }

  /** What cell (`i`, `j`) of the table is meant to hold. */
  ghost function CellValue(a: Bytes, b: Bytes, i: nat, j: nat): (r: nat)
    requires i <= |a| && j <= |b|
    ensures i == 0 ==> r == j
    ensures j == 0 ==> r == i
  {
    Lev(a[..i], b[..j])
  }

  lemma CellStep(a: Bytes, b: Bytes, i: nat, j: nat)
    requires 0 < i <= |a| && 0 < j <= |b|
    ensures CellValue(a, b, i, j) == Min3(CellValue(a, b, i - 1, j) + 1, CellValue(a, b, i, j - 1) + 1,
                                          CellValue(a, b, i - 1, j - 1) + Cost(a[i - 1], b[j - 1]))
  {
    assert Init(a[..i]) == a[..i - 1] && Init(b[..j]) == b[..j - 1];
  }

  method Levenshtein(a: Bytes, b: Bytes) returns (r: nat)
    ensures |a| <= 20 && |b| <= 20 ==> IsShortestScript(a, b, r)
    ensures |a| > 20 || |b| > 20 ==> r == if a == b then 0 else 3
    ensures r == CappedDistance(a, b)
  {
    LevIsShortestScript(a, b, Lev(a, b));
    LevZero(a, b);
    if a == b {
      return 0;
    }
    if |a| > MAX_COMPARED || |b| > MAX_COMPARED {
      return 3;
    }
    r := FillTable(a, b);
  }

  method FillTable(a: Bytes, b: Bytes) returns (r: nat)
    ensures r == Lev(a, b)
  {
    var la, lb := |a|, |b|;
    var d := new nat[la + 1, lb + 1];
    for i := 0 to la + 1
      invariant forall k :: 0 <= k < i ==> d[k, 0] == k
    {
      d[i, 0] := i;
    }
    for j := 0 to lb + 1
      invariant forall k :: 0 <= k <= la ==> d[k, 0] == k
      invariant forall k :: 0 <= k < j ==> d[0, k] == k
    {
      d[0, j] := j;
    }
    for i := 1 to la + 1
      invariant forall k :: 0 <= k <= la ==> d[k, 0] == k
      invariant forall k, l :: k == i - 1 && 0 <= l <= lb ==> d[k, l] == CellValue(a, b, k, l)
    {
      for j := 1 to lb + 1
        invariant forall k :: 0 <= k <= la ==> d[k, 0] == k
        invariant forall k, l :: k == i - 1 && 0 <= l <= lb ==> d[k, l] == CellValue(a, b, k, l)
        invariant forall l :: 0 <= l < j ==> d[i, l] == CellValue(a, b, i, l)
      {
        var cost := 1;
        if a[i - 1] == b[j - 1] {
          cost := 0;
        }
        CellStep(a, b, i, j);
        d[i, j] := Min3(d[i - 1, j] + 1, d[i, j - 1] + 1, d[i - 1, j - 1] + cost);
      }
    }
    assert a[..la] == a && b[..lb] == b;
    r := d[la, lb];
  }

  // ---------------------------------------------------------------------------
  // The duplicate check
  // ---------------------------------------------------------------------------

  predicate Fuzzy(dist: nat) {
    dist <= 2 && dist > 0
  }

  /** The shortcut value never causes a flag: a flagged pair really is one or two edits
      apart, and a pair one or two edits apart is flagged exactly when both names are short. */
  lemma FlaggedIffCloseAndShort(a: Bytes, b: Bytes)
    ensures Fuzzy(CappedDistance(a, b)) <==>
            (|a| <= 20 && |b| <= 20 &&
             (IsShortestScript(a, b, 1) || IsShortestScript(a, b, 2)))
  {
    LevIsShortestScript(a, b, 1);
    LevIsShortestScript(a, b, 2);
    LevZero(a, b);
  }

  /** What the table holds for a pair of similarly named entities. */
  datatype SameAs = SameAs(confidence: real, matchType: string, status: string)
  type SameAsTable = map<(string, string), SameAs>

  function Greatest(x: real, y: real): real {
    if x < y then y else x
  }

  /** Insert as pending; on conflict raise the confidence and overwrite the match type only. */
  function Upsert(t: SameAsTable, source: string, target: string, confidence: real, matchType: string): SameAsTable {
    var k := (source, target);
    if k in t then t[k := SameAs(Greatest(t[k].confidence, confidence), matchType, t[k].status)]
    else t[k := SameAs(confidence, matchType, "pending")]
  }

  datatype Candidate = Candidate(id: string, name: Bytes)

  function FuzzyConfidence(dist: nat): real {
    1.0 - dist as real * 0.1
  }

  predicate Flagged(name: Bytes, c: Candidate, lower: Bytes -> Bytes) {
    Fuzzy(CappedDistance(lower(name), lower(c.name)))
  }

  /** The pairs one check writes, in order: exact rows, then flagged fuzzy rows. */
  datatype Flag = Flag(target: string, confidence: real, matchType: string)

  function ExactFlags(exact: seq<string>): seq<Flag> {
    seq(|exact|, i requires 0 <= i < |exact| => Flag(exact[i], 0.98, "exact"))
  }

  function FuzzyFlags(name: Bytes, rows: seq<Candidate>, lower: Bytes -> Bytes): seq<Flag> {
    if rows == [] then []
    else
      FuzzyFlags(name, rows[..|rows| - 1], lower) + FuzzyFlag(name, rows[|rows| - 1], lower)
  }

  function Flags(name: Bytes, exact: seq<string>, rows: seq<Candidate>, lower: Bytes -> Bytes): seq<Flag> {
    ExactFlags(exact) + if |name| >= 3 then FuzzyFlags(name, rows, lower) else []
  }

  function Record(t: SameAsTable, source: string, flags: seq<Flag>): SameAsTable {
    if flags == [] then t
    else
      var f := flags[|flags| - 1];
      Upsert(Record(t, source, flags[..|flags| - 1]), source, f.target, f.confidence, f.matchType)
  }

  lemma RecordAppend(t: SameAsTable, source: string, flags: seq<Flag>, f: Flag)
    ensures Record(t, source, flags + [f])
         == Upsert(Record(t, source, flags), source, f.target, f.confidence, f.matchType)
  {
    assert (flags + [f])[..|flags|] == flags;
  }

  lemma ExactFlagsStep(exact: seq<string>, i: nat)
    requires i < |exact|
    ensures ExactFlags(exact[..i + 1]) == ExactFlags(exact[..i]) + [Flag(exact[i], 0.98, "exact")]
  {
  }

  /** The flag, if any, that one fuzzy candidate adds. */
  function FuzzyFlag(name: Bytes, c: Candidate, lower: Bytes -> Bytes): seq<Flag> {
    if Flagged(name, c, lower)
    then [Flag(c.id, FuzzyConfidence(CappedDistance(lower(name), lower(c.name))), "fuzzy")]
    else []
  }

  lemma FuzzyFlagsStep(name: Bytes, rows: seq<Candidate>, i: nat, lower: Bytes -> Bytes)
    requires i < |rows|
    ensures FuzzyFlags(name, rows[..i + 1], lower)
         == FuzzyFlags(name, rows[..i], lower) + FuzzyFlag(name, rows[i], lower)
    ensures |FuzzyFlags(name, rows[..i + 1], lower)|
         == |FuzzyFlags(name, rows[..i], lower)| + |FuzzyFlag(name, rows[i], lower)|
  {
    assert rows[..i + 1][..i] == rows[..i];
  }

  lemma RecordFuzzy(t: SameAsTable, source: string, flags: seq<Flag>, name: Bytes, c: Candidate,
                    lower: Bytes -> Bytes)
    ensures var dist := CappedDistance(lower(name), lower(c.name));
      Record(t, source, flags + FuzzyFlag(name, c, lower))
      == if Fuzzy(dist) then Upsert(Record(t, source, flags), source, c.id, FuzzyConfidence(dist), "fuzzy")
         else Record(t, source, flags)
  {
    var dist := CappedDistance(lower(name), lower(c.name));
    RecordAppend(t, source, flags, Flag(c.id, FuzzyConfidence(dist), "fuzzy"));
    assert flags + [] == flags;
  }

  method NameDistance(name: Bytes, other: Bytes, lower: Bytes -> Bytes) returns (dist: nat)
    ensures dist == CappedDistance(lower(name), lower(other))
  {
    dist := Levenshtein(lower(name), lower(other));
  }

  /** The similar-name table of the store. */
  class Store {
    var sameAs: SameAsTable

    constructor ()
      ensures sameAs == map[]
    {
      sameAs := map[];
    }

    method UpsertSameAs(source: string, target: string, confidence: real, matchType: string)
      modifies this
      ensures (source, target) !in old(sameAs) ==>
        sameAs == old(sameAs)[(source, target) := SameAs(confidence, matchType, "pending")]
      ensures (source, target) in old(sameAs) ==>
        var row := old(sameAs)[(source, target)];
        var most := if confidence > row.confidence then confidence else row.confidence;
        sameAs == old(sameAs)[(source, target) := SameAs(most, matchType, row.status)]
      ensures sameAs == Upsert(old(sameAs), source, target, confidence, matchType)
    {
      var k := (source, target);
      if k in sameAs {
        var row := sameAs[k];
        sameAs := sameAs[k := row.(confidence := Greatest(row.confidence, confidence), matchType := matchType)];
      } else {
        sameAs := sameAs[k := SameAs(confidence, matchType, "pending")];
      }
    }

    /** `exact` and `rows` are the answers of the two candidate queries, in the order they
        arrive; `lower` stands for the library's lower-casing. */
    method CheckAndFlagDuplicates(entityId: string, name: Bytes, exact: seq<string>, rows: seq<Candidate>,
                                  lower: Bytes -> Bytes) returns (count: nat)
      modifies this
      ensures sameAs == Record(old(sameAs), entityId, Flags(name, exact, rows, lower))
      ensures count == |Flags(name, exact, rows, lower)|
    {
      FlagExact(entityId, exact);
      count := |exact|;
      if |name| >= 3 {
        ghost var prior := ExactFlags(exact);
        var more := FlagFuzzy(entityId, name, rows, lower, old(sameAs), prior);
        count := count + more;
      } else {
        assert ExactFlags(exact) + [] == ExactFlags(exact);
      }
    }

    method FlagExact(entityId: string, exact: seq<string>)
      modifies this
      ensures sameAs == Record(old(sameAs), entityId, ExactFlags(exact))
    {
      ghost var before := sameAs;
      for i := 0 to |exact|
        invariant sameAs == Record(before, entityId, ExactFlags(exact[..i]))
      {
        ExactFlagsStep(exact, i);
        RecordAppend(before, entityId, ExactFlags(exact[..i]), Flag(exact[i], 0.98, "exact"));
        UpsertSameAs(entityId, exact[i], 0.98, "exact");
      }
      assert exact[..|exact|] == exact;
    }

    method FlagFuzzy(entityId: string, name: Bytes, rows: seq<Candidate>, lower: Bytes -> Bytes,
                     ghost before: SameAsTable, ghost prior: seq<Flag>) returns (count: nat)
      requires sameAs == Record(before, entityId, prior)
      modifies this
      ensures sameAs == Record(before, entityId, prior + FuzzyFlags(name, rows, lower))
      ensures count == |FuzzyFlags(name, rows, lower)|
    {
      count := 0;
      ghost var written := prior;
      for i := 0 to |rows|
        invariant count == |FuzzyFlags(name, rows[..i], lower)|
        invariant written == prior + FuzzyFlags(name, rows[..i], lower)
        invariant sameAs == Record(before, entityId, written)
      {
        FuzzyFlagsStep(name, rows, i, lower);
        var flagged := FlagOne(entityId, name, rows[i], lower, before, written);
        written := written + FuzzyFlag(name, rows[i], lower);
        if flagged {
          count := count + 1;
        }
      }
      assert rows[..|rows|] == rows;
    }

    method FlagOne(entityId: string, name: Bytes, c: Candidate, lower: Bytes -> Bytes,
                   ghost before: SameAsTable, ghost written: seq<Flag>) returns (flagged: bool)
      requires sameAs == Record(before, entityId, written)
      modifies this
      ensures sameAs == Record(before, entityId, written + FuzzyFlag(name, c, lower))
      ensures |FuzzyFlag(name, c, lower)| == if flagged then 1 else 0
    {
      RecordFuzzy(before, entityId, written, name, c, lower);
      var dist := NameDistance(name, c.name, lower);
      flagged := dist <= 2 && dist > 0;
      if flagged {
        UpsertSameAs(entityId, c.id, 1.0 - dist as real * 0.1, "fuzzy");
      }
    }
  }

  ghost predicate PairFlagged(source: string, flags: seq<Flag>, k: (string, string)) {
    exists f :: f in flags && k == (source, f.target)
  }

  /** `r` is `t` with exactly the flagged pairs added, as pending: a pair already in the table
      keeps its status and never loses confidence, and pairs not flagged are untouched. */
  ghost predicate KeepsReviews(t: SameAsTable, source: string, flags: seq<Flag>, r: SameAsTable) {
    && (forall k :: k in r <==> k in t || PairFlagged(source, flags, k))
    && (forall k :: k in t ==> r[k].status == t[k].status && r[k].confidence >= t[k].confidence)
    && (forall f :: f in flags ==> (source, f.target) in r && r[(source, f.target)].confidence >= f.confidence)
    && (forall k :: k in r && k !in t ==> r[k].status == "pending")
    && (forall k :: k in t && !PairFlagged(source, flags, k) ==> r[k] == t[k])
  }

  lemma PairFlaggedAppend(source: string, flags: seq<Flag>, f: Flag, k: (string, string))
    ensures PairFlagged(source, flags + [f], k) <==> PairFlagged(source, flags, k) || k == (source, f.target)
  {
    if k == (source, f.target) {
      assert f in flags + [f];
    }
    if g :| g in flags && k == (source, g.target) {
      assert g in flags + [f];
    }
  }

  lemma UpsertKeepsReviews(t: SameAsTable, source: string, flags: seq<Flag>, r: SameAsTable, f: Flag)
    requires KeepsReviews(t, source, flags, r)
    ensures KeepsReviews(t, source, flags + [f], Upsert(r, source, f.target, f.confidence, f.matchType))
  {
    var r' := Upsert(r, source, f.target, f.confidence, f.matchType);
    forall k ensures PairFlagged(source, flags + [f], k) <==> PairFlagged(source, flags, k) || k == (source, f.target) {
      PairFlaggedAppend(source, flags, f, k);
    }
    forall g | g in flags ensures (source, g.target) in r {
      assert PairFlagged(source, flags, (source, g.target));
    }
    forall g | g in flags + [f] ensures (source, g.target) in r' && r'[(source, g.target)].confidence >= g.confidence {
      assert g in flags || g == f;
    }
  }

  /** What a whole check leaves in the table. */
  lemma {:induction false} RecordKeepsReviews(t: SameAsTable, source: string, flags: seq<Flag>)
    ensures KeepsReviews(t, source, flags, Record(t, source, flags))
  {
    if flags != [] {
      var rest, f := flags[..|flags| - 1], flags[|flags| - 1];
      RecordKeepsReviews(t, source, rest);
      UpsertKeepsReviews(t, source, rest, Record(t, source, rest), f);
      assert flags == rest + [f];
    }
  }

  /** The candidate is flagged with this very flag. */
  ghost predicate Justifies(name: Bytes, c: Candidate, lower: Bytes -> Bytes, f: Flag) {
    && f.target == c.id && f.matchType == "fuzzy"
    && |lower(name)| <= 20 && |lower(c.name)| <= 20
    && ((IsShortestScript(lower(name), lower(c.name), 1) && f.confidence == 0.9) ||
        (IsShortestScript(lower(name), lower(c.name), 2) && f.confidence == 0.8))
  }

  lemma FuzzyFlagIsClosePair(name: Bytes, c: Candidate, lower: Bytes -> Bytes, f: Flag)
    ensures f in FuzzyFlag(name, c, lower) <==> Justifies(name, c, lower, f)
  {
    var a, b := lower(name), lower(c.name);
    FlaggedIffCloseAndShort(a, b);
    LevIsShortestScript(a, b, 1);
    LevIsShortestScript(a, b, 2);
    LevZero(a, b);
  }

  lemma {:induction false} FlagHasCandidate(name: Bytes, rows: seq<Candidate>, lower: Bytes -> Bytes, f: Flag)
    returns (c: Candidate)
    requires f in FuzzyFlags(name, rows, lower)
    ensures c in rows && Justifies(name, c, lower, f)
    decreases |rows|
  {
    c := rows[|rows| - 1];
    if f in FuzzyFlag(name, c, lower) {
      FuzzyFlagIsClosePair(name, c, lower, f);
    } else {
      c := FlagHasCandidate(name, rows[..|rows| - 1], lower, f);
    }
  }

  lemma {:induction false} CandidateIsFlagged(name: Bytes, rows: seq<Candidate>, lower: Bytes -> Bytes, f: Flag,
                                              i: nat)
    requires i < |rows| && Justifies(name, rows[i], lower, f)
    ensures f in FuzzyFlags(name, rows, lower)
    decreases |rows|
  {
    if i == |rows| - 1 {
      FuzzyFlagIsClosePair(name, rows[i], lower, f);
    } else {
      CandidateIsFlagged(name, rows[..|rows| - 1], lower, f, i);
    }
  }

  /** Every fuzzy flag stands for a pair whose lower-cased names are one or two edits apart,
      with confidence 0.9 or 0.8; and every short enough such candidate is flagged. */
  lemma FuzzyFlagsAreClosePairs(name: Bytes, rows: seq<Candidate>, lower: Bytes -> Bytes, f: Flag)
    ensures f in FuzzyFlags(name, rows, lower) <==> exists c :: c in rows && Justifies(name, c, lower, f)
  {
    if f in FuzzyFlags(name, rows, lower) {
      var c := FlagHasCandidate(name, rows, lower, f);
    }
    if i :| 0 <= i < |rows| && Justifies(name, rows[i], lower, f) {
      CandidateIsFlagged(name, rows, lower, f, i);
    }
  }

  /** All that a check flags: every exact row with confidence 0.98 and, for names of at least three
      bytes only, the close candidates. */
  lemma FlagsAre(name: Bytes, exact: seq<string>, rows: seq<Candidate>, lower: Bytes -> Bytes, f: Flag)
    ensures f in Flags(name, exact, rows, lower) <==>
            (f.target in exact && f.confidence == 0.98 && f.matchType == "exact")
            || (|name| >= 3 && exists c :: c in rows && Justifies(name, c, lower, f))
    ensures |name| < 3 ==> |Flags(name, exact, rows, lower)| == |exact|
  {
    FuzzyFlagsAreClosePairs(name, rows, lower, f);
    var flags := ExactFlags(exact);
    assert |flags| == |exact|;
    if f in flags {
      var i :| 0 <= i < |flags| && flags[i] == f;
      assert exact[i] == f.target;
    }
    if f.target in exact && f.confidence == 0.98 && f.matchType == "exact" {
      var i :| 0 <= i < |exact| && exact[i] == f.target;
      assert flags[i] == f;
    }
  }

  /** A pair keeps the match type of the last flag written for it. */
  lemma {:induction false} LastFlagNamesTheType(t: SameAsTable, source: string, flags: seq<Flag>, f: Flag,
                                                more: seq<Flag>)
    requires forall g :: g in more ==> g.target != f.target
    ensures var r := Record(t, source, flags + [f] + more);
            (source, f.target) in r && r[(source, f.target)].matchType == f.matchType
    decreases |more|
  {
    var all := flags + [f] + more;
    if more == [] {
      assert all == flags + [f];
      RecordAppend(t, source, flags, f);
    } else {
      var init, last := more[..|more| - 1], more[|more| - 1];
      assert all == (flags + [f] + init) + [last];
      LastFlagNamesTheType(t, source, flags, f, init);
      RecordAppend(t, source, flags + [f] + init, last);
    }
  }
}

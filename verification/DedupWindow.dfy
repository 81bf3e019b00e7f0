/**
 The rolling deduplication window: per-session buckets of first-seen times, evicted
 lazily inside `Seen` and in bulk by `Sweep`.
 */
module DedupWindow {
  import opened Common

  type Bucket = map<string, int>
  type Sessions = map<string, Bucket>

  const THRESHOLD := 256
  const DEFAULT_DURATION := 300_000_000_000 // five minutes in nanoseconds

  function BucketOf(s: Sessions, session: string): Bucket {
    if session in s then s[session] else map[]
  }

  /** Present and not expired. */
  predicate Fresh(s: Sessions, session: string, key: string, now: int, duration: int) {
    key in BucketOf(s, session) && now - BucketOf(s, session)[key] < duration
  }

  function Kept(b: Bucket, now: int, duration: int): Bucket {
    map k | k in b && now - b[k] < duration :: b[k]
  }

  function Recorded(b: Bucket, key: string, now: int, duration: int): Bucket {
    if |b[key := now]| > THRESHOLD then Kept(b[key := now], now, duration) else b[key := now]
  }

  function SeenNext(s: Sessions, session: string, key: string, now: int, duration: int): Sessions {
    if session == "" || key == "" || Fresh(s, session, key, now, duration) then s
    else s[session := Recorded(BucketOf(s, session), key, now, duration)]
  }

  function SweepNext(s: Sessions, now: int, duration: int): Sessions {
    map session | session in s && Kept(s[session], now, duration) != map[] :: Kept(s[session], now, duration)
  }

  // --- counting entries -------------------------------------------------------

  /** All (session, key) pairs in the window. */
  ghost function Entries(s: Sessions): set<(string, string)> {
    set x, k | x in s && k in s[x] :: (x, k)
  }

  ghost function Pairs(x: string, keys: set<string>): set<(string, string)> {
    set k | k in keys :: (x, k)
  }

  lemma {:induction false} PairsCount(x: string, keys: set<string>)
    ensures |Pairs(x, keys)| == |keys|
    decreases |keys|
  {
    if keys != {} {
      var k :| k in keys;
      PairsCount(x, keys - {k});
      assert Pairs(x, keys) == Pairs(x, keys - {k}) + {(x, k)};
    }
  }

  lemma EntriesSplit(s: Sessions, x: string)
    requires x in s
    ensures |Entries(s)| == |Entries(s - {x})| + |s[x]|
  {
    PairsCount(x, s[x].Keys);
    var a, b := Entries(s - {x}), Pairs(x, s[x].Keys);
    forall e ensures e in Entries(s) <==> e in a || e in b {
      if e.0 != x {
        assert e in Entries(s) <==> e in a;
      }
    }
    assert Entries(s) == a + b;
    assert a !! b;
  }

  /** A session's bucket is replaced, or dropped when nothing is left of it. */
  function Replaced(s: Sessions, x: string, left: Bucket): Sessions {
    if |left| == 0 then s - {x} else s[x := left]
  }

  lemma ReplacedCount(s: Sessions, x: string, left: Bucket)
    requires x in s
    ensures |Entries(Replaced(s, x, left))| == |Entries(s)| - |s[x]| + |left|
  {
    EntriesSplit(s, x);
    if |left| > 0 {
      EntriesSplit(s[x := left], x);
      assert s[x := left] - {x} == s - {x};
    }
  }

  /** Some sessions swept, the others not yet. */
  ghost predicate PartlySwept(before: Sessions, todo: set<string>, s: Sessions, now: int, duration: int) {
    && (forall x :: x in s <==> x in before && (x in todo || Kept(before[x], now, duration) != map[]))
    && (forall x :: x in s ==> s[x] == if x in todo then before[x] else Kept(before[x], now, duration))
  }

  lemma SweepOneMore(before: Sessions, todo: set<string>, s: Sessions, x: string, now: int, duration: int)
    requires PartlySwept(before, todo, s, now, duration) && x in todo && todo <= before.Keys
    ensures x in s && s[x] == before[x]
    ensures PartlySwept(before, todo - {x}, Replaced(s, x, Kept(before[x], now, duration)), now, duration)
  {
  }

  /** What is left of a bucket while the keys `todo` were not looked at yet. */
  function PartlyKept(b: Bucket, todo: set<string>, now: int, duration: int): Bucket {
    map k | k in b && (k in todo || now - b[k] < duration) :: b[k]
  }

  lemma EvictOneMore(b: Bucket, todo: set<string>, k: string, now: int, duration: int)
    requires k in todo && todo <= b.Keys
    ensures var before, after := PartlyKept(b, todo, now, duration), PartlyKept(b, todo - {k}, now, duration);
      if now - b[k] >= duration then after == before - {k} && |after| == |before| - 1 else after == before
  {
    var before, after := PartlyKept(b, todo, now, duration), PartlyKept(b, todo - {k}, now, duration);
    if now - b[k] >= duration {
      assert after == before - {k};
      assert before.Keys == after.Keys + {k};
    } else {
      assert after == before;
    }
  }

  class Window {
    var sessions: Sessions
    const duration: int

    constructor (duration: int)
      ensures sessions == map[] && this.duration > 0
      ensures duration > 0 ==> this.duration == duration
      ensures duration <= 0 ==> this.duration == 300_000_000_000
    {
      sessions := map[];
      this.duration := if duration <= 0 then DEFAULT_DURATION else duration;
    }

    method Seen(session: string, key: string, now: int) returns (dup: bool)
      requires duration > 0
      modifies this
      ensures dup <==> session != "" && key != "" && session in old(sessions) && key in old(sessions)[session]
                       && now - old(sessions)[session][key] < duration
      ensures sessions == SeenNext(old(sessions), session, key, now, duration)
    {
      if session == "" || key == "" {
        return false;
      }
      var bucket: Bucket := map[];
      if session in sessions {
        bucket := sessions[session];
      }
      if key in bucket && now - bucket[key] < duration {
        return true;
      }
      bucket := bucket[key := now];
      if |bucket| > THRESHOLD {
        var n;
        bucket, n := EvictExpired(bucket, now);
        assert key in bucket;
      }
      sessions := sessions[session := bucket];
      dup := false;
    }

    method EvictExpired(bucket: Bucket, now: int) returns (left: Bucket, n: nat)
      ensures forall k :: k in left <==> k in bucket && now - bucket[k] < duration
      ensures forall k :: k in left ==> left[k] == bucket[k]
      ensures left == Kept(bucket, now, duration) && n == |bucket| - |left|
    {
      left, n := bucket, 0;
      var todo := bucket.Keys;
      assert PartlyKept(bucket, bucket.Keys, now, duration) == bucket;
      while todo != {}
        invariant todo <= bucket.Keys && left == PartlyKept(bucket, todo, now, duration)
        invariant n == |bucket| - |left|
        decreases |todo|
      {
        var k :| k in todo;
        EvictOneMore(bucket, todo, k, now, duration);
        if now - bucket[k] >= duration {
          left := left - {k};
          n := n + 1;
        }
        todo := todo - {k};
      }
      assert PartlyKept(bucket, {}, now, duration) == Kept(bucket, now, duration);
    }

    method Sweep(now: int) returns (evicted: nat)
      modifies this
      ensures sessions == SweepNext(old(sessions), now, duration)
      ensures evicted == |Entries(old(sessions))| - |Entries(sessions)|
    {
      evicted := 0;
      ghost var before := sessions;
      var todo := sessions.Keys;
      while todo != {}
        invariant todo <= before.Keys && PartlySwept(before, todo, sessions, now, duration)
        invariant evicted == |Entries(before)| - |Entries(sessions)|
        decreases |todo|
      {
        var x :| x in todo;
        SweepOneMore(before, todo, sessions, x, now, duration);
        var left, n := EvictExpired(sessions[x], now);
        ReplacedCount(sessions, x, left);
        evicted := evicted + n;
        if |left| == 0 {
          sessions := sessions - {x};
        } else {
          sessions := sessions[x := left];
        }
        todo := todo - {x};
      }
      assert sessions == SweepNext(before, now, duration);
    }

    method Size() returns (n: nat)
      ensures n == |Entries(sessions)|
    {
      n := 0;
      var rest := sessions;
      while rest.Keys != {}
        invariant n + |Entries(rest)| == |Entries(sessions)|
        decreases |rest.Keys|
      {
        var x :| x in rest.Keys;
        EntriesSplit(rest, x);
        n := n + |rest[x]|;
        rest := rest - {x};
      }
      assert Entries(rest) == {};
    }
  }

  // ---------------------------------------------------------------------------
  // Runs
  // ---------------------------------------------------------------------------

  /** Calls in the order in which they take the lock. The clock of a sighting was read before,
      so the times of a run need not be in order. */
  datatype Call =
    | Seen(session: string, key: string, now: int)
    | Sweep(now: int)

  type Memory = map<(string, string), int>

  predicate IsSighting(c: Call) {
    c.Seen? && c.session != "" && c.key != ""
  }

  function Next(s: Sessions, c: Call, duration: int): Sessions {
    match c
    case Seen(session, key, now) => SeenNext(s, session, key, now, duration)
    case Sweep(now) => SweepNext(s, now, duration)
  }

  function After(run: seq<Call>, duration: int): Sessions {
    if run == [] then map[] else Next(After(run[..|run| - 1], duration), run[|run| - 1], duration)
  }

  /** What call `i` of the run answers. */
  predicate Answer(run: seq<Call>, i: nat, duration: int)
    requires i < |run|
  {
    IsSighting(run[i]) && Fresh(After(run[..i], duration), run[i].session, run[i].key, run[i].now, duration)
  }

  /** Call `i` records its key. */
  predicate Records(run: seq<Call>, i: nat, duration: int)
    requires i < |run|
  {
    IsSighting(run[i]) && !Answer(run, i, duration)
  }

  // --- the reference: a map that never forgets --------------------------------

  predicate Remembered(m: Memory, session: string, key: string, now: int, duration: int) {
    (session, key) in m && now - m[(session, key)] < duration
  }

  function RememberNext(m: Memory, c: Call, duration: int): Memory {
    if IsSighting(c) && !Remembered(m, c.session, c.key, c.now, duration) then m[(c.session, c.key) := c.now] else m
  }

  function Remember(run: seq<Call>, duration: int): Memory {
    if run == [] then map[] else RememberNext(Remember(run[..|run| - 1], duration), run[|run| - 1], duration)
  }

  /** What the memory would answer to call `i`. */
  predicate MemoryAnswer(run: seq<Call>, i: nat, duration: int)
    requires i < |run|
  {
    IsSighting(run[i]) && Remembered(Remember(run[..i], duration), run[i].session, run[i].key, run[i].now, duration)
  }

  /** The first `j` answers are those of the memory. */
  ghost predicate MatchesUpTo(run: seq<Call>, j: nat, duration: int)
    requires j <= |run|
  {
    forall i :: 0 <= i < j ==> (Answer(run, i, duration) <==> MemoryAnswer(run, i, duration))
  }

  lemma OneMoreCall(run: seq<Call>, j: nat, duration: int)
    requires j < |run|
    ensures After(run[..j + 1], duration) == Next(After(run[..j], duration), run[j], duration)
    ensures Remember(run[..j + 1], duration) == RememberNext(Remember(run[..j], duration), run[j], duration)
  {
    assert run[..j + 1][..j] == run[..j];
  }

  // --- what evictions remove ----------------------------------------------------

  /** Call `e` evicts expired entries of the session. */
  predicate Evicts(run: seq<Call>, e: nat, session: string, duration: int)
    requires e < |run|
  {
    match run[e]
    case Sweep(_) => true
    case Seen(x, key, now) =>
      x == session && Records(run, e, duration)
      && |BucketOf(After(run[..e], duration), session)[key := now]| > THRESHOLD
  }

  /** Call `e` evicts the entry that the memory still has before call `j`. */
  predicate EvictedBy(run: seq<Call>, e: nat, j: nat, session: string, key: string, duration: int)
    requires e < j <= |run|
  {
    var m, now := Remember(run[..e], duration), Remember(run[..j], duration);
    && Evicts(run, e, session, duration)
    && (session, key) in m && (session, key) in now && m[(session, key)] == now[(session, key)]
    && run[e].now - m[(session, key)] >= duration
  }

  ghost predicate Evicted(run: seq<Call>, j: nat, session: string, key: string, duration: int)
    requires j <= |run|
  {
    exists e :: 0 <= e < j && EvictedBy(run, e, j, session, key, duration)
  }

  /** By its own clock call `i` comes within the window of what the memory holds, but a call with
      a later clock that took the lock before it has evicted the entry. */
  ghost predicate Overtaken(run: seq<Call>, i: nat, duration: int)
    requires i < |run|
  {
    MemoryAnswer(run, i, duration) && Evicted(run, i, run[i].session, run[i].key, duration)
  }

  predicate Holds(s: Sessions, session: string, key: string) {
    key in BucketOf(s, session)
  }

  /** The window holds what the memory holds and no call has evicted. */
  ghost predicate HoldsUnevicted(run: seq<Call>, j: nat, session: string, key: string, duration: int)
    requires j <= |run|
  {
    var s, m := After(run[..j], duration), Remember(run[..j], duration);
    && (Holds(s, session, key) <==> (session, key) in m && !Evicted(run, j, session, key, duration))
    && (Holds(s, session, key) ==> BucketOf(s, session)[key] == m[(session, key)])
  }

  /** Times in memory never go back. */
  lemma {:induction false} MemoryAdvances(run: seq<Call>, i: nat, j: nat, session: string, key: string, duration: int)
    requires duration > 0 && i <= j <= |run| && (session, key) in Remember(run[..i], duration)
    ensures (session, key) in Remember(run[..j], duration)
    ensures Remember(run[..i], duration)[(session, key)] <= Remember(run[..j], duration)[(session, key)]
    decreases j
  {
    if i < j {
      MemoryAdvances(run, i, j - 1, session, key, duration);
      OneMoreCall(run, j - 1, duration);
    }
  }

  /** Call `j` makes a new entry in the memory. */
  predicate Renews(run: seq<Call>, j: nat, session: string, key: string, duration: int)
    requires j < |run|
  {
    IsSighting(run[j]) && run[j].session == session && run[j].key == key && !MemoryAnswer(run, j, duration)
  }

  lemma NewEntryIsUnevicted(run: seq<Call>, j: nat, session: string, key: string, duration: int)
    requires duration > 0 && j < |run| && Renews(run, j, session, key, duration)
    ensures !Evicted(run, j + 1, session, key, duration)
  {
    OneMoreCall(run, j, duration);
    var n := j + 1;
    if e :| 0 <= e < n && EvictedBy(run, e, n, session, key, duration) {
      MemoryAdvances(run, e, j, session, key, duration);
    }
  }

  /** Any other entry was evicted if it was before, or if this call evicts it. */
  lemma OneMoreEviction(run: seq<Call>, j: nat, session: string, key: string, duration: int)
    requires j < |run| && (session, key) in Remember(run[..j], duration) && !Renews(run, j, session, key, duration)
    ensures var m, m' := Remember(run[..j], duration), Remember(run[..j + 1], duration);
            (session, key) in m' && m'[(session, key)] == m[(session, key)]
    ensures Evicted(run, j + 1, session, key, duration)
       <==> Evicted(run, j, session, key, duration)
            || (Evicts(run, j, session, duration)
                && run[j].now - Remember(run[..j], duration)[(session, key)] >= duration)
  {
    OneMoreCall(run, j, duration);
    var m := Remember(run[..j], duration);
    if e :| 0 <= e < j && EvictedBy(run, e, j, session, key, duration) {
      assert EvictedBy(run, e, j + 1, session, key, duration);
    }
    var n := j + 1;
    if e :| 0 <= e < n && EvictedBy(run, e, n, session, key, duration) {
      if e < j {
        assert EvictedBy(run, e, j, session, key, duration);
      }
    }
    if Evicts(run, j, session, duration) && run[j].now - m[(session, key)] >= duration {
      assert EvictedBy(run, j, j + 1, session, key, duration);
    }
  }

  /** A call removes from a bucket what it evicts and adds what it records. */
  lemma WindowStep(run: seq<Call>, j: nat, session: string, key: string, duration: int)
    requires duration > 0 && j < |run|
    ensures var s, s' := After(run[..j], duration), After(run[..j + 1], duration);
      var b, b' := BucketOf(s, session), BucketOf(s', session);
      if Records(run, j, duration) && run[j].session == session && run[j].key == key
      then Holds(s', session, key) && b'[key] == run[j].now
      else && (Holds(s', session, key)
               <==> Holds(s, session, key)
                    && !(Evicts(run, j, session, duration) && run[j].now - b[key] >= duration))
           && (Holds(s', session, key) ==> b'[key] == b[key])
  {
    OneMoreCall(run, j, duration);
  }

  lemma HoldsUnevictedNext(run: seq<Call>, j: nat, session: string, key: string, duration: int)
    requires duration > 0 && j < |run| && HoldsUnevicted(run, j, session, key, duration)
    requires Answer(run, j, duration) <==> MemoryAnswer(run, j, duration)
    ensures HoldsUnevicted(run, j + 1, session, key, duration)
  {
    WindowStep(run, j, session, key, duration);
    OneMoreCall(run, j, duration);
    if Renews(run, j, session, key, duration) {
      NewEntryIsUnevicted(run, j, session, key, duration);
    } else if (session, key) in Remember(run[..j], duration) {
      OneMoreEviction(run, j, session, key, duration);
    }
  }

  lemma {:induction false} MatchedHoldsUnevicted(run: seq<Call>, j: nat, session: string, key: string, duration: int)
    requires duration > 0 && j <= |run| && MatchesUpTo(run, j, duration)
    ensures HoldsUnevicted(run, j, session, key, duration)
    decreases j
  {
    if j > 0 {
      MatchedHoldsUnevicted(run, j - 1, session, key, duration);
      HoldsUnevictedNext(run, j - 1, session, key, duration);
    }
  }

  /** The next answer is that of the memory unless the call is overtaken; then it is new though
      the memory remembers. */
  lemma NextAnswer(run: seq<Call>, i: nat, duration: int)
    requires duration > 0 && i < |run| && MatchesUpTo(run, i, duration)
    ensures Overtaken(run, i, duration) <==> MemoryAnswer(run, i, duration) && !Answer(run, i, duration)
    ensures Answer(run, i, duration) ==> MemoryAnswer(run, i, duration)
  {
    if IsSighting(run[i]) {
      MatchedHoldsUnevicted(run, i, run[i].session, run[i].key, duration);
    }
  }

  ghost predicate NoneOvertaken(run: seq<Call>, j: nat, duration: int)
    requires j <= |run|
  {
    forall i :: 0 <= i < j ==> !Overtaken(run, i, duration)
  }

  lemma {:induction false} MatchesIffNoneOvertaken(run: seq<Call>, j: nat, duration: int)
    requires duration > 0 && j <= |run|
    ensures MatchesUpTo(run, j, duration) <==> NoneOvertaken(run, j, duration)
    decreases j
  {
    if j > 0 {
      MatchesIffNoneOvertaken(run, j - 1, duration);
      if MatchesUpTo(run, j - 1, duration) {
        NextAnswer(run, j - 1, duration);
      }
    }
  }

  /** Eviction is invisible, each answer being that of a map that never forgets, exactly when no
      call is overtaken. */
  lemma AnswersMatchMemoryIff(run: seq<Call>, duration: int)
    requires duration > 0
    ensures (forall i :: 0 <= i < |run| ==> (Answer(run, i, duration) <==> MemoryAnswer(run, i, duration)))
       <==> (forall i :: 0 <= i < |run| ==> !Overtaken(run, i, duration))
  {
    MatchesIffNoneOvertaken(run, |run|, duration);
    assert MatchesUpTo(run, |run|, duration) <==> NoneOvertaken(run, |run|, duration);
  }

  // --- accepted sightings -------------------------------------------------------

  /** Two accepted sightings of one key in one session are at least the window apart. */
  ghost predicate SightingsApart(run: seq<Call>, duration: int) {
    forall i, j ::
      (0 <= i < j < |run| && Records(run, i, duration) && Records(run, j, duration)
       && run[i].session == run[j].session && run[i].key == run[j].key) ==>
      run[j].now - run[i].now >= duration
  }

  lemma {:induction false} MemoryWasRenewed(run: seq<Call>, j: nat, session: string, key: string, duration: int)
    returns (i: nat)
    requires j <= |run| && (session, key) in Remember(run[..j], duration)
    ensures i < j && Renews(run, i, session, key, duration)
         && run[i].now == Remember(run[..j], duration)[(session, key)]
    decreases j
  {
    assert j > 0;
    OneMoreCall(run, j - 1, duration);
    if Renews(run, j - 1, session, key, duration) {
      i := j - 1;
    } else {
      assert (session, key) in Remember(run[..j - 1], duration);
      i := MemoryWasRenewed(run, j - 1, session, key, duration);
    }
  }

  lemma MatchedAreApart(run: seq<Call>, i: nat, j: nat, duration: int)
    requires duration > 0 && i < j < |run| && MatchesUpTo(run, |run|, duration)
    requires Records(run, i, duration) && Records(run, j, duration)
    requires run[i].session == run[j].session && run[i].key == run[j].key
    ensures run[j].now - run[i].now >= duration
  {
    OneMoreCall(run, i, duration);
    MemoryAdvances(run, i + 1, j, run[i].session, run[i].key, duration);
  }

  /** The first overtaken call is accepted too soon after another. */
  lemma OvertakenIsTooSoon(run: seq<Call>, j: nat, duration: int)
    requires duration > 0 && j < |run| && MatchesUpTo(run, j, duration) && Overtaken(run, j, duration)
    ensures !SightingsApart(run, duration)
  {
    NextAnswer(run, j, duration);
    var i := MemoryWasRenewed(run, j, run[j].session, run[j].key, duration);
    assert Records(run, i, duration) && Records(run, j, duration);
  }

  lemma {:induction false} FirstOvertaken(run: seq<Call>, n: nat, duration: int) returns (j: nat)
    requires duration > 0 && n <= |run| && !NoneOvertaken(run, n, duration)
    ensures j < n && NoneOvertaken(run, j, duration) && Overtaken(run, j, duration)
  {
    if NoneOvertaken(run, n - 1, duration) {
      j := n - 1;
    } else {
      j := FirstOvertaken(run, n - 1, duration);
    }
  }

  /** Accepted sightings of one key keep their distance in exactly the runs without an overtaken
      call. */
  lemma AcceptedSightingsAreApartIff(run: seq<Call>, duration: int)
    requires duration > 0
    ensures SightingsApart(run, duration) <==> forall i :: 0 <= i < |run| ==> !Overtaken(run, i, duration)
  {
    MatchesIffNoneOvertaken(run, |run|, duration);
    if NoneOvertaken(run, |run|, duration) {
      forall i, j | 0 <= i < j < |run| && Records(run, i, duration) && Records(run, j, duration)
        && run[i].session == run[j].session && run[i].key == run[j].key
        ensures run[j].now - run[i].now >= duration
      {
        MatchedAreApart(run, i, j, duration);
      }
    } else {
      var j := FirstOvertaken(run, |run|, duration);
      MatchesIffNoneOvertaken(run, j, duration);
      OvertakenIsTooSoon(run, j, duration);
    }
  }

  /** As long as no call was overtaken, a sighting is accepted exactly when every accepted one of its
      key in its session is at least the duration back. */
  lemma AcceptedIffApart(run: seq<Call>, j: nat, duration: int)
    requires duration > 0 && j < |run| && NoneOvertaken(run, j + 1, duration)
    requires run[j].Seen? && run[j].session != "" && run[j].key != ""
    ensures Records(run, j, duration) <==>
            forall i ::
              (0 <= i < j && Records(run, i, duration)
               && run[i].session == run[j].session && run[i].key == run[j].key) ==>
                run[j].now - run[i].now >= duration
  {
    MatchesIffNoneOvertaken(run, j + 1, duration);
    var x, k := run[j].session, run[j].key;
    if Records(run, j, duration) {
      forall i | 0 <= i < j && Records(run, i, duration) && run[i].session == x && run[i].key == k
        ensures run[j].now - run[i].now >= duration
      {
        OneMoreCall(run, i, duration);
        MemoryAdvances(run, i + 1, j, x, k, duration);
      }
    } else {
      var i := MemoryWasRenewed(run, j, x, k, duration);
      assert Records(run, i, duration);
    }
  }

  /** Calls that take the lock in the order of their clocks are never overtaken. */
  lemma InOrderAnswersMatch(run: seq<Call>, duration: int)
    requires duration > 0 && forall i, j :: 0 <= i < j < |run| ==> run[i].now <= run[j].now
    ensures MatchesUpTo(run, |run|, duration) && SightingsApart(run, duration)
  {
    MatchesIffNoneOvertaken(run, |run|, duration);
    AcceptedSightingsAreApartIff(run, duration);
  }

  // --- how large a bucket gets --------------------------------------------------

  /** The keys recorded in `session` with clocks less than the window before `now`. */
  ghost function RecentKeys(run: seq<Call>, session: string, now: int, duration: int): set<string> {
    set i | 0 <= i < |run| && Records(run, i, duration) && run[i].session == session && now - run[i].now < duration
      :: run[i].key
  }

  lemma {:induction false} HeldWasRecorded(run: seq<Call>, j: nat, session: string, key: string, duration: int)
    returns (i: nat)
    requires duration > 0 && j <= |run| && Holds(After(run[..j], duration), session, key)
    ensures i < j && Records(run, i, duration) && run[i].session == session && run[i].key == key
         && run[i].now == BucketOf(After(run[..j], duration), session)[key]
    decreases j
  {
    WindowStep(run, j - 1, session, key, duration);
    if Records(run, j - 1, duration) && run[j - 1].session == session && run[j - 1].key == key {
      i := j - 1;
    } else {
      i := HeldWasRecorded(run, j - 1, session, key, duration);
    }
  }

  /** After a recording call the bucket has at most 256 entries, or only keys recorded within
      the window; whatever the order of the clocks. */
  lemma BucketIsBounded(run: seq<Call>, duration: int)
    requires duration > 0 && run != [] && Records(run, |run| - 1, duration)
    ensures var c := run[|run| - 1];
            var b := BucketOf(After(run, duration), c.session);
            |b| <= 256 || |b| <= |RecentKeys(run, c.session, c.now, duration)|
  {
    var n := |run| - 1;
    var c := run[n];
    var b := BucketOf(After(run, duration), c.session);
    assert run[..|run|] == run;
    if |b| > THRESHOLD {
      forall k | k in b ensures k in RecentKeys(run, c.session, c.now, duration) {
        var i := HeldWasRecorded(run, |run|, c.session, k, duration);
        assert c.now - b[k] < duration;
      }
      SubsetIsSmaller(b.Keys, RecentKeys(run, c.session, c.now, duration));
    }
  }

  // ---------------------------------------------------------------------------
  // Interleaved calls
  // ---------------------------------------------------------------------------

  /** A sighting reads the clock before it takes the lock; a sweep reads it under the lock. */
  datatype Step =
    | ReadClock(op: nat, now: int)
    | TakeLock(op: nat, session: string, key: string)
    | SweepLocked(now: int)

  /** The clock values read and not yet used. */
  function Readings(steps: seq<Step>): map<nat, int> {
    if steps == [] then map[] else ReadingsNext(Readings(steps[..|steps| - 1]), steps[|steps| - 1])
  }

  function ReadingsNext(before: map<nat, int>, step: Step): map<nat, int> {
    match step
    case ReadClock(op, now) => before[op := now]
    case TakeLock(op, _, _) => before - {op}
    case SweepLocked(_) => before
  }

  predicate Enabled(readings: map<nat, int>, step: Step) {
    match step
    case ReadClock(op, _) => op !in readings
    case TakeLock(op, _, _) => op in readings
    case SweepLocked(_) => true
  }

  /** Every sighting reads the clock once and then takes the lock once. */
  ghost predicate IsTrace(steps: seq<Step>) {
    forall j :: 0 <= j < |steps| ==> Enabled(Readings(steps[..j]), steps[j])
  }

  predicate ReadsTime(step: Step) {
    !step.TakeLock?
  }

  /** The clock never goes back. */
  ghost predicate ClockAdvances(steps: seq<Step>) {
    forall i, j :: 0 <= i < j < |steps| && ReadsTime(steps[i]) && ReadsTime(steps[j]) ==> steps[i].now <= steps[j].now
  }

  /** The calls of a trace in the order in which they take the lock. */
  function Calls(steps: seq<Step>): seq<Call> {
    if steps == [] then []
    else Calls(steps[..|steps| - 1]) + CallOf(Readings(steps[..|steps| - 1]), steps[|steps| - 1])
  }

  /** The call that the step carries out, if any. */
  function CallOf(readings: map<nat, int>, step: Step): seq<Call> {
    match step
    case ReadClock(_, _) => []
    case TakeLock(op, session, key) => [Seen(session, key, if op in readings then readings[op] else 0)]
    case SweepLocked(now) => [Sweep(now)]
  }

  /** Call `i` of the trace reads the clock at step `r` and takes the lock at step `l`. */
  ghost predicate Runs(steps: seq<Step>, i: nat, r: nat, l: nat)
    requires i < |Calls(steps)|
  {
    && r <= l < |steps| && ReadsTime(steps[r]) && steps[r].now == Calls(steps)[i].now
    && !steps[l].ReadClock? && |Calls(steps[..l])| == i
    && (r < l ==> steps[r].ReadClock? && steps[l].TakeLock? && steps[l].op == steps[r].op)
    && (r == l ==> steps[l].SweepLocked?)
  }

  lemma TracePrefix(steps: seq<Step>, n: nat)
    requires IsTrace(steps) && n <= |steps|
    ensures IsTrace(steps[..n])
  {
    forall j | 0 <= j < n ensures Enabled(Readings(steps[..n][..j]), steps[..n][j]) {
      assert steps[..n][..j] == steps[..j];
    }
  }

  lemma {:induction false} ReadingHasStep(steps: seq<Step>, op: nat) returns (r: nat)
    requires op in Readings(steps)
    ensures r < |steps| && steps[r] == ReadClock(op, Readings(steps)[op])
    decreases |steps|
  {
    var n := |steps| - 1;
    if steps[n].ReadClock? && steps[n].op == op {
      r := n;
    } else {
      r := ReadingHasStep(steps[..n], op);
    }
  }

  lemma {:induction false} CallHasSteps(steps: seq<Step>, i: nat) returns (r: nat, l: nat)
    requires IsTrace(steps) && i < |Calls(steps)|
    ensures Runs(steps, i, r, l)
    decreases |steps|
  {
    var n := |steps| - 1;
    TracePrefix(steps, n);
    if i < |Calls(steps[..n])| {
      r, l := CallHasSteps(steps[..n], i);
      assert steps[..n][..l] == steps[..l];
    } else {
      l := n;
      if steps[n].TakeLock? {
        r := ReadingHasStep(steps[..n], steps[n].op);
      } else {
        r := n;
      }
    }
  }

  lemma {:induction false} CallsGrow(steps: seq<Step>, l: nat, n: nat)
    requires l <= n <= |steps|
    ensures |Calls(steps[..l])| <= |Calls(steps[..n])|
    decreases n
  {
    if l < n {
      assert steps[..n][..n - 1] == steps[..n - 1];
      CallsGrow(steps, l, n - 1);
    }
  }

  /** Between the clock reading and the lock of call `i`, another call read a later clock, took the
      lock and evicted what the memory still answers with. */
  ghost predicate OvertakenInside(steps: seq<Step>, i: nat, duration: int)
    requires i < |Calls(steps)|
  {
    MemoryAnswer(Calls(steps), i, duration)
    && exists r, l, e, re, le ::
         && Runs(steps, i, r, l) && 0 <= e < i && Runs(steps, e, re, le) && r < re && le < l
         && EvictedBy(Calls(steps), e, i, Calls(steps)[i].session, Calls(steps)[i].key, duration)
  }

  lemma OvertakenMeansInside(steps: seq<Step>, i: nat, duration: int)
    requires IsTrace(steps) && ClockAdvances(steps) && i < |Calls(steps)|
    ensures Overtaken(Calls(steps), i, duration) <==> OvertakenInside(steps, i, duration)
  {
    var run := Calls(steps);
    if Overtaken(run, i, duration) {
      var e :| 0 <= e < i && EvictedBy(run, e, i, run[i].session, run[i].key, duration);
      var r, l := CallHasSteps(steps, i);
      var re, le := CallHasSteps(steps, e);
      assert run[e].now > run[i].now;
      if l <= le {
        CallsGrow(steps, l, le);
      }
      assert Runs(steps, i, r, l) && Runs(steps, e, re, le) && r < re && le < l;
    }
  }

  /** In every interleaving of clock readings, locks and sweeps: all answers are those of a map that
      never forgets, exactly when no entry is evicted under a later clock between the clock reading
      and the lock of a call that still falls within the window. */
  lemma InterleavedAnswersMatchIff(steps: seq<Step>, duration: int)
    requires duration > 0 && IsTrace(steps) && ClockAdvances(steps)
    ensures MatchesUpTo(Calls(steps), |Calls(steps)|, duration)
       <==> forall i :: 0 <= i < |Calls(steps)| ==> !OvertakenInside(steps, i, duration)
  {
    MatchesIffNoneOvertaken(Calls(steps), |Calls(steps)|, duration);
    forall i | 0 <= i < |Calls(steps)|
      ensures Overtaken(Calls(steps), i, duration) <==> OvertakenInside(steps, i, duration)
    {
      OvertakenMeansInside(steps, i, duration);
    }
  }

  /** The failing interleaving: a sweep between clock reading and lock lets a key be accepted twice
      within the window. */
  lemma SweepCutsIn(session: string, key: string, duration: int) returns (steps: seq<Step>, run: seq<Call>)
    requires duration > 0 && session != "" && key != ""
    ensures IsTrace(steps) && ClockAdvances(steps) && Calls(steps) == run
    ensures run == [Seen(session, key, 0), Sweep(duration), Seen(session, key, duration - 1)]
    ensures Records(run, 0, duration) && Records(run, 2, duration) && MemoryAnswer(run, 2, duration)
  {
    var start: seq<Step> := [];
    steps := Sighted(start, 0, session, key, 0);
    var first := Calls(steps);
    assert first == [Seen(session, key, 0)];
    steps := CutIn(steps, 0, session, key, 0, duration);
    run := [Seen(session, key, 0), Sweep(duration), Seen(session, key, duration - 1)];
    assert Calls(steps) == run;
    CutInRun(session, key, duration);
  }

  /** A sighting that nothing cuts into. */
  lemma Sighted(init: seq<Step>, op: nat, session: string, key: string, t: int) returns (steps: seq<Step>)
    requires IsTrace(init) && ClockAdvances(init) && ClockBy(init, t) && op !in Readings(init)
    ensures IsTrace(steps) && ClockAdvances(steps) && ClockBy(steps, t) && op !in Readings(steps)
    ensures Calls(steps) == Calls(init) + [Seen(session, key, t)]
  {
    steps := AddStep(init, ReadClock(op, t), t);
    steps := AddStep(steps, TakeLock(op, session, key), t);
  }

  /** A sighting with a sweep between its clock reading and its lock. */
  lemma CutIn(init: seq<Step>, op: nat, session: string, key: string, t: int, later: int) returns (steps: seq<Step>)
    requires IsTrace(init) && ClockAdvances(init) && ClockBy(init, t) && t < later && op !in Readings(init)
    ensures IsTrace(steps) && ClockAdvances(steps)
    ensures Calls(steps) == Calls(init) + [Sweep(later), Seen(session, key, later - 1)]
  {
    steps := AddStep(init, ReadClock(op, later - 1), later - 1);
    steps := AddStep(steps, SweepLocked(later), later);
    steps := AddStep(steps, TakeLock(op, session, key), later);
  }

  /** No reading is later than `t`. */
  ghost predicate ClockBy(steps: seq<Step>, t: int) {
    forall i :: 0 <= i < |steps| && ReadsTime(steps[i]) ==> steps[i].now <= t
  }

  lemma AddStep(init: seq<Step>, step: Step, t: int) returns (steps: seq<Step>)
    requires IsTrace(init) && Enabled(Readings(init), step)
    requires ClockAdvances(init) && ClockBy(init, t) && (ReadsTime(step) ==> step.now == t)
    ensures IsTrace(steps) && ClockAdvances(steps) && forall later :: later >= t ==> ClockBy(steps, later)
    ensures Readings(steps) == ReadingsNext(Readings(init), step)
    ensures Calls(steps) == Calls(init) + CallOf(Readings(init), step)
  {
    steps := init + [step];
    assert steps[..|init|] == init;
    forall j | 0 <= j < |steps| ensures Enabled(Readings(steps[..j]), steps[j]) {
      if j < |init| {
        assert steps[..j] == init[..j];
      }
    }
  }

  lemma CutInRun(session: string, key: string, duration: int)
    requires duration > 0 && session != "" && key != ""
    ensures var run := [Seen(session, key, 0), Sweep(duration), Seen(session, key, duration - 1)];
            Records(run, 0, duration) && Records(run, 2, duration) && MemoryAnswer(run, 2, duration)
  {
    var run := [Seen(session, key, 0), Sweep(duration), Seen(session, key, duration - 1)];
    assert run[..0] == [];
    OneMoreCall(run, 0, duration);
    OneMoreCall(run, 1, duration);
    WindowStep(run, 0, session, key, duration);
    WindowStep(run, 1, session, key, duration);
  }
}

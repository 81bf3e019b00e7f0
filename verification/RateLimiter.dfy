/**
 The per-key request limiter: a bucket of `rate` tokens, refilled as a whole by the first
 request at least one window after the last refill.

 Times are integers (nanoseconds) and never decrease along a run.
 */
module RateLimiter {
  import opened Common

  datatype Bucket = Bucket(tokens: int, lastRefill: int)
  type Buckets = map<string, Bucket>

  datatype Policy = Policy(rate: int, window: int)

  /** What the constructor guarantees of an enabled limiter. */
  predicate Enabled(p: Policy) {
    p.rate > 0 && p.window > 0
  }

  /** The key's bucket as this request finds it: created full, or refilled when due. */
  function Refilled(s: Buckets, key: string, now: int, p: Policy): Bucket {
    if key !in s || now - s[key].lastRefill >= p.window then Bucket(p.rate, now) else s[key]
  }

  predicate Allowed(s: Buckets, key: string, now: int, p: Policy) {
    Refilled(s, key, now, p).tokens > 0
  }

  function Next(s: Buckets, key: string, now: int, p: Policy): Buckets {
    var b := Refilled(s, key, now, p);
    s[key := if b.tokens > 0 then b.(tokens := b.tokens - 1) else b]
  }

  const MINUTE := 60_000_000_000

  /** Nothing when the rate disables limiting. */
  function NewPolicy(rate: int, window: int): (p: Option<Policy>)
    ensures p.Some? <==> rate > 0
    ensures p.Some? ==> Enabled(p.value) && p.value.rate == rate
    ensures p.Some? ==> p.value.window == if window > 0 then window else 60_000_000_000
  {
    if rate <= 0 then None else Some(Policy(rate, if window <= 0 then MINUTE else window))
  }

  class Limiter {
    var buckets: Buckets
    const policy: Policy

    constructor (policy: Policy)
      ensures buckets == map[] && this.policy == policy
    {
      buckets := map[];
      this.policy := policy;
    }

    method Allow(key: string, now: int) returns (ok: bool)
      modifies this
      ensures ok <==> old(Allowed(buckets, key, now, policy))
      ensures buckets == old(Next(buckets, key, now, policy))
    {
      var b: Bucket;
      if key in buckets {
        b := buckets[key];
      } else {
        b := Bucket(policy.rate, now);
        buckets := buckets[key := b];
      }
      var elapsed := now - b.lastRefill;
      if elapsed >= policy.window {
        b := Bucket(policy.rate, now);
        buckets := buckets[key := b];
      }
      if b.tokens <= 0 {
        return false;
      }
      b := b.(tokens := b.tokens - 1);
      buckets := buckets[key := b];
      ok := true;
    }
  }

  // ---------------------------------------------------------------------------
  // Runs
  // ---------------------------------------------------------------------------

  datatype Request = Request(key: string, now: int)

  predicate Monotone(run: seq<Request>) {
    forall i, j :: 0 <= i < j < |run| ==> run[i].now <= run[j].now
  }

  function After(s: Buckets, run: seq<Request>, p: Policy): Buckets
    decreases |run|
  {
    if run == [] then s else After(Next(s, run[0].key, run[0].now, p), run[1..], p)
  }

  /** The answers to the requests of one key, in order. */
  function Answers(s: Buckets, run: seq<Request>, key: string, p: Policy): seq<bool>
    decreases |run|
  {
    if run == [] then []
    else
      (if run[0].key == key then [Allowed(s, key, run[0].now, p)] else [])
      + Answers(Next(s, run[0].key, run[0].now, p), run[1..], key, p)
  }

  function Allows(s: Buckets, run: seq<Request>, key: string, p: Policy): nat
    decreases |run|
  {
    if run == [] then 0
    else
      (if run[0].key == key && Allowed(s, key, run[0].now, p) then 1 else 0)
      + Allows(Next(s, run[0].key, run[0].now, p), run[1..], key, p)
  }

  // --- keys do not interfere ----------------------------------------------------

  function OnlyKey(run: seq<Request>, key: string): seq<Request> {
    if run == [] then []
    else (if run[0].key == key then [run[0]] else []) + OnlyKey(run[1..], key)
  }

  ghost predicate SameBucket(s: Buckets, t: Buckets, key: string) {
    (key in s <==> key in t) && (key in s ==> s[key] == t[key])
  }

  /** Traffic on other keys changes no answer. */
  lemma {:induction false} OtherTrafficIsIrrelevant(s: Buckets, t: Buckets, run: seq<Request>, key: string, p: Policy)
    requires SameBucket(s, t, key)
    ensures Answers(s, run, key, p) == Answers(t, OnlyKey(run, key), key, p)
    decreases |run|
  {
    if run != [] {
      var s' := Next(s, run[0].key, run[0].now, p);
      if run[0].key == key {
        var rest := OnlyKey(run[1..], key);
        assert OnlyKey(run, key)[0] == run[0] && OnlyKey(run, key)[1..] == rest;
        OtherTrafficIsIrrelevant(s', Next(t, key, run[0].now, p), run[1..], key, p);
      } else {
        OtherTrafficIsIrrelevant(s', t, run[1..], key, p);
        assert OnlyKey(run, key) == OnlyKey(run[1..], key);
      }
    }
  }

  // --- how much gets through ------------------------------------------------------

  lemma DivStep(x: int, y: int, w: int)
    requires x >= 0 && y >= w > 0
    ensures (x + y) / w >= x / w + 1
  {
    var q := x / w;
    assert x == q * w + x % w;
    assert x + y >= (q + 1) * w;
    DivLower(x + y, q + 1, w);
  }

  /** All times of the run lie between `from` and `to`. */
  predicate Within(run: seq<Request>, from: int, to: int) {
    forall i :: 0 <= i < |run| ==> from <= run[i].now <= to
  }

  /** A full bucket for every whole window that fits in the time left. */
  function Credit(p: Policy, left: int): int
    requires Enabled(p)
  {
    p.rate * (left / p.window)
  }

  lemma CreditGrows(p: Policy, short: int, long: int)
    requires Enabled(p) && 0 <= short <= long
    ensures 0 <= Credit(p, short) <= Credit(p, long)
    ensures long - short >= p.window ==> Credit(p, short) + p.rate <= Credit(p, long)
  {
    var a, b := short / p.window, long / p.window;
    DivLower(short, 0, p.window);
    assert short == a * p.window + short % p.window;
    DivLower(long, a, p.window);
    MulMonotone(0, a, p.rate);
    MulMonotone(a, b, p.rate);
    if long - short >= p.window {
      DivStep(short, long - short, p.window);
      MulMonotone(a + 1, b, p.rate);
    }
  }

  /** From a bucket with some tokens: those, and a full bucket for every window that fits. */
  lemma {:induction false} TokensBoundAllows(s: Buckets, run: seq<Request>, key: string, p: Policy, to: int)
    requires Enabled(p) && Monotone(run) && key in s && s[key].tokens >= 0 && s[key].lastRefill <= to
    requires Within(run, s[key].lastRefill, to)
    ensures Allows(s, run, key, p) <= s[key].tokens + Credit(p, to - s[key].lastRefill)
    decreases |run|
  {
    var last := s[key].lastRefill;
    if run == [] {
      CreditGrows(p, 0, to - last);
    } else {
      var now := run[0].now;
      var s' := Next(s, run[0].key, now, p);
      assert last <= s'[key].lastRefill <= now;
      assert Within(run[1..], now, to);
      TokensBoundAllows(s', run[1..], key, p, to);
      CreditGrows(p, to - now, to - last);
    }
  }

  /** What every reachable table satisfies at a time: each bucket was drawn from since its
      last refill. */
  predicate Drawn(s: Buckets, now: int, p: Policy) {
    forall k :: k in s ==> 0 <= s[k].tokens < p.rate && s[k].lastRefill <= now
  }

  lemma {:induction false} ReachableIsDrawn(s: Buckets, run: seq<Request>, p: Policy, from: int, to: int)
    requires Enabled(p) && Monotone(run) && Drawn(s, from, p) && from <= to && Within(run, from, to)
    ensures Drawn(After(s, run, p), to, p)
    decreases |run|
  {
    if run != [] {
      assert Within(run[1..], run[0].now, to);
      ReachableIsDrawn(Next(s, run[0].key, run[0].now, p), run[1..], p, run[0].now, to);
    }
  }

  function Cap(p: Policy, length: int): int
    requires Enabled(p)
  {
    p.rate * (length / p.window + 2) - 1
  }

  lemma CapInCredits(p: Policy, length: int)
    requires Enabled(p)
    ensures Cap(p, length) == Credit(p, length) + 2 * p.rate - 1
  {
  }

  lemma CapMonotone(p: Policy, short: int, long: int)
    requires Enabled(p) && 0 <= short <= long
    ensures Cap(p, short) <= Cap(p, long)
  {
    CapInCredits(p, short);
    CapInCredits(p, long);
    CreditGrows(p, short, long);
  }

  /** A fresh bucket lets through at most one bucket and one for every further window. */
  lemma FreshBucketBound(s: Buckets, run: seq<Request>, key: string, p: Policy, from: int, to: int)
    requires Enabled(p) && run != [] && Monotone(run) && Within(run, from, to) && run[0].key == key
    requires Refilled(s, key, run[0].now, p) == Bucket(p.rate, run[0].now)
    ensures Allows(s, run, key, p) <= Cap(p, to - from)
  {
    var now := run[0].now;
    var s' := Next(s, key, now, p);
    assert Within(run[1..], now, to);
    assert s'[key] == Bucket(p.rate - 1, now);
    TokensBoundAllows(s', run[1..], key, p, to);
    CreditGrows(p, to - now, to - from);
    CapInCredits(p, to - from);
  }

  lemma CreditOneMore(p: Policy, length: int)
    requires Enabled(p) && length >= 0
    ensures Credit(p, length + p.window) == Credit(p, length) + p.rate
  {
    var q := length / p.window;
    assert length == q * p.window + length % p.window;
    assert (q + 1) * p.window == q * p.window + p.window;
    DivLower(length + p.window, q + 1, p.window);
    assert (q + 2) * p.window == q * p.window + 2 * p.window;
    DivUpper(length + p.window, q + 1, p.window);
    assert p.rate * (q + 1) == p.rate * q + p.rate;
  }

  /** A bucket refilled less than a window ago adds its rest. */
  lemma StaleBucketBound(s: Buckets, run: seq<Request>, key: string, p: Policy, from: int, to: int)
    requires Enabled(p) && run != [] && Monotone(run) && Within(run, from, to) && run[0].key == key
    requires key in s && 0 <= s[key].tokens < p.rate && s[key].lastRefill <= from
    requires run[0].now - s[key].lastRefill < p.window
    ensures Allows(s, run, key, p) <= Cap(p, to - from)
  {
    var last := s[key].lastRefill;
    assert from <= run[0].now <= to;
    TokensBoundAllows(s, run, key, p, to);
    CreditGrows(p, to - last, to - from + p.window);
    CreditOneMore(p, to - from);
    CapInCredits(p, to - from);
  }

  lemma OtherKeyFirst(s: Buckets, run: seq<Request>, key: string, p: Policy, from: int, to: int)
    requires Enabled(p) && Monotone(run) && Drawn(s, from, p) && Within(run, from, to)
    requires run != [] && run[0].key != key
    ensures var s' := Next(s, run[0].key, run[0].now, p);
      && Monotone(run[1..]) && Within(run[1..], run[0].now, to) && Drawn(s', run[0].now, p)
      && Allows(s, run, key, p) == Allows(s', run[1..], key, p)
  {
  }

  lemma {:induction false} IntervalBoundFrom(s: Buckets, run: seq<Request>, key: string, p: Policy, from: int, to: int)
    requires Enabled(p) && Monotone(run) && Drawn(s, from, p) && from <= to && Within(run, from, to)
    ensures Allows(s, run, key, p) <= Cap(p, to - from)
    decreases |run|
  {
    if run == [] {
      CapInCredits(p, to - from);
      CreditGrows(p, 0, to - from);
    } else if run[0].key != key {
      var s' := Next(s, run[0].key, run[0].now, p);
      OtherKeyFirst(s, run, key, p, from, to);
      IntervalBoundFrom(s', run[1..], key, p, run[0].now, to);
      CapMonotone(p, to - run[0].now, to - from);
    } else if key in s && run[0].now - s[key].lastRefill < p.window {
      StaleBucketBound(s, run, key, p, from, to);
    } else {
      FreshBucketBound(s, run, key, p, from, to);
    }
  }

  /** The limit over any stretch of any run from a new limiter: at most
      rate * (floor(length / window) + 2) - 1 requests of one key get through. */
  lemma IntervalBound(run: seq<Request>, i: nat, j: nat, key: string, p: Policy)
    requires Enabled(p) && Monotone(run) && i < j <= |run|
    ensures Allows(After(map[], run[..i], p), run[i..j], key, p) <= Cap(p, run[j - 1].now - run[i].now)
  {
    var from, to := run[i].now, run[j - 1].now;
    StretchStartsDrawn(run, i, p);
    assert Monotone(run[i..j]) && Within(run[i..j], from, to);
    IntervalBoundFrom(After(map[], run[..i], p), run[i..j], key, p, from, to);
  }

  lemma StretchStartsDrawn(run: seq<Request>, i: nat, p: Policy)
    requires Enabled(p) && Monotone(run) && i < |run|
    ensures Drawn(After(map[], run[..i], p), run[i].now, p)
  {
    if i > 0 {
      assert Monotone(run[..i]) && Within(run[..i], run[0].now, run[i].now);
      ReachableIsDrawn(map[], run[..i], p, run[0].now, run[i].now);
    }
  }

  /** Less than a window: fewer than twice the rate. */
  lemma ShortIntervalBound(run: seq<Request>, i: nat, j: nat, key: string, p: Policy)
    requires Enabled(p) && Monotone(run) && i < j <= |run| && run[j - 1].now - run[i].now < p.window
    ensures Allows(After(map[], run[..i], p), run[i..j], key, p) <= 2 * p.rate - 1
  {
    IntervalBound(run, i, j, key, p);
    DivUpper(run[j - 1].now - run[i].now, 0, p.window);
    MulMonotone((run[j - 1].now - run[i].now) / p.window + 2, 2, p.rate);
  }

  // --- the bound is attained ------------------------------------------------------

  /** `n` requests at once. */
  function Burst(key: string, n: nat, now: int): (r: seq<Request>)
    ensures |r| == n && forall i :: 0 <= i < n ==> r[i] == Request(key, now)
  {
    seq(n, _ => Request(key, now))
  }

  /** Full bursts at `n` successive window starts. */
  function Bursts(key: string, n: nat, from: int, p: Policy): (r: seq<Request>)
    requires Enabled(p)
  {
    if n == 0 then [] else Burst(key, p.rate, from) + Bursts(key, n - 1, from + p.window, p)
  }

  lemma {:induction false} AllowsAppend(s: Buckets, a: seq<Request>, b: seq<Request>, key: string, p: Policy)
    ensures Allows(s, a + b, key, p) == Allows(s, a, key, p) + Allows(After(s, a, p), b, key, p)
    decreases |a|
  {
    if a == [] {
      assert a + b == b;
    } else {
      assert (a + b)[1..] == a[1..] + b;
      AllowsAppend(Next(s, a[0].key, a[0].now, p), a[1..], b, key, p);
    }
  }

  lemma {:induction false} BurstWithinWindow(s: Buckets, key: string, n: nat, now: int, p: Policy)
    requires Enabled(p) && key in s && now - s[key].lastRefill < p.window && n <= s[key].tokens
    ensures Allows(s, Burst(key, n, now), key, p) == n
    ensures n > 0 || key in s ==> key in After(s, Burst(key, n, now), p)
    ensures After(s, Burst(key, n, now), p)[key].lastRefill == s[key].lastRefill
  {
    if n > 0 {
      assert Burst(key, n, now)[1..] == Burst(key, n - 1, now);
      BurstWithinWindow(Next(s, key, now, p), key, n - 1, now, p);
    }
  }

  lemma BurstWhenDue(s: Buckets, key: string, now: int, p: Policy)
    requires Enabled(p) && (key in s ==> now - s[key].lastRefill >= p.window)
    ensures Allows(s, Burst(key, p.rate, now), key, p) == p.rate
    ensures key in After(s, Burst(key, p.rate, now), p)
    ensures After(s, Burst(key, p.rate, now), p)[key].lastRefill == now
  {
    assert Burst(key, p.rate, now)[1..] == Burst(key, p.rate - 1, now);
    BurstWithinWindow(Next(s, key, now, p), key, p.rate - 1, now, p);
  }

  lemma MulStep(a: int, n: int)
    ensures a + a * (n - 1) == a * n
  {
  }

  lemma {:induction false} BurstsWhenDue(s: Buckets, key: string, n: nat, from: int, p: Policy)
    requires Enabled(p) && (key in s ==> from - s[key].lastRefill >= p.window)
    ensures Allows(s, Bursts(key, n, from, p), key, p) == p.rate * n
    decreases n
  {
    if n > 0 {
      var first, rest := Burst(key, p.rate, from), Bursts(key, n - 1, from + p.window, p);
      BurstWhenDue(s, key, from, p);
      BurstsWhenDue(After(s, first, p), key, n - 1, from + p.window, p);
      AllowsAppend(s, first, rest, key, p);
      MulStep(p.rate, n);
    }
  }

  lemma JoinRuns(a: seq<Request>, b: seq<Request>, from: int, mid: int, to: int)
    requires Monotone(a) && Within(a, from, mid) && Monotone(b) && Within(b, mid, to) && from <= mid <= to
    ensures Monotone(a + b) && Within(a + b, from, to)
  {
  }

  lemma {:induction false} BurstsAreMonotone(key: string, n: nat, from: int, p: Policy)
    requires Enabled(p) && n > 0
    ensures var r := Bursts(key, n, from, p);
      r != [] && r[0].now == from && r[|r| - 1].now == from + (n - 1) * p.window
      && Monotone(r) && Within(r, from, from + (n - 1) * p.window)
    decreases n
  {
    var first, rest := Burst(key, p.rate, from), Bursts(key, n - 1, from + p.window, p);
    if n > 1 {
      BurstsAreMonotone(key, n - 1, from + p.window, p);
      MulStep(p.window, n - 1);
      MulMonotone(0, n - 2, p.window);
      var to := from + (n - 1) * p.window;
      assert to == from + p.window + (n - 2) * p.window;
      JoinRuns(first, rest, from, from + p.window, to);
      assert Bursts(key, n, from, p) == first + rest;
    } else {
      assert rest == [];
      assert Bursts(key, n, from, p) == first;
    }
  }

  /** One request opens a bucket; the rest of it goes at the end of its window, just before
      `n` full bursts. */
  function Greedy(n: nat, p: Policy): (r: seq<Request>)
    requires Enabled(p)
  {
    Burst("k", p.rate - 1, p.window - 1) + Bursts("k", n, p.window, p)
  }

  lemma Opened(p: Policy)
    requires Enabled(p)
    ensures After(map[], [Request("k", 0)], p) == map["k" := Bucket(p.rate - 1, 0)]
  {
    assert [Request("k", 0)][1..] == [];
  }

  lemma GreedyAllows(p: Policy, n: nat)
    requires Enabled(p)
    ensures var s := After(map[], [Request("k", 0)], p);
            Allows(s, Greedy(n, p), "k", p) == p.rate - 1 + p.rate * n
  {
    var s := map["k" := Bucket(p.rate - 1, 0)];
    var early := Burst("k", p.rate - 1, p.window - 1);
    Opened(p);
    BurstWithinWindow(s, "k", p.rate - 1, p.window - 1, p);
    BurstsWhenDue(After(s, early, p), "k", n, p.window, p);
    AllowsAppend(s, early, Bursts("k", n, p.window, p), "k", p);
  }

  lemma GreedyTimes(p: Policy, n: nat)
    requires Enabled(p) && n > 0
    ensures var r := Greedy(n, p);
      r != [] && Monotone([Request("k", 0)] + r) && r[|r| - 1].now == p.window + (n - 1) * p.window
      && r[0].now == if p.rate > 1 then p.window - 1 else p.window
  {
    BurstsAreMonotone("k", n, p.window, p);
    var early, late := Burst("k", p.rate - 1, p.window - 1), Bursts("k", n, p.window, p);
    assert forall i :: 0 <= i < |late| ==> late[i].now >= p.window;
  }

  lemma WindowsOf(n: nat, extra: int, w: int)
    requires 0 <= extra < w
    ensures (n * w + extra) / w == n
  {
    MulMonotone(0, n, w);
    DivLower(n * w + extra, n, w);
    assert (n + 1) * w == n * w + w;
    DivUpper(n * w + extra, n, w);
  }

  /** For every rate, every window of at least two ticks and every number of windows some run
      lets exactly the bound through. */
  lemma BoundIsAttained(p: Policy, n: nat) returns (run: seq<Request>)
    requires Enabled(p) && p.window >= 2
    ensures Monotone(run) && |run| > 1
    ensures (run[|run| - 1].now - run[1].now) / p.window == n
    ensures Allows(After(map[], run[..1], p), run[1..], "k", p) == Cap(p, run[|run| - 1].now - run[1].now)
  {
    var first, rest := [Request("k", 0)], Greedy(n + 1, p);
    run := first + rest;
    GreedyTimes(p, n + 1);
    GreedyAllows(p, n + 1);
    WindowsOf(n, if p.rate > 1 then 1 else 0, p.window);
    assert run[..1] == first && run[1..] == rest;
    MulStep(p.rate, n + 2);
  }

  // --- when the documented limit holds ----------------------------------------------

  /** `rate` requests per window: in every run, each stretch shorter than a window lets at most
      `rate` requests of a key through. */
  ghost predicate KeepsDocumentedLimit(p: Policy) {
    forall run, i, j, key :: ShortStretch(run, i, j, p) ==> WithinRate(run, i, j, key, p)
  }

  predicate ShortStretch(run: seq<Request>, i: int, j: int, p: Policy) {
    Monotone(run) && 0 <= i < j <= |run| && run[j - 1].now - run[i].now < p.window
  }

  predicate WithinRate(run: seq<Request>, i: int, j: int, key: string, p: Policy)
    requires 0 <= i < j <= |run|
  {
    Allows(After(map[], run[..i], p), run[i..j], key, p) <= p.rate
  }

  /** The first request of `key` aside, some request of it finds its bucket due. */
  predicate RefillsLate(s: Buckets, run: seq<Request>, key: string, p: Policy)
    decreases |run|
  {
    run != [] &&
    var s' := Next(s, run[0].key, run[0].now, p);
    if run[0].key == key then Refills(s', run[1..], key, p) else RefillsLate(s', run[1..], key, p)
  }

  predicate Refills(s: Buckets, run: seq<Request>, key: string, p: Policy)
    decreases |run|
  {
    run != [] &&
    ((run[0].key == key && key in s && run[0].now - s[key].lastRefill >= p.window)
     || Refills(Next(s, run[0].key, run[0].now, p), run[1..], key, p))
  }

  lemma {:induction false} TokensAreAll(s: Buckets, run: seq<Request>, key: string, p: Policy)
    requires key in s && s[key].tokens >= 0 && !Refills(s, run, key, p)
    ensures Allows(s, run, key, p) <= s[key].tokens
    decreases |run|
  {
    if run != [] {
      TokensAreAll(Next(s, run[0].key, run[0].now, p), run[1..], key, p);
    }
  }

  /** A stretch of any length exceeds the rate only if the key's bucket is refilled inside it. */
  lemma {:induction false} OverrunNeedsRefill(s: Buckets, run: seq<Request>, key: string, p: Policy, now: int)
    requires Enabled(p) && Drawn(s, now, p) && Monotone(run) && (run != [] ==> now <= run[0].now)
    requires Allows(s, run, key, p) > p.rate
    ensures RefillsLate(s, run, key, p)
    decreases |run|
  {
    if run != [] {
      var s' := Next(s, run[0].key, run[0].now, p);
      if run[0].key != key {
        OverrunNeedsRefill(s', run[1..], key, p, run[0].now);
      } else if !Refills(s', run[1..], key, p) {
        TokensAreAll(s', run[1..], key, p);
      }
    }
  }

  /** At one instant a window of a single tick hands out one bucket. */
  lemma {:induction false} InstantBound(s: Buckets, run: seq<Request>, key: string, p: Policy, now: int)
    requires Enabled(p) && p.window == 1 && Within(run, now, now)
    requires key in s && s[key].lastRefill == now && s[key].tokens >= 0
    ensures Allows(s, run, key, p) <= s[key].tokens
    decreases |run|
  {
    if run != [] {
      InstantBound(Next(s, run[0].key, now, p), run[1..], key, p, now);
    }
  }

  lemma {:induction false} InstantStretch(s: Buckets, run: seq<Request>, key: string, p: Policy, now: int)
    requires Enabled(p) && p.window == 1 && Within(run, now, now) && Drawn(s, now, p)
    ensures Allows(s, run, key, p) <= p.rate
    decreases |run|
  {
    if run != [] {
      var s' := Next(s, run[0].key, now, p);
      if run[0].key == key {
        InstantBound(s', run[1..], key, p, now);
      } else {
        InstantStretch(s', run[1..], key, p, now);
      }
    }
  }

  lemma TickKeepsLimit(p: Policy, run: seq<Request>, i: int, j: int, key: string)
    requires Enabled(p) && p.window == 1 && ShortStretch(run, i, j, p)
    ensures WithinRate(run, i, j, key, p)
  {
    var now := run[i].now;
    if i > 0 {
      assert Within(run[..i], run[0].now, now);
      ReachableIsDrawn(map[], run[..i], p, run[0].now, now);
    }
    assert Within(run[i..j], now, now);
    InstantStretch(After(map[], run[..i], p), run[i..j], key, p, now);
  }

  /** The documented limit holds of exactly the policies of one request a window, or of a window
      too short to be divided by the clock. */
  lemma DocumentedLimitIff(p: Policy)
    requires Enabled(p)
    ensures KeepsDocumentedLimit(p) <==> p.rate == 1 || p.window == 1
  {
    if p.rate == 1 || p.window == 1 {
      forall run, i, j, key | ShortStretch(run, i, j, p) ensures WithinRate(run, i, j, key, p) {
        if p.window == 1 {
          TickKeepsLimit(p, run, i, j, key);
        } else {
          ShortIntervalBound(run, i, j, key, p);
        }
      }
    } else {
      var run := BoundIsAttained(p, 0);
      var last := run[|run| - 1].now;
      SmallQuotient(last - run[1].now, p.window);
      assert run[1..|run|] == run[1..];
      assert ShortStretch(run, 1, |run|, p);
      assert !WithinRate(run, 1, |run|, "k", p);
    }
  }

  lemma SmallQuotient(x: int, w: int)
    requires w > 0 && x / w == 0
    ensures 0 <= x < w
  {
  }

  // --- one window -----------------------------------------------------------------

  /** From a full bucket filled at `from`, the requests of one window are allowed while they are no more
      than the rate; so are those of the next. */
  lemma {:induction false} FirstOfWindowAreAllowed(s: Buckets, run: seq<Request>, key: string, p: Policy, from: int,
                                                   used: nat)
    requires Enabled(p) && used <= p.rate
    requires key in s && s[key] == Bucket(p.rate - used, from)
    requires forall i :: 0 <= i < |run| ==> run[i].key == key && from <= run[i].now < from + p.window
    ensures |Answers(s, run, key, p)| == |run|
    ensures forall i :: 0 <= i < |run| ==> (Answers(s, run, key, p)[i] <==> used + i < p.rate)
    decreases |run|
  {
    if run != [] {
      var s' := Next(s, key, run[0].now, p);
      var used' := if used < p.rate then used + 1 else used;
      FirstOfWindowAreAllowed(s', run[1..], key, p, from, used');
      var rest := Answers(s', run[1..], key, p);
      assert Answers(s, run, key, p) == [used < p.rate] + rest;
      forall i | 0 <= i < |run| ensures Answers(s, run, key, p)[i] <==> used + i < p.rate {
        assert i > 0 ==> (rest[i - 1] <==> used' + (i - 1) < p.rate);
      }
    }
  }

  /** A key that comes for the first time, or again a window after its last refill, has exactly `rate`
      of the requests of the next window allowed, the first ones. */
  lemma RatePerWindow(s: Buckets, run: seq<Request>, key: string, p: Policy)
    requires Enabled(p) && run != []
    requires key !in s || run[0].now - s[key].lastRefill >= p.window
    requires forall i :: 0 <= i < |run| ==> run[i].key == key && run[0].now <= run[i].now < run[0].now + p.window
    ensures |Answers(s, run, key, p)| == |run|
    ensures forall i :: 0 <= i < |run| ==> (Answers(s, run, key, p)[i] <==> i < p.rate)
  {
    var full := s[key := Bucket(p.rate, run[0].now)];
    assert Next(s, key, run[0].now, p) == Next(full, key, run[0].now, p);
    assert Allowed(s, key, run[0].now, p) == Allowed(full, key, run[0].now, p);
    assert Answers(s, run, key, p) == Answers(full, run, key, p);
    FirstOfWindowAreAllowed(full, run, key, p, run[0].now, 0);
  }
}

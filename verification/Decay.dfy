/**
 Strength decay of long-term memories.

 Strengths are reals.  Times count the ticks of the clock and ages are exact, so an age need
 not be a whole number of days: the rate is given per tick, as the root of the daily rate for
 the number of ticks in a day, and rate^(age / day) is its iterated product over the age.
 */
module Decay {
  import opened Common

  datatype Memory = Memory(strength: real, createdAt: int, lastRetrieved: Option<int>, tier: string,
                           provenance: string, isLatest: bool)

  type Memories = map<string, Memory>

  /** `day` is the number of ticks in a day. */
  datatype Config = Config(ratePerTick: real, day: nat, evictionThreshold: real, reinforcement: real)

  datatype Report = Report(evaluated: nat, evicted: nat, updatedStrength: nat)

  function Pow(r: real, n: nat): real {
    if n == 0 then 1.0 else r * Pow(r, n - 1)
  }

  /** `s` after `n` ticks at rate `r`: s * r^n, one tick at a time. */
  function Fade(s: real, r: real, n: nat): real {
    if n == 0 then s else r * Fade(s, r, n - 1)
  }

  lemma {:induction false} FadeIsPower(s: real, r: real, n: nat)
    ensures Fade(s, r, n) == s * Pow(r, n)
  {
    if n > 0 {
      FadeIsPower(s, r, n - 1);
      assert r * (s * Pow(r, n - 1)) == s * (r * Pow(r, n - 1));
    }
  }

  /** The configured rate. */
  function RatePerDay(c: Config): real {
    Pow(c.ratePerTick, c.day)
  }

  /** Only these rows decay. */
  predicate Decayable(m: Memory) {
    (m.tier == "semantic" || m.tier == "procedural") && m.provenance != "user" && m.isLatest
  }

  predicate Retrieved(m: Memory) {
    m.lastRetrieved.Some? && m.lastRetrieved.value > m.createdAt
  }

  /** The time from `base` to `now`, none if that is in the future. */
  function Since(base: int, now: int): nat {
    if now - base < 0 then 0 else now - base
  }

  /** The time since creation, or since a later retrieval. */
  function Age(m: Memory, now: int): nat {
    Since(if Retrieved(m) then m.lastRetrieved.value else m.createdAt, now)
  }

  function Min(a: real, b: real): real {
    if a < b then a else b
  }

  function Reinforced(m: Memory, c: Config): real {
    if Retrieved(m) then Min(1.0, m.strength + c.reinforcement) else m.strength
  }

  function NewStrength(m: Memory, now: int, c: Config): real {
    var s := Fade(Reinforced(m, c), c.ratePerTick, Age(m, now));
    if s < 0.0 then 0.0 else s
  }

  predicate Evicted(m: Memory, now: int, c: Config) {
    Decayable(m) && NewStrength(m, now, c) < c.evictionThreshold
  }

  function Decayed(m: Memory, now: int, c: Config): Memory {
    if Decayable(m) then m.(strength := NewStrength(m, now, c)) else m
  }

  /** One run over the store. */
  function After(store: Memories, now: int, c: Config): Memories {
    map id | id in store && !Evicted(store[id], now, c) :: Decayed(store[id], now, c)
  }

  function Selected(store: Memories): set<string> {
    set id | id in store && Decayable(store[id])
  }

  class Engine {
    var memories: Memories
    const cfg: Config

    constructor (memories: Memories, cfg: Config)
      ensures this.memories == memories && this.cfg == cfg
    {
      this.memories := memories;
      this.cfg := cfg;
    }

    method Run(now: int) returns (report: Report)
      modifies this
      ensures memories == After(old(memories), now, cfg)
      ensures report.evaluated == |Selected(old(memories))|
      ensures report.evicted + report.updatedStrength == report.evaluated
      ensures report.evicted == |old(memories)| - |memories|
    {
      var updates, deletes;
      updates, deletes, report := Evaluate(memories, now, cfg);
      memories := Apply(memories, updates, deletes, now, cfg);
    }
  }

  method EvaluateOne(m: Memory, now: int, cfg: Config) returns (newStrength: real)
    ensures newStrength == NewStrength(m, now, cfg)
  {
    var strength, base := m.strength, m.createdAt;
    if m.lastRetrieved.Some? && m.lastRetrieved.value > base {
      base := m.lastRetrieved.value;
      strength := Min(1.0, strength + cfg.reinforcement);
    }
    var age := now - base;
    if age < 0 {
      age := 0;
    }
    newStrength := strength * Pow(cfg.ratePerTick, age);
    FadeIsPower(strength, cfg.ratePerTick, age);
    if newStrength < 0.0 {
      newStrength := 0.0;
    }
  }

  /** The new strength of every decaying row. */
  function NewStrengths(store: Memories, now: int, c: Config): map<string, real> {
    map id | id in Selected(store) :: NewStrength(store[id], now, c)
  }

  /** `updates` and `deletes` sort the rows `ids` by their new strength. */
  ghost predicate Sorts(computed: map<string, real>, ids: set<string>, threshold: real,
                        updates: map<string, real>, deletes: set<string>)
    requires ids <= computed.Keys
  {
    && (forall id :: id in deletes <==> id in ids && computed[id] < threshold)
    && (forall id :: id in updates <==> id in ids && !(computed[id] < threshold))
    && (forall id :: id in updates ==> updates[id] == computed[id])
  }

  lemma SortsOneMore(computed: map<string, real>, ids: set<string>, threshold: real,
                     updates: map<string, real>, deletes: set<string>, id: string)
    requires ids <= computed.Keys && id in computed && id !in ids
    requires Sorts(computed, ids, threshold, updates, deletes)
    ensures computed[id] < threshold ==>
      Sorts(computed, ids + {id}, threshold, updates, deletes + {id}) && |deletes + {id}| == |deletes| + 1
    ensures !(computed[id] < threshold) ==>
      Sorts(computed, ids + {id}, threshold, updates[id := computed[id]], deletes)
  {
  }

  /** The rows in whatever order the query returns them. */
  method Evaluate(store: Memories, now: int, cfg: Config)
    returns (updates: map<string, real>, deletes: set<string>, report: Report)
    ensures Sorts(NewStrengths(store, now, cfg), Selected(store), cfg.evictionThreshold, updates, deletes)
    ensures report.evaluated == |Selected(store)| && report.evicted == |deletes|
    ensures report.evicted + report.updatedStrength == report.evaluated
  {
    ghost var computed := NewStrengths(store, now, cfg);
    var selected := Selected(store);
    var rows := selected;
    updates, deletes, report := map[], {}, Report(0, 0, 0);
    while rows != {}
      invariant rows <= selected && Sorts(computed, selected - rows, cfg.evictionThreshold, updates, deletes)
      invariant report.evaluated == |selected| - |rows| && report.evicted == |deletes|
      invariant report.evicted + report.updatedStrength == report.evaluated
      decreases |rows|
    {
      var id :| id in rows;
      var newStrength := EvaluateOne(store[id], now, cfg);
      SortsOneMore(computed, selected - rows, cfg.evictionThreshold, updates, deletes, id);
      assert (selected - rows) + {id} == selected - (rows - {id});
      rows := rows - {id};
      if newStrength < cfg.evictionThreshold {
        deletes := deletes + {id};
        report := Report(report.evaluated + 1, report.evicted + 1, report.updatedStrength);
      } else {
        updates := updates[id := newStrength];
        report := Report(report.evaluated + 1, report.evicted, report.updatedStrength + 1);
      }
    }
    assert selected - {} == selected;
  }

  method Apply(before: Memories, updates: map<string, real>, deletes: set<string>, ghost now: int, ghost cfg: Config)
    returns (store: Memories)
    requires Sorts(NewStrengths(before, now, cfg), Selected(before), cfg.evictionThreshold, updates, deletes)
    ensures store == After(before, now, cfg) && |store| == |before| - |deletes|
  {
    store := before;
    var todo := updates.Keys;
    while todo != {}
      invariant todo <= updates.Keys && updates.Keys <= before.Keys == store.Keys
      invariant forall id :: id in before ==>
        store[id] == if id in updates && id !in todo then before[id].(strength := updates[id]) else before[id]
      decreases |todo|
    {
      var id :| id in todo;
      store := store[id := store[id].(strength := updates[id])];
      todo := todo - {id};
    }
    SortedIsAfter(before, updates, deletes, store, now, cfg);
    store := store - deletes;
    assert before.Keys == store.Keys + deletes;
  }

  lemma SortedIsAfter(before: Memories, updates: map<string, real>, deletes: set<string>, store: Memories, now: int,
                      cfg: Config)
    requires Sorts(NewStrengths(before, now, cfg), Selected(before), cfg.evictionThreshold, updates, deletes)
    requires store.Keys == before.Keys
    requires forall id :: id in before ==>
      store[id] == if id in updates then before[id].(strength := updates[id]) else before[id]
    ensures store - deletes == After(before, now, cfg) && deletes <= before.Keys
  {
    forall id | id in before
      ensures id in deletes <==> Evicted(before[id], now, cfg)
      ensures id !in deletes ==> store[id] == Decayed(before[id], now, cfg)
    {
      assert Decayable(before[id]) <==> id in Selected(before);
    }
  }

  // ---------------------------------------------------------------------------
  // Laws
  // ---------------------------------------------------------------------------

  ghost predicate Sane(c: Config) {
    0.0 <= c.ratePerTick <= 1.0 && c.day > 0 && c.reinforcement >= 0.0
  }

  ghost predicate InUnit(x: real) {
    0.0 <= x <= 1.0
  }

  lemma {:induction false} FadeShrinks(s: real, r: real, n: nat)
    requires InUnit(r) && s >= 0.0
    ensures 0.0 <= Fade(s, r, n) <= s
  {
    if n > 0 {
      var p, q := Fade(s, r, n - 1), Fade(s, r, n);
      FadeShrinks(s, r, n - 1);
      ScaleDown(r, p);
      assert q == r * p;
    }
  }

  lemma ScaleDown(r: real, x: real)
    requires InUnit(r) && x >= 0.0
    ensures 0.0 <= r * x <= x
  {
  }

  lemma ScaledDown(r: real, x: real, y: real)
    requires InUnit(r) && x >= 0.0 && y == r * x
    ensures 0.0 <= y <= x
  {
    ScaleDown(r, x);
  }

  /** A run keeps every strength between 0 and 1, and what survives among the decaying rows is at
      or above the threshold and no stronger than its reinforced former self. */
  lemma RunKeepsRange(store: Memories, now: int, c: Config)
    requires Sane(c) && forall id :: id in store ==> InUnit(store[id].strength)
    ensures forall id :: id in After(store, now, c) ==> InUnit(After(store, now, c)[id].strength)
    ensures forall id :: id in After(store, now, c) && Decayable(store[id]) ==>
              c.evictionThreshold <= After(store, now, c)[id].strength <= Reinforced(store[id], c)
  {
    forall id | id in store
      ensures InUnit(NewStrength(store[id], now, c)) && NewStrength(store[id], now, c) <= Reinforced(store[id], c)
    {
      FadeShrinks(Reinforced(store[id], c), c.ratePerTick, Age(store[id], now));
    }
  }

  /** The runs at `times`, in order. */
  function Runs(store: Memories, times: seq<int>, c: Config): Memories
    decreases |times|
  {
    if times == [] then store else Runs(After(store, times[0], c), times[1..], c)
  }

  function TotalAge(createdAt: int, times: seq<int>): nat {
    if times == [] then 0 else Since(createdAt, times[0]) + TotalAge(createdAt, times[1..])
  }

  lemma {:induction false} FadeAdds(s: real, r: real, m: nat, n: nat)
    ensures Fade(Fade(s, r, m), r, n) == Fade(s, r, m + n)
    decreases n
  {
    if n > 0 {
      FadeAdds(s, r, m, n - 1);
    }
  }

  /** A memory never retrieved: every run applies the whole age again, so after runs at ages
      d1, ..., dn the strength is s * rate^(d1 + ... + dn). */
  lemma {:induction false} DecayCompounds(store: Memories, times: seq<int>, c: Config, id: string)
    requires Sane(c) && id in store && Decayable(store[id]) && !Retrieved(store[id]) && store[id].strength >= 0.0
    requires id in Runs(store, times, c)
    ensures Runs(store, times, c)[id].strength
         == Fade(store[id].strength, c.ratePerTick, TotalAge(store[id].createdAt, times))
    decreases |times|
  {
    if times != [] {
      var m := store[id];
      if id in After(store, times[0], c) {
        FadeShrinks(m.strength, c.ratePerTick, Age(m, times[0]));
        assert After(store, times[0], c)[id] == m.(strength := Fade(m.strength, c.ratePerTick, Age(m, times[0])));
        DecayCompounds(After(store, times[0], c), times[1..], c, id);
        FadeAdds(m.strength, c.ratePerTick, Age(m, times[0]), TotalAge(m.createdAt, times[1..]));
      } else {
        GoneStaysGone(After(store, times[0], c), times[1..], c, id);
      }
    }
  }

  lemma {:induction false} GoneStaysGone(store: Memories, times: seq<int>, c: Config, id: string)
    requires id !in store
    ensures id !in Runs(store, times, c)
    decreases |times|
  {
    if times != [] {
      GoneStaysGone(After(store, times[0], c), times[1..], c, id);
    }
  }

  // --- the documented law -------------------------------------------------------

  lemma ProductBelow(r: real, x: real)
    requires r < 1.0 && x > 0.0
    ensures r * x < x
  {
  }

  lemma ProductPositive(r: real, x: real)
    requires r > 0.0 && x > 0.0
    ensures r * x > 0.0
  {
  }

  lemma {:induction false} FadePositive(s: real, r: real, n: nat)
    requires r > 0.0 && s > 0.0
    ensures Fade(s, r, n) > 0.0
  {
    if n > 0 {
      FadePositive(s, r, n - 1);
      ProductPositive(r, Fade(s, r, n - 1));
    }
  }

  lemma ProductIsBelow(r: real, x: real, y: real)
    requires r < 1.0 && x > 0.0 && y == r * x
    ensures y < x
  {
    ProductBelow(r, x);
  }

  lemma FadeFalls(s: real, r: real, n: nat)
    requires 0.0 < r < 1.0 && s > 0.0
    ensures Fade(s, r, n + 1) < Fade(s, r, n)
  {
    var p, q := Fade(s, r, n), Fade(s, r, n + 1);
    FadePositive(s, r, n);
    assert q == r * p;
    ProductIsBelow(r, p, q);
  }

  lemma {:induction false} FadeStrict(s: real, r: real, m: nat, n: nat)
    requires 0.0 < r < 1.0 && s > 0.0 && m <= n
    ensures Fade(s, r, n) <= Fade(s, r, m)
    ensures m < n ==> Fade(s, r, n) < Fade(s, r, m)
    decreases n
  {
    if m < n {
      FadeStrict(s, r, m, n - 1);
      FadeFalls(s, r, n - 1);
    }
  }

  lemma {:induction false} FadeAtOne(s: real, n: nat)
    ensures Fade(s, 1.0, n) == s
  {
    if n > 0 {
      FadeAtOne(s, n - 1);
    }
  }

  lemma FadeAtZero(s: real, n: nat)
    ensures Fade(s, 0.0, n) == if n == 0 then s else 0.0
  {
  }

  lemma {:induction false} FadeOfZero(r: real, n: nat)
    ensures Fade(0.0, r, n) == 0.0
  {
    if n > 0 {
      FadeOfZero(r, n - 1);
    }
  }

  /** When a longer fade makes no difference. */
  lemma FadeEqualIff(s: real, r: real, m: nat, n: nat)
    requires s >= 0.0 && InUnit(r) && m <= n
    ensures Fade(s, r, n) <= Fade(s, r, m)
    ensures Fade(s, r, n) == Fade(s, r, m) <==> s == 0.0 || r == 1.0 || (r == 0.0 && m > 0) || m == n
  {
    if s == 0.0 {
      FadeOfZero(r, m);
      FadeOfZero(r, n);
    } else if r == 1.0 {
      FadeAtOne(s, m);
      FadeAtOne(s, n);
    } else if r == 0.0 {
      FadeAtZero(s, m);
      FadeAtZero(s, n);
    } else {
      FadeStrict(s, r, m, n);
    }
  }

  /** Every run but the last found the memory without any age. */
  predicate EarlierRunsAgeless(createdAt: int, times: seq<int>)
    requires times != []
  {
    forall i :: 0 <= i < |times| - 1 ==> times[i] <= createdAt
  }

  lemma {:induction false} TotalAgeOfLast(createdAt: int, times: seq<int>)
    requires times != []
    ensures TotalAge(createdAt, times) >= Since(createdAt, times[|times| - 1])
    ensures TotalAge(createdAt, times) == Since(createdAt, times[|times| - 1]) <==>
            EarlierRunsAgeless(createdAt, times)
    decreases |times|
  {
    if |times| > 1 {
      TotalAgeOfLast(createdAt, times[1..]);
      assert EarlierRunsAgeless(createdAt, times) <==>
             times[0] <= createdAt && EarlierRunsAgeless(createdAt, times[1..]) by {
        assert times == [times[0]] + times[1..];
      }
    }
  }

  /** The documented law applies the age of the memory once.  Over any runs a survivor never
      exceeds it, and meets it exactly when there is nothing to lose (no strength, or no decay),
      when everything is lost at once, or when all runs but the last came before the memory had
      any age. */
  lemma DocumentedLawIff(store: Memories, times: seq<int>, c: Config, id: string)
    requires Sane(c) && id in store && Decayable(store[id]) && !Retrieved(store[id]) && store[id].strength >= 0.0
    requires times != [] && id in Runs(store, times, c)
    ensures var m, age := store[id], Since(store[id].createdAt, times[|times| - 1]);
            var actual, documented := Runs(store, times, c)[id].strength, Fade(m.strength, c.ratePerTick, age);
            && actual <= documented
            && (actual == documented <==>
                 m.strength == 0.0 || c.ratePerTick == 1.0 || (c.ratePerTick == 0.0 && age > 0)
                 || EarlierRunsAgeless(m.createdAt, times))
  {
    var m := store[id];
    DecayCompounds(store, times, c, id);
    TotalAgeOfLast(m.createdAt, times);
    FadeEqualIff(m.strength, c.ratePerTick, Since(m.createdAt, times[|times| - 1]), TotalAge(m.createdAt, times));
  }

  // --- daily runs ---------------------------------------------------------------

  /** The first `n` daily runs of a memory created at `createdAt`, from day `from` on. */
  function Daily(createdAt: int, day: nat, from: nat, n: nat): (r: seq<int>)
    ensures |r| == n && forall i :: 0 <= i < n ==> r[i] == createdAt + day * (from + i)
  {
    seq(n, i => createdAt + day * (from + i))
  }

  function Triangular(n: nat): nat {
    if n == 0 then 0 else n + Triangular(n - 1)
  }

  lemma {:induction false} TriangularClosedForm(n: nat)
    ensures Triangular(n) == n * (n + 1) / 2
  {
    if n > 0 {
      TriangularClosedForm(n - 1);
      assert n * (n + 1) == (n - 1) * n + 2 * n;
    }
  }

  lemma DailyTail(createdAt: int, day: nat, from: nat, n: nat)
    requires n > 0
    ensures Daily(createdAt, day, from, n)[1..] == Daily(createdAt, day, from + 1, n - 1)
    ensures Since(createdAt, Daily(createdAt, day, from, n)[0]) == day * from
  {
    MulMonotone(0, day, from);
    assert Daily(createdAt, day, from, n)[0] == createdAt + day * (from + 0);
  }

  lemma Distribute(a: int, b: int, c: int)
    ensures a * b + a * c == a * (b + c)
  {
  }

  lemma {:induction false} DailyTotalAge(createdAt: int, day: nat, from: nat, n: nat)
    requires from >= 1
    ensures Triangular(from + n - 1) >= Triangular(from - 1)
    ensures TotalAge(createdAt, Daily(createdAt, day, from, n))
         == day * (Triangular(from + n - 1) - Triangular(from - 1))
    decreases n
  {
    if n > 0 {
      DailyTotalAge(createdAt, day, from + 1, n - 1);
      DailyTail(createdAt, day, from, n);
      Distribute(day, from, Triangular(from + n - 1) - Triangular(from));
    }
  }

  /** `k` days at the rate per tick are `k` steps at the rate per day. */
  lemma {:induction false} FadeByDays(s: real, c: Config, k: nat)
    ensures c.day * k >= 0 && Fade(s, c.ratePerTick, c.day * k) == Fade(s, RatePerDay(c), k)
  {
    MulMonotone(0, k, c.day);
    if k > 0 {
      var before, r := Fade(s, RatePerDay(c), k - 1), c.ratePerTick;
      FadeByDays(s, c, k - 1);
      assert c.day * k == c.day * (k - 1) + c.day;
      FadeAdds(s, r, c.day * (k - 1), c.day);
      FadeIsPower(before, r, c.day);
    }
  }

  lemma {:induction false} PowBelowOne(r: real, n: nat)
    requires 0.0 <= r < 1.0 && n > 0
    ensures 0.0 <= Pow(r, n) < 1.0
  {
    var p, q := Pow(r, n - 1), Pow(r, n);
    assert q == r * p;
    if n > 1 {
      PowBelowOne(r, n - 1);
      ScaledDown(r, p, q);
    }
  }

  /** 1 + k(1 - r), as a sum. */
  function Harmonic(r: real, k: nat): (f: real)
    requires 0.0 <= r < 1.0
    ensures f >= 1.0
  {
    if k == 0 then 1.0 else Harmonic(r, k - 1) + (1.0 - r)
  }

  lemma RightScale(a: real, b: real, f: real)
    requires a <= b && f >= 0.0
    ensures a * f <= b * f
  {
  }

  lemma RightStrict(a: real, b: real, f: real)
    requires a < b && f > 0.0
    ensures a * f < b * f
  {
  }

  lemma AtMostInverse(x: real, y: real)
    requires y > 0.0
    ensures x * y <= 1.0 <==> x <= 1.0 / y
  {
    var q := 1.0 / y;
    assert q * y == 1.0;
    if x > q {
      RightStrict(q, x, y);
    } else {
      RightScale(x, q, y);
    }
  }

  lemma CrossTerms(r: real, h: real)
    requires 0.0 <= r < 1.0 && h >= 1.0
    ensures r * (h + (1.0 - r)) <= h
  {
    var a, b := 1.0 - r, h - r;
    assert a * b >= 0.0;
    assert a * b == h - r - r * h + r * r;
    assert r * (h + (1.0 - r)) == r * h + r - r * r;
  }

  lemma HarmonicStep(r: real, p: real, h: real)
    requires 0.0 <= r < 1.0 && p >= 0.0 && h >= 1.0 && p <= 1.0 / h
    ensures 0.0 <= r * p <= 1.0 / (h + (1.0 - r))
  {
    var g := h + (1.0 - r);
    var rg := r * g;
    CrossTerms(r, h);
    AtMostInverse(p, h);
    var ph := p * h;
    RightScale(rg, h, p);
    assert rg * p <= h * p;
    assert h * p == ph;
    assert (r * p) * g == rg * p;
    AtMostInverse(r * p, g);
  }

  /** Below a rate of one strengths fall at least harmonically. */
  lemma {:induction false} FadeHarmonic(s: real, r: real, k: nat)
    requires InUnit(s) && 0.0 <= r < 1.0
    ensures 0.0 <= Fade(s, r, k) <= 1.0 / Harmonic(r, k)
  {
    if k > 0 {
      var p, h := Fade(s, r, k - 1), Harmonic(r, k - 1);
      FadeHarmonic(s, r, k - 1);
      HarmonicStep(r, p, h);
      var q, g := Fade(s, r, k), Harmonic(r, k);
      assert q == r * p;
      assert g == h + (1.0 - r);
    }
  }

  lemma {:induction false} HarmonicClosedForm(r: real, k: nat)
    requires 0.0 <= r < 1.0
    ensures Harmonic(r, k) == 1.0 + k as real * (1.0 - r)
  {
    if k > 0 {
      HarmonicClosedForm(r, k - 1);
    }
  }

  lemma InverseBelow(t: real, f: real)
    requires t > 0.0 && f > 1.0 / t
    ensures 1.0 / f < t
  {
    var q, g := 1.0 / t, 1.0 / f;
    assert q * t == 1.0;
    assert g * f == 1.0;
    var ft := f * t;
    RightStrict(q, f, t);
    assert ft > 1.0;
    var fg := f * g;
    assert fg == 1.0;
    if g >= t {
      LeftScale(f, t, g);
    }
  }

  lemma LeftScale(f: real, a: real, b: real)
    requires a <= b && f >= 0.0
    ensures f * a <= f * b
  {
  }

  /** `n` daily runs certainly suffice. */
  ghost predicate Suffices(c: Config, n: nat)
    requires c.evictionThreshold > 0.0
  {
    n > 0 && 1.0 + (n * (n + 1) / 2) as real * (1.0 - RatePerDay(c)) > 1.0 / c.evictionThreshold
  }

  /** Eviction in a computable number of daily runs: `n` runs suffice as soon as
      1 + n(n+1)/2 * (1 - rate) exceeds 1 / threshold. */
  lemma EvictedWithin(store: Memories, c: Config, id: string, n: nat)
    requires Sane(c) && c.ratePerTick < 1.0 && c.evictionThreshold > 0.0
    requires id in store && Decayable(store[id]) && !Retrieved(store[id]) && InUnit(store[id].strength)
    requires Suffices(c, n)
    ensures id !in Runs(store, Daily(store[id].createdAt, c.day, 1, n), c)
  {
    var m, k, rate := store[id], Triangular(n), RatePerDay(c);
    var times := Daily(m.createdAt, c.day, 1, n);
    PowBelowOne(c.ratePerTick, c.day);
    TriangularClosedForm(n);
    HarmonicClosedForm(rate, k);
    FadeHarmonic(m.strength, rate, k);
    InverseBelow(c.evictionThreshold, Harmonic(rate, k));
    if id in Runs(store, times, c) {
      DailyTotalAge(m.createdAt, c.day, 1, n);
      DecayCompounds(store, times, c, id);
      FadeByDays(m.strength, c, k);
      SurvivorsAreStrong(store, times, c, id);
    }
  }

  lemma CoefficientGrows(n: nat)
    ensures n * (n + 1) / 2 >= n
  {
    TriangularClosedForm(n);
    TriangularGrows(n);
  }

  lemma QuotientBelow(x: real, y: real, n: real)
    requires y > 0.0 && n > x / y
    ensures n * y > x
  {
    var q := x / y;
    assert q * y == x;
    RightStrict(q, n, y);
  }

  /** Some number of runs always suffices. */
  lemma EnoughRunsExist(c: Config) returns (n: nat)
    requires Sane(c) && c.ratePerTick < 1.0 && c.evictionThreshold > 0.0
    ensures Suffices(c, n)
  {
    var lost, needed := 1.0 - RatePerDay(c), 1.0 / c.evictionThreshold;
    PowBelowOne(c.ratePerTick, c.day);
    var q := needed / lost;
    n := q.Floor + 1;
    QuotientBelow(needed, lost, n as real);
    CoefficientGrows(n);
    var k := n * (n + 1) / 2;
    RightScale(n as real, k as real, lost);
  }

  /** So no memory that is never retrieved outlives all daily runs. */
  lemma EvictionIsCertain(store: Memories, c: Config, id: string) returns (n: nat)
    requires Sane(c) && c.ratePerTick < 1.0 && c.evictionThreshold > 0.0
    requires id in store && Decayable(store[id]) && !Retrieved(store[id]) && InUnit(store[id].strength)
    ensures n > 0 && id !in Runs(store, Daily(store[id].createdAt, c.day, 1, n), c)
  {
    n := EnoughRunsExist(c);
    EvictedWithin(store, c, id, n);
  }

  // --- memories retrieved since they were created ---------------------------------

  /** The newest strength of a memory lies between 0 and 1 if the last one did. */
  lemma NewStrengthInUnit(m: Memory, now: int, c: Config)
    requires Sane(c) && InUnit(m.strength)
    ensures InUnit(Reinforced(m, c)) && InUnit(NewStrength(m, now, c))
    ensures NewStrength(m, now, c) == Fade(Reinforced(m, c), c.ratePerTick, Age(m, now))
  {
    FadeShrinks(Reinforced(m, c), c.ratePerTick, Age(m, now));
  }

  /** `n` days without a retrieval certainly suffice. */
  ghost predicate DaysSuffice(c: Config, n: nat)
    requires c.evictionThreshold > 0.0
  {
    1.0 + n as real * (1.0 - RatePerDay(c)) > 1.0 / c.evictionThreshold
  }

  lemma OldIsEvicted(m: Memory, now: int, c: Config, n: nat)
    requires Sane(c) && c.ratePerTick < 1.0 && c.evictionThreshold > 0.0
    requires Decayable(m) && InUnit(m.strength) && DaysSuffice(c, n) && Age(m, now) >= c.day * n
    ensures Evicted(m, now, c)
  {
    var s, rate := Reinforced(m, c), RatePerDay(c);
    NewStrengthInUnit(m, now, c);
    MulMonotone(0, c.day, n);
    FadeEqualIff(s, c.ratePerTick, c.day * n, Age(m, now));
    FadeByDays(s, c, n);
    PowBelowOne(c.ratePerTick, c.day);
    HarmonicClosedForm(rate, n);
    FadeHarmonic(s, rate, n);
    InverseBelow(c.evictionThreshold, Harmonic(rate, n));
  }

  /** Whatever its strength and however often the bonus was added, a memory is gone after any runs
      of which one came `n` days after its creation or last retrieval. */
  lemma {:induction false} OldMemoriesAreEvicted(store: Memories, times: seq<int>, c: Config, id: string, n: nat)
    requires Sane(c) && c.ratePerTick < 1.0 && c.evictionThreshold > 0.0 && DaysSuffice(c, n)
    requires id in store && Decayable(store[id]) && InUnit(store[id].strength)
    requires exists t :: t in times && Age(store[id], t) >= c.day * n
    ensures id !in Runs(store, times, c)
    decreases |times|
  {
    var m := store[id];
    if Age(m, times[0]) >= c.day * n {
      OldIsEvicted(m, times[0], c, n);
    }
    if id in After(store, times[0], c) {
      NewStrengthInUnit(m, times[0], c);
      var t :| t in times && Age(m, t) >= c.day * n;
      assert t in times[1..];
      assert Age(After(store, times[0], c)[id], t) == Age(m, t);
      OldMemoriesAreEvicted(After(store, times[0], c), times[1..], c, id, n);
    } else {
      GoneStaysGone(After(store, times[0], c), times[1..], c, id);
    }
  }

  /** Such a number of days exists for every configuration that decays at all, so only further
      retrievals keep a memory. */
  lemma OnlyRetrievalKeeps(c: Config) returns (n: nat)
    requires Sane(c) && c.ratePerTick < 1.0 && c.evictionThreshold > 0.0
    ensures forall store: Memories, times: seq<int>, id: string ::
      (id in store && Decayable(store[id]) && InUnit(store[id].strength)
       && (exists t :: t in times && Age(store[id], t) >= c.day * n)) ==> id !in Runs(store, times, c)
  {
    var lost, needed := 1.0 - RatePerDay(c), 1.0 / c.evictionThreshold;
    PowBelowOne(c.ratePerTick, c.day);
    n := (needed / lost).Floor + 1;
    QuotientBelow(needed, lost, n as real);
    forall store: Memories, times: seq<int>, id: string
      | id in store && Decayable(store[id]) && InUnit(store[id].strength)
        && exists t :: t in times && Age(store[id], t) >= c.day * n
      ensures id !in Runs(store, times, c)
    {
      OldMemoriesAreEvicted(store, times, c, id, n);
    }
  }

  lemma {:induction false} FadeOfMore(s: real, t: real, r: real, n: nat)
    requires r > 0.0 && s < t
    ensures Fade(s, r, n) < Fade(t, r, n)
  {
    if n > 0 {
      FadeOfMore(s, t, r, n - 1);
      StrictScale(r, Fade(s, r, n - 1), Fade(t, r, n - 1));
    }
  }

  lemma StrictScale(r: real, x: real, y: real)
    requires r > 0.0 && x < y
    ensures r * x < r * y
  {
  }

  /** A bonus in between makes a strict difference. */
  lemma BonusOutweighs(s: real, r: real, bonus: real, d: nat, rest: nat)
    requires InUnit(s) && 0.0 < r < 1.0 && bonus > 0.0 && d > 0
    ensures Fade(Min(1.0, Fade(s, r, d) + bonus), r, rest) > Fade(s, r, d + rest)
  {
    if s > 0.0 {
      FadeStrict(s, r, 0, d);
    } else {
      FadeOfZero(r, d);
    }
    var s1 := Fade(s, r, d);
    FadeOfMore(s1, Min(1.0, s1 + bonus), r, rest);
    FadeAdds(s, r, d, rest);
  }

  /** The bonus is documented as added each time a memory is retrieved.  The code adds it again in
      every run after the retrieval: a survivor is stronger than one bonus accounts for, from the
      second run on. */
  lemma {:induction false} BonusRepeats(store: Memories, times: seq<int>, c: Config, id: string)
    requires Sane(c) && 0.0 < c.ratePerTick < 1.0 && c.reinforcement > 0.0
    requires id in store && Decayable(store[id]) && Retrieved(store[id]) && InUnit(store[id].strength)
    requires times != [] && forall t :: t in times ==> t > store[id].lastRetrieved.value
    requires id in Runs(store, times, c)
    ensures var actual, base := Runs(store, times, c)[id].strength, store[id].lastRetrieved.value;
            var once := Fade(Min(1.0, store[id].strength + c.reinforcement), c.ratePerTick, TotalAge(base, times));
            actual >= once && (actual == once <==> |times| == 1)
    decreases |times|
  {
    var m, r := store[id], c.ratePerTick;
    var base, s := m.lastRetrieved.value, Reinforced(m, c);
    var d, rest := Since(base, times[0]), TotalAge(base, times[1..]);
    NewStrengthInUnit(m, times[0], c);
    if id !in After(store, times[0], c) {
      GoneStaysGone(After(store, times[0], c), times[1..], c, id);
    } else if |times| > 1 {
      var m1 := After(store, times[0], c)[id];
      assert times[0] in times && d > 0;
      assert forall t :: t in times[1..] ==> t in times;
      BonusRepeats(After(store, times[0], c), times[1..], c, id);
      assert m1.strength == Fade(s, r, d);
      BonusOutweighs(s, r, c.reinforcement, d, rest);
    }
  }

  lemma {:induction false} SurvivorsAreStrong(store: Memories, times: seq<int>, c: Config, id: string)
    requires id in store && Decayable(store[id]) && times != [] && id in Runs(store, times, c)
    ensures Runs(store, times, c)[id].strength >= c.evictionThreshold
    decreases |times|
  {
    if id in After(store, times[0], c) {
      if |times| > 1 {
        SurvivorsAreStrong(After(store, times[0], c), times[1..], c, id);
      }
    } else {
      GoneStaysGone(After(store, times[0], c), times[1..], c, id);
    }
  }

  lemma {:induction false} TriangularGrows(n: nat)
    ensures Triangular(n) >= n
  {
    if n > 0 {
      TriangularGrows(n - 1);
    }
  }

  /** With daily runs the code agrees with the documented law on the first run only: from the
      second on a survivor is strictly weaker. */
  lemma DailyRunsOverDecay(store: Memories, c: Config, id: string, n: nat)
    requires Sane(c) && 0.0 < c.ratePerTick < 1.0 && n > 0
    requires id in store && Decayable(store[id]) && !Retrieved(store[id]) && store[id].strength > 0.0
    requires id in Runs(store, Daily(store[id].createdAt, c.day, 1, n), c)
    ensures var actual := Runs(store, Daily(store[id].createdAt, c.day, 1, n), c)[id].strength;
            var documented := Fade(store[id].strength, RatePerDay(c), n);
            actual <= documented && (actual == documented <==> n == 1)
  {
    var m := store[id];
    var times := Daily(m.createdAt, c.day, 1, n);
    DocumentedLawIff(store, times, c, id);
    FadeByDays(m.strength, c, n);
    assert times[n - 1] == m.createdAt + c.day * n;
    if n > 1 {
      assert times[0] == m.createdAt + c.day * 1;
      assert times[0] > m.createdAt;
    }
  }

  // --- a run in the rows' own fields ----------------------------------------------

  lemma StrengthInFields(m: Memory, now: int, c: Config, base: int, s: real, faded: real)
    requires Sane(c) && m.strength >= 0.0
    requires var retrieved := m.lastRetrieved.Some? && m.lastRetrieved.value > m.createdAt;
      && base == (if retrieved then m.lastRetrieved.value else m.createdAt)
      && s == if !retrieved then m.strength
              else if m.strength + c.reinforcement > 1.0 then 1.0 else m.strength + c.reinforcement
    requires faded == s * Pow(c.ratePerTick, if now > base then now - base else 0)
    ensures NewStrength(m, now, c) == faded
  {
    var age := if now > base then now - base else 0;
    assert Reinforced(m, c) == s && Age(m, now) == age;
    FadeShrinks(s, c.ratePerTick, age);
    FadeIsPower(s, c.ratePerTick, age);
  }

  /** Memories of other tiers, written by users or superseded are left alone; any other is scaled by
      the rate to its age, after the bonus if it was retrieved since it was created, and goes exactly
      when that is below the threshold. */
  lemma RunInFields(store: Memories, now: int, c: Config, id: string, base: int, s: real, faded: real)
    requires Sane(c) && id in store && store[id].strength >= 0.0
    requires var m := store[id];
      var retrieved := m.lastRetrieved.Some? && m.lastRetrieved.value > m.createdAt;
      && base == (if retrieved then m.lastRetrieved.value else m.createdAt)
      && s == if !retrieved then m.strength
              else if m.strength + c.reinforcement > 1.0 then 1.0 else m.strength + c.reinforcement
    requires faded == s * Pow(c.ratePerTick, if now > base then now - base else 0)
    ensures var m, after := store[id], After(store, now, c);
      if (m.tier != "semantic" && m.tier != "procedural") || m.provenance == "user" || !m.isLatest
      then id in after && after[id] == m
      else && (id in after <==> faded >= c.evictionThreshold)
           && (id in after ==> after[id] == m.(strength := faded))
  {
    StrengthInFields(store[id], now, c, base, s, faded);
  }
}

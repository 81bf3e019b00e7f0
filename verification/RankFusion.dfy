/**
 Reciprocal rank fusion and the pipeline around it: provenance and recency boosts,
 reranking, the diversity cap and the final limit.

 Scores are reals; rounding is not modelled.
 */
module RankFusion {
  import opened Common

  datatype Hit = Hit(id: string, score: real)

  ghost predicate Distinct(hits: seq<Hit>) {
    forall i, j :: 0 <= i < j < |hits| ==> hits[i].id != hits[j].id
  }

  ghost predicate Occurs(hits: seq<Hit>, id: string) {
    exists h :: h in hits && h.id == id
  }

  // ---------------------------------------------------------------------------
  // Stable sorting by descending score
  // ---------------------------------------------------------------------------

  /** A new hit goes behind everything that scores at least as much. */
  function Insert(sorted: seq<Hit>, h: Hit): seq<Hit> {
    if sorted == [] then [h]
    else if sorted[0].score >= h.score then [sorted[0]] + Insert(sorted[1..], h)
    else [h] + sorted
  }

  /** The library's stable sort, higher scores first. */
  function StableSorted(hits: seq<Hit>): seq<Hit> {
    if hits == [] then [] else Insert(StableSorted(hits[..|hits| - 1]), hits[|hits| - 1])
  }

  ghost predicate Descending(hits: seq<Hit>) {
    forall i, j :: 0 <= i < j < |hits| ==> hits[i].score >= hits[j].score
  }

  ghost predicate Before(hits: seq<Hit>, a: Hit, b: Hit) {
    exists i, j :: 0 <= i < j < |hits| && hits[i] == a && hits[j] == b
  }

  /** Where the new hit lands. */
  lemma {:induction false} Place(sorted: seq<Hit>, h: Hit) returns (p: nat)
    ensures p <= |sorted| && Insert(sorted, h) == sorted[..p] + [h] + sorted[p..]
    ensures p > 0 ==> sorted[p - 1].score >= h.score
    ensures p < |sorted| ==> sorted[p].score < h.score
  {
    p := 0;
    if sorted != [] && sorted[0].score >= h.score {
      var q := Place(sorted[1..], h);
      Shift(sorted, h, q);
      p := q + 1;
    }
  }

  lemma Shift(sorted: seq<Hit>, h: Hit, q: nat)
    requires q < |sorted|
    ensures [sorted[0]] + (sorted[1..][..q] + [h] + sorted[1..][q..]) == sorted[..q + 1] + [h] + sorted[q + 1..]
    ensures q > 0 ==> sorted[1..][q - 1] == sorted[q]
  {
    assert [sorted[0]] + sorted[1..][..q] == sorted[..q + 1];
    assert sorted[1..][q..] == sorted[q + 1..];
  }

  lemma SpliceSorts(sorted: seq<Hit>, h: Hit, p: nat)
    requires Descending(sorted) && p <= |sorted|
    requires (p > 0 ==> sorted[p - 1].score >= h.score) && (p < |sorted| ==> sorted[p].score < h.score)
    ensures Descending(sorted[..p] + [h] + sorted[p..])
  {
    var r := sorted[..p] + [h] + sorted[p..];
    forall i, j | 0 <= i < j < |r| ensures r[i].score >= r[j].score {
      assert i < p ==> sorted[i].score >= sorted[p - 1].score;
      assert j > p ==> sorted[p].score >= sorted[j - 1].score;
    }
  }

  lemma InsertSorts(sorted: seq<Hit>, h: Hit)
    requires Descending(sorted)
    ensures Descending(Insert(sorted, h))
  {
    var p := Place(sorted, h);
    SpliceSorts(sorted, h, p);
  }

  lemma {:induction false} InsertPermutes(sorted: seq<Hit>, h: Hit)
    ensures multiset(Insert(sorted, h)) == multiset(sorted) + multiset{h}
  {
    var p := Place(sorted, h);
    assert sorted == sorted[..p] + sorted[p..];
  }

  lemma {:induction false} SortSorts(hits: seq<Hit>)
    ensures Descending(StableSorted(hits)) && multiset(StableSorted(hits)) == multiset(hits)
    decreases |hits|
  {
    if hits != [] {
      var init, last := hits[..|hits| - 1], hits[|hits| - 1];
      assert hits == init + [last];
      SortSorts(init);
      InsertSorts(StableSorted(init), last);
      InsertPermutes(StableSorted(init), last);
    }
  }

  lemma SpliceKeepsOrder(sorted: seq<Hit>, h: Hit, p: nat, a: Hit, b: Hit)
    requires p <= |sorted| && Before(sorted, a, b)
    ensures Before(sorted[..p] + [h] + sorted[p..], a, b)
  {
    var i, j :| 0 <= i < j < |sorted| && sorted[i] == a && sorted[j] == b;
    var r := sorted[..p] + [h] + sorted[p..];
    var i', j' := if i < p then i else i + 1, if j < p then j else j + 1;
    assert r[i'] == a && r[j'] == b;
  }

  lemma InsertKeepsOrder(sorted: seq<Hit>, h: Hit, a: Hit, b: Hit)
    requires Before(sorted, a, b)
    ensures Before(Insert(sorted, h), a, b)
  {
    var p := Place(sorted, h);
    SpliceKeepsOrder(sorted, h, p, a, b);
  }

  lemma BehindPlace(sorted: seq<Hit>, h: Hit, p: nat, i: nat)
    requires Descending(sorted) && i < |sorted| && sorted[i].score >= h.score
    requires p < |sorted| ==> sorted[p].score < h.score
    ensures i < p
  {
  }

  lemma InsertLandsBehind(sorted: seq<Hit>, h: Hit, a: Hit)
    requires Descending(sorted) && a in sorted && a.score >= h.score
    ensures Before(Insert(sorted, h), a, h)
  {
    var i :| 0 <= i < |sorted| && sorted[i] == a;
    var p := Place(sorted, h);
    BehindPlace(sorted, h, p, i);
    assert Insert(sorted, h)[i] == a && Insert(sorted, h)[p] == h;
  }

  lemma StableStep(init: seq<Hit>, sorted: seq<Hit>, last: Hit, a: Hit, b: Hit)
    requires Descending(sorted) && multiset(sorted) == multiset(init)
    requires Before(init + [last], a, b) && a.score >= b.score
    requires Before(init, a, b) ==> Before(sorted, a, b)
    ensures Before(Insert(sorted, last), a, b)
  {
    var hits := init + [last];
    var i, j :| 0 <= i < j < |hits| && hits[i] == a && hits[j] == b;
    if j < |init| {
      assert init[i] == a && init[j] == b;
      InsertKeepsOrder(sorted, last, a, b);
    } else {
      assert init[i] == a;
      assert a in multiset(sorted);
      InsertLandsBehind(sorted, b, a);
    }
  }

  /** The sort never swaps two hits unless the later one scores strictly higher. */
  lemma {:induction false} SortIsStable(hits: seq<Hit>, a: Hit, b: Hit)
    requires Before(hits, a, b) && a.score >= b.score
    ensures Before(StableSorted(hits), a, b)
    decreases |hits|
  {
    var init, last := hits[..|hits| - 1], hits[|hits| - 1];
    assert hits == init + [last];
    if Before(init, a, b) {
      SortIsStable(init, a, b);
    }
    SortSorts(init);
    StableStep(init, StableSorted(init), last, a, b);
  }

  lemma SortKeepsIds(hits: seq<Hit>)
    ensures forall h :: h in StableSorted(hits) <==> h in hits
    ensures Distinct(hits) ==> Distinct(StableSorted(hits))
    ensures |StableSorted(hits)| == |hits|
  {
    SortSorts(hits);
    forall h ensures h in StableSorted(hits) <==> h in hits {
      assert h in multiset(StableSorted(hits)) <==> h in multiset(hits);
    }
    assert |multiset(StableSorted(hits))| == |multiset(hits)|;
    if Distinct(hits) {
      PermutedDistinct(hits, StableSorted(hits));
    }
  }

  lemma PermutedDistinct(a: seq<Hit>, b: seq<Hit>)
    requires Distinct(a) && multiset(a) == multiset(b)
    ensures Distinct(b)
  {
    forall i, j | 0 <= i < j < |b| ensures b[i].id != b[j].id {
      if b[i].id == b[j].id {
        assert b[i] in multiset(b) && b[j] in multiset(b);
        assert b[i] in a && b[j] in a;
        assert b[i] == b[j];
        TwiceCounted(b, i, j);
        OnceCounted(a, b[i]);
      }
    }
  }

  lemma TwiceCounted(b: seq<Hit>, i: nat, j: nat)
    requires i < j < |b| && b[i] == b[j]
    ensures multiset(b)[b[i]] >= 2
  {
    assert b == b[..j] + [b[j]] + b[j + 1..];
    assert b[i] in b[..j];
    assert b[i] in multiset(b[..j]);
  }

  lemma {:induction false} OnceCounted(a: seq<Hit>, h: Hit)
    requires Distinct(a)
    ensures multiset(a)[h] <= 1
    decreases |a|
  {
    if a != [] {
      var n := |a| - 1;
      assert a == a[..n] + [a[n]];
      OnceCounted(a[..n], h);
      assert h in multiset(a[..n]) <==> h in a[..n];
    }
  }

  // ---------------------------------------------------------------------------
  // Fusion
  // ---------------------------------------------------------------------------

  const DEFAULT_K := 60

  function K(k: int): (r: int)
    ensures r > 0
  {
    if k <= 0 then DEFAULT_K else k
  }

  /** The share of the hit at (0-based) `rank`. */
  function Share(k: int, rank: nat): real
    requires k > 0
  {
    1.0 / (k + rank + 1) as real
  }

  function ListScore(k: int, list: seq<Hit>, id: string): real
    requires k > 0
  {
    if list == [] then 0.0
    else
      var n := |list| - 1;
      ListScore(k, list[..n], id) + if list[n].id == id then Share(k, n) else 0.0
  }

  function Score(k: int, lists: seq<seq<Hit>>, id: string): real
    requires k > 0
  {
    if lists == [] then 0.0
    else Score(k, lists[..|lists| - 1], id) + ListScore(k, lists[|lists| - 1], id)
  }

  ghost predicate Listed(lists: seq<seq<Hit>>, id: string) {
    exists l :: l in lists && Occurs(l, id)
  }

  /** Each listed id once, with its fused score, best first. */
  ghost predicate IsFusion(k: int, lists: seq<seq<Hit>>, out: seq<Hit>)
    requires k > 0
  {
    && Distinct(out) && Descending(out)
    && (forall id :: Occurs(out, id) <==> Listed(lists, id))
    && (forall h :: h in out ==> h.score == Score(k, lists, h.id))
  }

  /** The scores gathered from complete lists and part of one more. */
  ghost predicate Gathered(k: int, lists: seq<seq<Hit>>, part: seq<Hit>, scores: map<string, real>)
    requires k > 0
  {
    && (forall id :: id in scores <==> Listed(lists, id) || Occurs(part, id))
    && (forall id :: id in scores ==> scores[id] == Score(k, lists, id) + ListScore(k, part, id))
  }

  lemma {:induction false} UnlistedScoresZero(k: int, lists: seq<seq<Hit>>, id: string)
    requires k > 0 && !Listed(lists, id)
    ensures Score(k, lists, id) == 0.0
    decreases |lists|
  {
    if lists != [] {
      var n := |lists| - 1;
      assert lists[n] in lists;
      AbsentScoresZero(k, lists[n], id);
      assert !Listed(lists[..n], id);
      UnlistedScoresZero(k, lists[..n], id);
    }
  }

  lemma {:induction false} AbsentScoresZero(k: int, list: seq<Hit>, id: string)
    requires k > 0 && !Occurs(list, id)
    ensures ListScore(k, list, id) == 0.0
    decreases |list|
  {
    if list != [] {
      assert list[|list| - 1] in list;
      assert !Occurs(list[..|list| - 1], id);
      AbsentScoresZero(k, list[..|list| - 1], id);
    }
  }

  lemma GatherOneMore(k: int, lists: seq<seq<Hit>>, list: seq<Hit>, i: nat, scores: map<string, real>)
    requires k > 0 && i < |list| && Gathered(k, lists, list[..i], scores)
    ensures var id := list[i].id;
            var old' := if id in scores then scores[id] else 0.0;
            Gathered(k, lists, list[..i + 1], scores[id := old' + Share(k, i)])
  {
    var id := list[i].id;
    assert list[..i + 1] == list[..i] + [list[i]];
    assert list[..i + 1][..i] == list[..i];
    forall x ensures Occurs(list[..i + 1], x) <==> Occurs(list[..i], x) || x == id {
      if x == id {
        assert list[i] in list[..i + 1];
      }
      if h :| h in list[..i] && h.id == x {
        assert h in list[..i + 1];
      }
    }
    if id !in scores {
      UnlistedScoresZero(k, lists, id);
      AbsentScoresZero(k, list[..i], id);
    }
  }

  lemma ListedAppend(lists: seq<seq<Hit>>, list: seq<Hit>, id: string)
    ensures Listed(lists + [list], id) <==> Listed(lists, id) || Occurs(list, id)
  {
    if Occurs(list, id) {
      assert list in lists + [list];
    }
    if l :| l in lists && Occurs(l, id) {
      assert l in lists + [list];
    }
  }

  lemma GatherNextList(k: int, lists: seq<seq<Hit>>, i: nat, scores: map<string, real>)
    requires k > 0 && i < |lists| && Gathered(k, lists[..i], lists[i], scores)
    ensures Gathered(k, lists[..i + 1], [], scores)
  {
    assert lists[..i + 1][..i] == lists[..i];
    forall id ensures Listed(lists[..i + 1], id) <==> Listed(lists[..i], id) || Occurs(lists[i], id) {
      ListedAppend(lists[..i], lists[i], id);
      assert lists[..i + 1] == lists[..i] + [lists[i]];
    }
  }

  method GatherScores(k: int, lists: seq<seq<Hit>>) returns (scores: map<string, real>)
    requires k > 0
    ensures Gathered(k, lists, [], scores)
  {
    scores := map[];
    for i := 0 to |lists|
      invariant Gathered(k, lists[..i], [], scores)
    {
      var list := lists[i];
      assert list[..0] == [];
      for rank := 0 to |list|
        invariant Gathered(k, lists[..i], list[..rank], scores)
      {
        GatherOneMore(k, lists[..i], list, rank, scores);
        var h := list[rank];
        scores := scores[h.id := (if h.id in scores then scores[h.id] else 0.0) + 1.0 / (k + rank + 1) as real];
      }
      assert list[..|list|] == list;
      GatherNextList(k, lists, i, scores);
    }
    assert lists[..|lists|] == lists;
  }

  /** The hits of a score map, in whatever order the map is iterated. */
  method HitsOf(scores: map<string, real>) returns (out: seq<Hit>)
    ensures Distinct(out) && forall h :: h in out <==> h.id in scores && scores[h.id] == h.score
  {
    out := [];
    var todo := scores.Keys;
    while todo != {}
      invariant todo <= scores.Keys && Distinct(out)
      invariant forall h :: h in out <==> h.id in scores && h.id !in todo && scores[h.id] == h.score
      decreases |todo|
    {
      var id :| id in todo;
      forall i | 0 <= i < |out| ensures out[i].id != id {
        assert out[i] in out;
      }
      out := out + [Hit(id, scores[id])];
      todo := todo - {id};
    }
  }

  method RrfFuse(k: int, lists: seq<seq<Hit>>) returns (out: seq<Hit>)
    ensures IsFusion(K(k), lists, out)
  {
    var k' := k;
    if k' <= 0 {
      k' := 60;
    }
    var scores := GatherScores(k', lists);
    var hits := HitsOf(scores);
    SortSorts(hits);
    SortKeepsIds(hits);
    out := StableSorted(hits);
    forall id ensures Occurs(out, id) <==> Listed(lists, id) {
      if Listed(lists, id) {
        assert Hit(id, scores[id]) in out;
      }
    }
  }

  // --- fused scores -----------------------------------------------------------

  lemma {:induction false} ScoreRemovesList(k: int, lists: seq<seq<Hit>>, i: nat, id: string)
    requires k > 0 && i < |lists|
    ensures Score(k, lists, id) == Score(k, lists[..i] + lists[i + 1..], id) + ListScore(k, lists[i], id)
    decreases |lists|
  {
    var n := |lists| - 1;
    if i == n {
      assert lists[..i] + lists[i + 1..] == lists[..n];
    } else {
      ScoreRemovesList(k, lists[..n], i, id);
      var rest := lists[..i] + lists[i + 1..];
      assert rest[..n - 1] == lists[..n][..i] + lists[..n][i + 1..];
      assert rest[n - 1] == lists[n];
    }
  }

  /** The order of the lists does not matter. */
  lemma {:induction false} ListOrderIsIrrelevant(k: int, a: seq<seq<Hit>>, b: seq<seq<Hit>>, id: string)
    requires k > 0 && multiset(a) == multiset(b)
    ensures Score(k, a, id) == Score(k, b, id)
    decreases |a|
  {
    if a == [] {
      assert |multiset(b)| == |b|;
    } else {
      var n := |a| - 1;
      assert a == a[..n] + [a[n]];
      assert multiset(a) == multiset(a[..n]) + multiset{a[n]};
      var i := FindElement(a[..n], a[n], b);
      ListOrderIsIrrelevant(k, a[..n], b[..i] + b[i + 1..], id);
      ScoreRemovesList(k, b, i, id);
    }
  }

  /** Position `i` of the list holds `id`. */
  predicate RankedAt(list: seq<Hit>, id: string, i: int) {
    0 <= i < |list| && list[i].id == id
  }

  lemma {:induction false} UniqueRankScore(k: int, list: seq<Hit>, id: string, i: nat)
    requires k > 0 && Distinct(list) && RankedAt(list, id, i)
    ensures ListScore(k, list, id) == Share(k, i)
    decreases |list|
  {
    var n := |list| - 1;
    if i == n {
      forall h | h in list[..n] ensures h.id != id {
      }
      AbsentScoresZero(k, list[..n], id);
    } else {
      UniqueRankScore(k, list[..n], id, i);
    }
  }

  lemma ShareDecreases(k: int, i: nat, j: nat)
    requires k > 0 && i < j
    ensures Share(k, i) > Share(k, j) > 0.0
  {
    var x, y := (k + i + 1) as real, (k + j + 1) as real;
    assert 0.0 < x < y;
    assert 1.0 / x - 1.0 / y == (y - x) / (x * y);
    assert x * y > 0.0;
  }

  /** Wherever `e` is ranked, `d` is ranked ahead of it. */
  ghost predicate Outranks(list: seq<Hit>, d: string, e: string) {
    forall j :: RankedAt(list, e, j) ==> exists i :: RankedAt(list, d, i) && i < j
  }

  lemma OutrankedScoresLess(k: int, list: seq<Hit>, d: string, e: string)
    requires k > 0 && Distinct(list) && Outranks(list, d, e)
    ensures ListScore(k, list, d) >= ListScore(k, list, e)
    ensures Occurs(list, e) ==> ListScore(k, list, d) > ListScore(k, list, e)
  {
    if Occurs(list, e) {
      var h :| h in list && h.id == e;
      var j :| 0 <= j < |list| && list[j] == h;
      assert RankedAt(list, e, j);
      var i :| RankedAt(list, d, i) && i < j;
      UniqueRankScore(k, list, d, i);
      UniqueRankScore(k, list, e, j);
      ShareDecreases(k, i, j);
    } else {
      AbsentScoresZero(k, list, e);
      ListScoreNonNegative(k, list, d);
    }
  }

  lemma {:induction false} ListScoreNonNegative(k: int, list: seq<Hit>, id: string)
    requires k > 0
    ensures ListScore(k, list, id) >= 0.0
    decreases |list|
  {
    if list != [] {
      ListScoreNonNegative(k, list[..|list| - 1], id);
      ShareDecreases(k, |list| - 1, |list|);
    }
  }

  /** Dominance: ranked ahead in every list that has the other, a hit scores strictly higher. */
  lemma {:induction false} DominanceScoresHigher(k: int, lists: seq<seq<Hit>>, d: string, e: string)
    requires k > 0 && forall l :: l in lists ==> Distinct(l) && Outranks(l, d, e)
    ensures Score(k, lists, d) >= Score(k, lists, e)
    ensures Listed(lists, e) ==> Score(k, lists, d) > Score(k, lists, e)
    decreases |lists|
  {
    if lists != [] {
      var n := |lists| - 1;
      assert lists[n] in lists;
      DominanceScoresHigher(k, lists[..n], d, e);
      OutrankedScoresLess(k, lists[n], d, e);
      ListedAppend(lists[..n], lists[n], e);
      assert lists == lists[..n] + [lists[n]];
    }
  }

  // ---------------------------------------------------------------------------
  // Boosts
  // ---------------------------------------------------------------------------

  function ProvenanceBoost(p: string): (r: real)
    ensures r > 0.0
  {
    if p == "user" then 2.0
    else if p == "extracted" then 1.0
    else if p == "episodic" then 0.7
    else 1.0
  }

  /** `decay` stands for the exponential: age over half-life to a positive factor. */
  function RecencyBoost(age: real, weight: real, halfLife: real, decay: real -> real): real {
    if weight <= 0.0 then 1.0
    else
      var h := if halfLife <= 0.0 then 7.0 else halfLife;
      1.0 + weight * decay((if age < 0.0 then 0.0 else age) / h)
  }

  ghost predicate IsDecay(decay: real -> real) {
    && (forall x :: decay(x) > 0.0)
    && (forall x, y :: x <= y ==> decay(x) >= decay(y))
  }

  /** Recency never hurts, and the younger hit gets at least the factor of the older one. */
  lemma RecencyFavoursYoung(age: real, older: real, weight: real, halfLife: real, decay: real -> real)
    requires IsDecay(decay) && age <= older
    ensures RecencyBoost(age, weight, halfLife, decay) >= RecencyBoost(older, weight, halfLife, decay) >= 1.0
  {
    if weight > 0.0 {
      var h := if halfLife <= 0.0 then 7.0 else halfLife;
      var x, y := (if age < 0.0 then 0.0 else age), (if older < 0.0 then 0.0 else older);
      QuotientMonotone(x, y, h);
      ProductMonotone(decay(y / h), decay(x / h), weight);
    }
  }

  lemma QuotientMonotone(x: real, y: real, h: real)
    requires x <= y && h > 0.0
    ensures x / h <= y / h
  {
    assert y / h - x / h == (y - x) / h;
  }

  lemma ProductMonotone(x: real, y: real, m: real)
    requires 0.0 <= x <= y && m >= 0.0
    ensures 0.0 <= x * m <= y * m
  {
  }

  function Factor(factors: map<string, real>, id: string): real {
    if id in factors then factors[id] else 1.0
  }

  function Boosted(hits: seq<Hit>, factors: map<string, real>): (r: seq<Hit>)
    ensures |r| == |hits|
  {
    seq(|hits|, i requires 0 <= i < |hits| => Hit(hits[i].id, hits[i].score * Factor(factors, hits[i].id)))
  }

  /** Scales every score and sorts again. */
  method BoostAndSort(hits: seq<Hit>, factors: map<string, real>) returns (out: seq<Hit>)
    ensures out == StableSorted(Boosted(hits, factors))
  {
    var scaled := hits;
    for i := 0 to |hits|
      invariant |scaled| == |hits|
      invariant forall j :: 0 <= j < i ==> scaled[j] == Boosted(hits, factors)[j]
      invariant forall j :: i <= j < |hits| ==> scaled[j] == hits[j]
    {
      if scaled[i].id in factors {
        scaled := scaled[i := scaled[i].(score := scaled[i].score * factors[scaled[i].id])];
      }
    }
    assert scaled == Boosted(hits, factors);
    out := StableSorted(scaled);
  }

  function Scaled(h: Hit, factors: map<string, real>): Hit {
    Hit(h.id, h.score * Factor(factors, h.id))
  }

  lemma BoostedBefore(hits: seq<Hit>, factors: map<string, real>, a: Hit, b: Hit)
    requires Before(hits, a, b)
    ensures Before(Boosted(hits, factors), Scaled(a, factors), Scaled(b, factors))
  {
    var i, j :| 0 <= i < j < |hits| && hits[i] == a && hits[j] == b;
    var boosted := Boosted(hits, factors);
    assert boosted[i] == Scaled(a, factors) && boosted[j] == Scaled(b, factors);
  }

  lemma ScaledScores(factors: map<string, real>, a: Hit, b: Hit)
    requires a.score >= b.score >= 0.0 && Factor(factors, a.id) == Factor(factors, b.id) > 0.0
    ensures Scaled(a, factors).score >= Scaled(b, factors).score >= 0.0
  {
    ProductMonotone(b.score, a.score, Factor(factors, a.id));
  }

  /** Two hits with the same positive factor keep their order through a boost. */
  lemma EqualFactorsKeepOrder(hits: seq<Hit>, factors: map<string, real>, a: Hit, b: Hit)
    requires Before(hits, a, b) && a.score >= b.score >= 0.0
    requires Factor(factors, a.id) == Factor(factors, b.id) > 0.0
    ensures Before(StableSorted(Boosted(hits, factors)), Scaled(a, factors), Scaled(b, factors))
    ensures Scaled(a, factors).score >= Scaled(b, factors).score >= 0.0
  {
    var a', b' := Scaled(a, factors), Scaled(b, factors);
    BoostedBefore(hits, factors, a, b);
    ScaledScores(factors, a, b);
    SortIsStable(Boosted(hits, factors), a', b');
  }

  lemma BoostKeepsIds(hits: seq<Hit>, factors: map<string, real>)
    ensures var out := StableSorted(Boosted(hits, factors));
            (Distinct(hits) ==> Distinct(out)) && forall id :: Occurs(out, id) <==> Occurs(hits, id)
  {
    var boosted := Boosted(hits, factors);
    SortKeepsIds(boosted);
    forall id ensures Occurs(StableSorted(boosted), id) <==> Occurs(hits, id) {
      if Occurs(hits, id) {
        var h :| h in hits && h.id == id;
        var i :| 0 <= i < |hits| && hits[i] == h;
        assert boosted[i].id == id && boosted[i] in boosted;
      }
      if Occurs(StableSorted(boosted), id) {
        var h :| h in StableSorted(boosted) && h.id == id;
        var i :| 0 <= i < |boosted| && boosted[i] == h;
        assert hits[i].id == id && hits[i] in hits;
      }
    }
  }

  // ---------------------------------------------------------------------------
  // Diversity
  // ---------------------------------------------------------------------------

  /** How many of the hits belong to group `g`. */
  function InGroup(hits: seq<Hit>, group: string -> string, g: string): nat {
    if hits == [] then 0
    else InGroup(hits[..|hits| - 1], group, g) + if group(hits[|hits| - 1].id) == g then 1 else 0
  }

  /** The hits preceded by fewer than `cap` hits of the same non-empty group. */
  function Diverse(hits: seq<Hit>, cap: int, group: string -> string): seq<Hit> {
    if hits == [] then []
    else
      var init, h := hits[..|hits| - 1], hits[|hits| - 1];
      var g := group(h.id);
      Diverse(init, cap, group) + if g == "" || InGroup(init, group, g) < cap then [h] else []
  }

  function Min(a: int, b: int): int {
    if a < b then a else b
  }

  /** What is kept of a group is all of it up to the cap. */
  lemma {:induction false} DiverseGroupSize(hits: seq<Hit>, cap: int, group: string -> string, g: string)
    requires cap > 0 && g != ""
    ensures InGroup(Diverse(hits, cap, group), group, g) == Min(InGroup(hits, group, g), cap)
    decreases |hits|
  {
    if hits != [] {
      var init, h := hits[..|hits| - 1], hits[|hits| - 1];
      DiverseGroupSize(init, cap, group, g);
      assert (Diverse(init, cap, group) + [h])[..|Diverse(init, cap, group)|] == Diverse(init, cap, group);
      assert Diverse(init, cap, group) + [] == Diverse(init, cap, group);
    }
  }

  method DiversityBoost(hits: seq<Hit>, perGroup: int, group: Option<string -> string>) returns (out: seq<Hit>)
    ensures out == if perGroup <= 0 || group.None? then hits else Diverse(hits, perGroup, group.value)
  {
    if perGroup <= 0 || group.None? {
      return hits;
    }
    var count: map<string, int> := map[];
    out := [];
    for i := 0 to |hits|
      invariant out == Diverse(hits[..i], perGroup, group.value)
      invariant forall g :: g in count && g != "" ==> count[g] == InGroup(out, group.value, g)
      invariant forall g :: g !in count && g != "" ==> InGroup(out, group.value, g) == 0
    {
      var h := hits[i];
      var g := group.value(h.id);
      var seen := if g in count then count[g] else 0;
      assert hits[..i + 1][..i] == hits[..i];
      if g != "" {
        DiverseGroupSize(hits[..i], perGroup, group.value, g);
      }
      assert (out + [h])[..|out|] == out;
      if g == "" || seen < perGroup {
        out := out + [h];
        count := count[g := seen + 1];
      }
    }
    assert hits[..|hits|] == hits;
  }

  /** No non-empty group exceeds the cap. */
  lemma DiverseIsCapped(hits: seq<Hit>, cap: int, group: string -> string, g: string)
    requires cap > 0 && g != ""
    ensures InGroup(Diverse(hits, cap, group), group, g) <= cap
  {
    DiverseGroupSize(hits, cap, group, g);
  }

  /** Capping twice is capping once. */
  lemma {:induction false} DiverseIsIdempotent(hits: seq<Hit>, cap: int, group: string -> string)
    requires cap > 0
    ensures Diverse(Diverse(hits, cap, group), cap, group) == Diverse(hits, cap, group)
    decreases |hits|
  {
    if hits != [] {
      var init, h := hits[..|hits| - 1], hits[|hits| - 1];
      var kept, g := Diverse(init, cap, group), group(h.id);
      DiverseIsIdempotent(init, cap, group);
      if g == "" || InGroup(init, group, g) < cap {
        if g != "" {
          DiverseGroupSize(init, cap, group, g);
        }
        assert (kept + [h])[..|kept|] == kept;
      } else {
        assert kept + [] == kept;
      }
    }
  }

  lemma BeforeAppend(init: seq<Hit>, kept: seq<Hit>, h: Hit, a: Hit, b: Hit)
    requires forall x :: x in kept ==> x in init
    requires Before(kept, a, b) ==> Before(init, a, b)
    requires Before(kept + [h], a, b)
    ensures Before(init + [h], a, b)
  {
    var out := kept + [h];
    var i, j :| 0 <= i < j < |out| && out[i] == a && out[j] == b;
    assert kept[i] == a;
    if j < |kept| {
      assert kept[j] == b;
      BeforeExtends(init, h, a, b);
    } else {
      assert a in init;
      var i' :| 0 <= i' < |init| && init[i'] == a;
      assert (init + [h])[i'] == a && (init + [h])[|init|] == b;
    }
  }

  lemma {:induction false} DiverseIsSubset(hits: seq<Hit>, cap: int, group: string -> string)
    ensures forall h :: h in Diverse(hits, cap, group) ==> h in hits
    ensures Distinct(hits) ==> Distinct(Diverse(hits, cap, group))
    decreases |hits|
  {
    if hits != [] {
      var init, h := hits[..|hits| - 1], hits[|hits| - 1];
      var kept := Diverse(init, cap, group);
      DiverseIsSubset(init, cap, group);
      assert hits == init + [h];
      if Distinct(hits) {
        forall i | 0 <= i < |kept| ensures kept[i].id != h.id {
          assert kept[i] in init;
        }
        assert Distinct(kept + [h]);
      }
    }
  }

  lemma {:induction false} DiverseKeepsOrder(hits: seq<Hit>, cap: int, group: string -> string, a: Hit, b: Hit)
    requires Before(Diverse(hits, cap, group), a, b)
    ensures Before(hits, a, b)
    decreases |hits|
  {
    if hits != [] {
      var init, h := hits[..|hits| - 1], hits[|hits| - 1];
      var kept := Diverse(init, cap, group);
      if Before(kept, a, b) {
        DiverseKeepsOrder(init, cap, group, a, b);
      }
      DiverseIsSubset(init, cap, group);
      assert hits == init + [h];
      if Diverse(hits, cap, group) == kept {
        BeforeExtends(init, h, a, b);
      } else {
        BeforeAppend(init, kept, h, a, b);
      }
    }
  }

  /** Each kept hit occurs in the input, and order and distinctness are kept. */
  lemma DiverseIsSubsequence(hits: seq<Hit>, cap: int, group: string -> string)
    ensures forall h :: h in Diverse(hits, cap, group) ==> h in hits
    ensures Distinct(hits) ==> Distinct(Diverse(hits, cap, group))
    ensures forall a, b :: Before(Diverse(hits, cap, group), a, b) ==> Before(hits, a, b)
  {
    DiverseIsSubset(hits, cap, group);
    forall a, b | Before(Diverse(hits, cap, group), a, b) ensures Before(hits, a, b) {
      DiverseKeepsOrder(hits, cap, group, a, b);
    }
  }

  lemma BeforeExtends(hits: seq<Hit>, h: Hit, a: Hit, b: Hit)
    requires Before(hits, a, b)
    ensures Before(hits + [h], a, b)
  {
    var i, j :| 0 <= i < j < |hits| && hits[i] == a && hits[j] == b;
    assert (hits + [h])[i] == a && (hits + [h])[j] == b;
  }

  // ---------------------------------------------------------------------------
  // The pipeline
  // ---------------------------------------------------------------------------

  const STAGE := 30

  /** What the engines and lookups answered.  An absent list is an engine that is missing or
      failed; an empty map is a lookup that failed or found nothing. */
  datatype Answers = Answers(
    hasFts: bool,
    fts: seq<Hit>,
    ftsProvenance: map<string, string>,
    vector: Option<seq<Hit>>,
    graph: Option<seq<Hit>>,
    loadedProvenance: map<string, string>,
    ages: map<string, real>)

  type Reranker = seq<Hit> -> Option<seq<Hit>>

  datatype Config = Config(
    k: int,
    recencyWeight: real,
    recencyHalfLife: real,
    poolSize: int,
    perGroupCap: int,
    group: Option<string -> string>,
    reranker: Option<Reranker>)

  function EngineLists(a: Answers): seq<seq<Hit>> {
    (if a.hasFts && a.fts != [] then [a.fts] else [])
    + (if a.vector.Some? then [a.vector.value] else [])
    + (if a.graph.Some? then [a.graph.value] else [])
  }

  /** Only candidates come back, none twice. */
  ghost predicate FaithfulReranker(c: Config) {
    c.reranker.Some? ==> forall pool :: c.reranker.value(pool).Some? ==>
      Distinct(c.reranker.value(pool).value) && forall h :: h in c.reranker.value(pool).value ==> Occurs(pool, h.id)
  }

  /** The known provenance labels; missing ones are looked up in one batch. */
  function ProvenanceOf(a: Answers, fused: seq<Hit>): map<string, string> {
    if !a.hasFts then map[]
    else if exists h :: h in fused && h.id !in a.ftsProvenance then a.ftsProvenance + a.loadedProvenance
    else a.ftsProvenance
  }

  function ProvenanceFactors(provenance: map<string, string>): map<string, real> {
    map id | id in provenance :: ProvenanceBoost(provenance[id])
  }

  function RecencyFactors(a: Answers, c: Config, decay: real -> real): map<string, real> {
    map id | id in a.ages :: RecencyBoost(a.ages[id], c.recencyWeight, c.recencyHalfLife, decay)
  }

  function AfterProvenance(a: Answers, fused: seq<Hit>): seq<Hit> {
    var provenance := ProvenanceOf(a, fused);
    if |provenance| > 0 then StableSorted(Boosted(fused, ProvenanceFactors(provenance))) else fused
  }

  function AfterRecency(a: Answers, c: Config, decay: real -> real, hits: seq<Hit>): seq<Hit> {
    if c.recencyWeight > 0.0 && a.hasFts && |hits| > 0 && |a.ages| > 0
    then StableSorted(Boosted(hits, RecencyFactors(a, c, decay))) else hits
  }

  function Take(hits: seq<Hit>, n: nat): seq<Hit> {
    if |hits| > n then hits[..n] else hits
  }

  function PoolSize(c: Config): nat {
    if c.poolSize <= 0 then STAGE else c.poolSize
  }

  function AfterRerank(a: Answers, c: Config, hits: seq<Hit>): seq<Hit> {
    if c.reranker.Some? && a.hasFts && |hits| > 0 then
      var reranked := c.reranker.value(Take(hits, PoolSize(c)));
      if reranked.Some? && |reranked.value| > 0 then reranked.value else hits
    else hits
  }

  function AfterDiversity(c: Config, hits: seq<Hit>): seq<Hit> {
    if c.perGroupCap <= 0 || c.group.None? then hits else Diverse(hits, c.perGroupCap, c.group.value)
  }

  /** Everything that happens to the fused list. */
  function Pipeline(a: Answers, c: Config, decay: real -> real, fused: seq<Hit>, limit: nat): seq<Hit> {
    Take(AfterDiversity(c, AfterRerank(a, c, AfterRecency(a, c, decay, AfterProvenance(a, fused)))), limit)
  }

  method ApplyBoosts(a: Answers, c: Config, decay: real -> real, hits: seq<Hit>) returns (fused: seq<Hit>)
    ensures fused == AfterRecency(a, c, decay, AfterProvenance(a, hits))
  {
    fused := hits;
    var provenance := ProvenanceOf(a, fused);
    if |provenance| > 0 {
      fused := BoostAndSort(fused, ProvenanceFactors(provenance));
    }
    if c.recencyWeight > 0.0 && a.hasFts && |fused| > 0 && |a.ages| > 0 {
      fused := BoostAndSort(fused, RecencyFactors(a, c, decay));
    }
  }

  /** With ties in the fusion broken by the iteration order of a map, some fusion of the engine
      lists goes through the pipeline. */
  method HybridSearch(a: Answers, c: Config, decay: real -> real, limit: nat) returns (out: seq<Hit>)
    ensures EngineLists(a) == [] ==> out == []
    ensures EngineLists(a) != [] ==>
      exists fused :: IsFusion(K(c.k), EngineLists(a), fused) && out == Pipeline(a, c, decay, fused, limit)
  {
    var lists := EngineLists(a);
    if |lists| == 0 {
      return [];
    }
    var fused := RrfFuse(c.k, lists);
    ghost var fusion := fused;
    fused := ApplyBoosts(a, c, decay, fused);
    if c.reranker.Some? && a.hasFts && |fused| > 0 {
      var reranked := c.reranker.value(Take(fused, PoolSize(c)));
      if reranked.Some? && |reranked.value| > 0 {
        fused := reranked.value;
      }
    }
    fused := DiversityBoost(fused, c.perGroupCap, c.group);
    out := fused;
    if |out| > limit {
      out := out[..limit];
    }
    assert out == Pipeline(a, c, decay, fusion, limit);
  }

  lemma {:induction false} InGroupPrefix(hits: seq<Hit>, n: nat, group: string -> string, g: string)
    requires n <= |hits|
    ensures InGroup(hits[..n], group, g) <= InGroup(hits, group, g)
    decreases |hits|
  {
    if n == |hits| {
      assert hits[..n] == hits;
    } else {
      InGroupPrefix(hits[..|hits| - 1], n, group, g);
      assert hits[..|hits| - 1][..n] == hits[..n];
    }
  }

  lemma BoostsKeepIds(a: Answers, c: Config, decay: real -> real, fused: seq<Hit>)
    ensures var out := AfterRecency(a, c, decay, AfterProvenance(a, fused));
            (Distinct(fused) ==> Distinct(out)) && forall id :: Occurs(out, id) <==> Occurs(fused, id)
  {
    var hits := AfterProvenance(a, fused);
    BoostKeepsIds(fused, ProvenanceFactors(ProvenanceOf(a, fused)));
    BoostKeepsIds(hits, RecencyFactors(a, c, decay));
  }

  lemma RerankKeepsCandidates(a: Answers, c: Config, hits: seq<Hit>)
    requires FaithfulReranker(c)
    ensures Distinct(hits) ==> Distinct(AfterRerank(a, c, hits))
    ensures forall h :: h in AfterRerank(a, c, hits) ==> Occurs(hits, h.id)
  {
    var pool := Take(hits, PoolSize(c));
    assert forall h :: h in pool ==> h in hits;
  }

  lemma CapSurvivesLimit(c: Config, ranked: seq<Hit>, limit: nat, g: string)
    requires c.perGroupCap > 0 && c.group.Some? && g != ""
    ensures InGroup(Take(AfterDiversity(c, ranked), limit), c.group.value, g) <= c.perGroupCap
  {
    var diverse := AfterDiversity(c, ranked);
    var out := Take(diverse, limit);
    DiverseIsCapped(ranked, c.perGroupCap, c.group.value, g);
    InGroupPrefix(diverse, |out|, c.group.value, g);
    assert diverse[..|out|] == out;
  }

  lemma TailKeepsHits(c: Config, ranked: seq<Hit>, limit: nat)
    ensures var out := Take(AfterDiversity(c, ranked), limit);
      && (forall h :: h in out ==> h in ranked)
      && (Distinct(ranked) ==> Distinct(out))
  {
    var diverse := AfterDiversity(c, ranked);
    if c.perGroupCap > 0 && c.group.Some? {
      DiverseIsSubset(ranked, c.perGroupCap, c.group.value);
    }
    assert forall h :: h in Take(diverse, limit) ==> h in diverse;
  }

  /** At most `limit` results, no id twice, every one from some engine list, and no non-empty
      group over its cap; without a faithful reranker the limit and the cap still hold. */
  lemma SearchGuarantees(a: Answers, c: Config, decay: real -> real, fused: seq<Hit>, limit: nat)
    requires IsFusion(K(c.k), EngineLists(a), fused)
    ensures var out := Pipeline(a, c, decay, fused, limit);
      && |out| <= limit
      && (c.perGroupCap > 0 && c.group.Some? ==>
            forall g :: g != "" ==> InGroup(out, c.group.value, g) <= c.perGroupCap)
      && (FaithfulReranker(c) ==> Distinct(out) && forall h :: h in out ==> Listed(EngineLists(a), h.id))
  {
    var boosted := AfterRecency(a, c, decay, AfterProvenance(a, fused));
    var ranked := AfterRerank(a, c, boosted);
    BoostsKeepIds(a, c, decay, fused);
    TailKeepsHits(c, ranked, limit);
    if FaithfulReranker(c) {
      RerankKeepsCandidates(a, c, boosted);
    }
    if c.perGroupCap > 0 && c.group.Some? {
      forall g | g != "" ensures InGroup(Take(AfterDiversity(c, ranked), limit), c.group.value, g) <= c.perGroupCap {
        CapSurvivesLimit(c, ranked, limit, g);
      }
    }
  }

  /** Relevance decides among equals: two hits with the same provenance boost and the same
      recency boost leave the boosts in their fused order. */
  lemma EqualStandingKeepsFusedOrder(a: Answers, c: Config, decay: real -> real, fused: seq<Hit>, x: Hit, y: Hit)
    requires IsDecay(decay) && Before(fused, x, y) && x.score >= y.score >= 0.0
    requires Factor(ProvenanceFactors(ProvenanceOf(a, fused)), x.id)
          == Factor(ProvenanceFactors(ProvenanceOf(a, fused)), y.id)
    requires Factor(RecencyFactors(a, c, decay), x.id) == Factor(RecencyFactors(a, c, decay), y.id)
    ensures exists x': Hit, y': Hit :: x'.id == x.id && y'.id == y.id
              && Before(AfterRecency(a, c, decay, AfterProvenance(a, fused)), x', y')
  {
    var hits := AfterProvenance(a, fused);
    var x', y' := x, y;
    if |ProvenanceOf(a, fused)| > 0 {
      var f := ProvenanceFactors(ProvenanceOf(a, fused));
      EqualFactorsKeepOrder(fused, f, x, y);
      x', y' := Scaled(x, f), Scaled(y, f);
    }
    assert Before(hits, x', y');
    if c.recencyWeight > 0.0 && a.hasFts && |hits| > 0 && |a.ages| > 0 {
      var f := RecencyFactors(a, c, decay);
      if x.id in f {
        RecencyFavoursYoung(a.ages[x.id], a.ages[x.id], c.recencyWeight, c.recencyHalfLife, decay);
      }
      EqualFactorsKeepOrder(hits, f, x', y');
      x', y' := Scaled(x', f), Scaled(y', f);
    }
    assert Before(AfterRecency(a, c, decay, hits), x', y');
  }
}

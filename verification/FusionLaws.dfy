/**
 What fusion and the boosts do to scores, in numbers: reciprocal ranks, what the constant
 trades, provenance factors, the half-life of recency and the reranking pool.
 */
module FusionLaws {
  import opened Common
  import opened RankFusion

  // ---------------------------------------------------------------------------
  // Reciprocal ranks
  // ---------------------------------------------------------------------------

  /** No list but number `n` has the id. */
  ghost predicate OnlyIn(lists: seq<seq<Hit>>, n: nat, id: string) {
    n < |lists| && forall m :: 0 <= m < |lists| && m != n ==> !Occurs(lists[m], id)
  }

  lemma AbsentFromAll(k: int, lists: seq<seq<Hit>>, id: string)
    requires k > 0 && forall m :: 0 <= m < |lists| ==> !Occurs(lists[m], id)
    ensures Score(k, lists, id) == 0.0
  {
    forall l | l in lists ensures !Occurs(l, id) {
      var m :| 0 <= m < |lists| && lists[m] == l;
    }
    UnlistedScoresZero(k, lists, id);
  }

  /** Found at rank `i` of one list, counted from 0, an id scores one over k + i + 1. */
  lemma ScoreInOneList(k: int, lists: seq<seq<Hit>>, n: nat, i: nat, id: string)
    requires k > 0 && OnlyIn(lists, n, id) && Distinct(lists[n]) && i < |lists[n]| && lists[n][i].id == id
    ensures Score(k, lists, id) == 1.0 / (k + i + 1) as real
  {
    var rest := lists[..n] + lists[n + 1..];
    ScoreRemovesList(k, lists, n, id);
    AbsentFromAll(k, rest, id);
    UniqueRankScore(k, lists[n], id, i);
  }

  /** Found in two lists it scores the sum. */
  lemma ScoreInTwoLists(k: int, lists: seq<seq<Hit>>, m: nat, n: nat, i: nat, j: nat, id: string)
    requires k > 0 && m < n < |lists| && forall l :: 0 <= l < |lists| && l != m && l != n ==> !Occurs(lists[l], id)
    requires Distinct(lists[m]) && i < |lists[m]| && lists[m][i].id == id
    requires Distinct(lists[n]) && j < |lists[n]| && lists[n][j].id == id
    ensures Score(k, lists, id) == 1.0 / (k + i + 1) as real + 1.0 / (k + j + 1) as real
  {
    var rest := lists[..n] + lists[n + 1..];
    ScoreRemovesList(k, lists, n, id);
    UniqueRankScore(k, lists[n], id, j);
    assert forall l :: 0 <= l < |rest| ==> rest[l] == lists[if l < n then l else l + 1];
    ScoreInOneList(k, rest, m, i, id);
  }

  lemma TwiceOverOnce(x: real, y: real)
    requires x > 0.0 && y > 0.0
    ensures 1.0 / y + 1.0 / y > 1.0 / x <==> 2.0 * x > y
  {
    var p, q := 1.0 / x, 1.0 / y;
    assert p * x == 1.0 && q * y == 1.0;
    assert (q + q - p) * (x * y) == 2.0 * x - y by {
      assert q * (x * y) == (q * y) * x;
      assert p * (x * y) == (p * x) * y;
    }
    assert x * y > 0.0;
    SignOfProduct(q + q - p, x * y);
  }

  lemma SignOfProduct(d: real, s: real)
    requires s > 0.0
    ensures d > 0.0 <==> d * s > 0.0
  {
    if d <= 0.0 {
      var e := -d;
      assert e * s >= 0.0;
      assert d * s == -(e * s);
    }
  }

  /** What the constant trades: in the fused result an id at rank `j` of two lists is ahead of one
      at rank `i` of a single list exactly when twice k + i + 1 exceeds k + j + 1; the constant is
      60 unless a positive one is given. */
  lemma TwoListsBeatOneIff(k: int, lists: seq<seq<Hit>>, out: seq<Hit>, a: Hit, r: nat, i: nat, b: Hit, m: nat, n: nat,
                           j: nat)
    requires IsFusion(K(k), lists, out) && a in out && b in out
    requires OnlyIn(lists, r, a.id) && Distinct(lists[r]) && i < |lists[r]| && lists[r][i].id == a.id
    requires m < n < |lists| && forall l :: 0 <= l < |lists| && l != m && l != n ==> !Occurs(lists[l], b.id)
    requires Distinct(lists[m]) && j < |lists[m]| && lists[m][j].id == b.id
    requires Distinct(lists[n]) && j < |lists[n]| && lists[n][j].id == b.id
    ensures var q := if k <= 0 then 60 else k;
      && a.score == 1.0 / (q + i + 1) as real
      && b.score == 1.0 / (q + j + 1) as real + 1.0 / (q + j + 1) as real
      && (b.score > a.score <==> 2 * (q + i + 1) > q + j + 1)
      && (2 * (q + i + 1) > q + j + 1 ==> Before(out, b, a))
  {
    var q := if k <= 0 then 60 else k;
    ScoreInOneList(q, lists, r, i, a.id);
    ScoreInTwoLists(q, lists, m, n, j, j, b.id);
    TwiceOverOnce((q + i + 1) as real, (q + j + 1) as real);
    HigherComesFirst(out, b, a);
  }

  lemma HigherComesFirst(out: seq<Hit>, x: Hit, y: Hit)
    requires Descending(out) && x in out && y in out
    ensures x.score > y.score ==> Before(out, x, y)
  {
    var i :| 0 <= i < |out| && out[i] == x;
    var j :| 0 <= j < |out| && out[j] == y;
    if x.score > y.score {
      assert i < j;
    }
  }

  // ---------------------------------------------------------------------------
  // Provenance
  // ---------------------------------------------------------------------------

  /** The label a hit is boosted by: that of the text search, or of the batch lookup if that has
      one too or the text search has none. */
  predicate Labelled(a: Answers, fused: seq<Hit>, id: string, mark: string) {
    && a.hasFts
    && if id in a.loadedProvenance && exists h :: h in fused && h.id !in a.ftsProvenance
       then a.loadedProvenance[id] == mark
       else id in a.ftsProvenance && a.ftsProvenance[id] == mark
  }

  lemma SortedHas(hits: seq<Hit>, h: Hit)
    ensures h in StableSorted(hits) <==> h in hits
  {
    SortSorts(hits);
    assert h in multiset(hits) <==> h in multiset(StableSorted(hits));
  }

  lemma BoostedHas(hits: seq<Hit>, factors: map<string, real>, h: Hit, f: real, score: real)
    requires h in hits && Factor(factors, h.id) == f && score == h.score * f
    ensures Hit(h.id, score) in StableSorted(Boosted(hits, factors))
  {
    var i :| 0 <= i < |hits| && hits[i] == h;
    var boosted := Boosted(hits, factors);
    var g := Factor(factors, h.id);
    assert boosted[i].score == h.score * g;
    assert boosted[i] == Hit(h.id, score);
    SortedHas(boosted, boosted[i]);
  }

  lemma LabelDecides(a: Answers, fused: seq<Hit>, h: Hit, mark: string) returns (factors: map<string, real>)
    requires Labelled(a, fused, h.id, mark)
    ensures Factor(factors, h.id) == ProvenanceBoost(mark)
    ensures AfterProvenance(a, fused) == StableSorted(Boosted(fused, factors))
  {
    factors := ProvenanceFactors(ProvenanceOf(a, fused));
    assert h.id in ProvenanceOf(a, fused) && ProvenanceOf(a, fused)[h.id] == mark;
  }

  /** What users wrote counts twice, episodes count seven tenths, everything else as it is. */
  lemma ProvenanceScales(a: Answers, fused: seq<Hit>, h: Hit, mark: string, score: real)
    requires h in fused && Labelled(a, fused, h.id, mark)
    requires score == if mark == "user" then h.score * 2.0 else if mark == "episodic" then h.score * 0.7 else h.score
    ensures Hit(h.id, score) in AfterProvenance(a, fused)
  {
    var factors := LabelDecides(a, fused, h, mark);
    var f := if mark == "user" then 2.0 else if mark == "episodic" then 0.7 else 1.0;
    FactorTimes(h.score, f, mark, score);
    BoostedHas(fused, factors, h, f, score);
  }

  lemma FactorTimes(x: real, f: real, mark: string, score: real)
    requires score == if mark == "user" then x * 2.0 else if mark == "episodic" then x * 0.7 else x
    requires f == if mark == "user" then 2.0 else if mark == "episodic" then 0.7 else 1.0
    ensures score == x * f && f == ProvenanceBoost(mark)
  {
  }

  lemma UnlabelledKeepsScore(a: Answers, fused: seq<Hit>, h: Hit)
    requires h in fused && forall mark :: !Labelled(a, fused, h.id, mark)
    ensures h in AfterProvenance(a, fused)
  {
    var provenance := ProvenanceOf(a, fused);
    if h.id in provenance {
      assert Labelled(a, fused, h.id, provenance[h.id]);
    }
    if |provenance| > 0 {
      UnknownHas(fused, ProvenanceFactors(provenance), h);
    }
  }

  lemma UnknownHas(hits: seq<Hit>, factors: map<string, real>, h: Hit)
    requires h in hits && h.id !in factors
    ensures h in StableSorted(Boosted(hits, factors))
  {
    BoostedHas(hits, factors, h, 1.0, h.score);
  }

  /** A user's memory is ahead of an extracted one unless that scored at least twice as much, and of an
      episode unless that scored at least twenty sevenths as much. */
  lemma UserOutranks(a: Answers, fused: seq<Hit>, x: Hit, y: Hit, mark: string, doubled: real, reduced: real)
    requires x in fused && y in fused && Labelled(a, fused, x.id, "user") && Labelled(a, fused, y.id, mark)
    requires doubled == x.score * 2.0 && reduced == y.score * 0.7
    ensures mark == "extracted" && 2.0 * x.score > y.score ==>
      Before(AfterProvenance(a, fused), Hit(x.id, doubled), y)
    ensures mark == "episodic" && 20.0 * x.score > 7.0 * y.score ==>
      Before(AfterProvenance(a, fused), Hit(x.id, doubled), Hit(y.id, reduced))
  {
    var y' := if mark == "episodic" then Hit(y.id, reduced) else y;
    var factors := LabelDecides(a, fused, x, "user");
    SortSorts(Boosted(fused, factors));
    if mark == "extracted" || mark == "episodic" {
      ProvenanceScales(a, fused, x, "user", doubled);
      ProvenanceScales(a, fused, y, mark, y'.score);
      HigherComesFirst(AfterProvenance(a, fused), Hit(x.id, doubled), y');
    }
  }

  // ---------------------------------------------------------------------------
  // Recency
  // ---------------------------------------------------------------------------

  /** The exponential of the original: one at age zero, and half of it one half-life later. */
  ghost predicate Halves(decay: real -> real) {
    decay(0.0) == 1.0 && forall x :: x >= 0.0 ==> decay(x + 1.0) == decay(x) / 2.0
  }

  /** The bonus is the whole weight for a new hit and halves with every half-life, which is seven
      days unless a positive one is given; without a positive weight there is none. */
  lemma RecencyBonusHalves(age: real, weight: real, halfLife: real, decay: real -> real)
    requires Halves(decay)
    ensures var h := if halfLife <= 0.0 then 7.0 else halfLife;
      && (weight <= 0.0 ==> RecencyBoost(age, weight, halfLife, decay) == 1.0)
      && (weight > 0.0 && age <= 0.0 ==> RecencyBoost(age, weight, halfLife, decay) == 1.0 + weight)
      && (weight > 0.0 && age >= 0.0 ==>
            RecencyBoost(age + h, weight, halfLife, decay) - 1.0
            == (RecencyBoost(age, weight, halfLife, decay) - 1.0) / 2.0)
  {
    var h := if halfLife <= 0.0 then 7.0 else halfLife;
    SameHalfLife(age, weight, halfLife, h, decay);
    SameHalfLife(age + h, weight, halfLife, h, decay);
    if weight > 0.0 && age <= 0.0 {
      WholeBonus(age, weight, h, decay);
    }
    if weight > 0.0 && age >= 0.0 {
      HalfBonus(age, weight, h, decay);
    }
  }

  lemma SameHalfLife(age: real, weight: real, halfLife: real, h: real, decay: real -> real)
    requires h == if halfLife <= 0.0 then 7.0 else halfLife
    ensures RecencyBoost(age, weight, halfLife, decay) == RecencyBoost(age, weight, h, decay)
  {
  }

  lemma WholeBonus(age: real, weight: real, h: real, decay: real -> real)
    requires decay(0.0) == 1.0 && weight > 0.0 && h > 0.0 && age <= 0.0
    ensures RecencyBoost(age, weight, h, decay) == 1.0 + weight
  {
    assert 0.0 / h == 0.0;
  }

  lemma HalfBonus(age: real, weight: real, h: real, decay: real -> real)
    requires Halves(decay) && weight > 0.0 && h > 0.0 && age >= 0.0
    ensures RecencyBoost(age + h, weight, h, decay) - 1.0 == (RecencyBoost(age, weight, h, decay) - 1.0) / 2.0
  {
    var x := age / h;
    NotNegative(age, h);
    OneMoreHalfLife(age, h);
    BonusOf(age, weight, h, decay, x);
    BonusOf(age + h, weight, h, decay, x + 1.0);
    HalfProduct(weight, decay(x));
  }

  lemma BonusOf(age: real, weight: real, h: real, decay: real -> real, x: real)
    requires weight > 0.0 && age >= 0.0 && h > 0.0 && x == age / h
    ensures RecencyBoost(age, weight, h, decay) == 1.0 + weight * decay(x)
  {
  }

  lemma OneMoreHalfLife(age: real, h: real)
    requires h > 0.0
    ensures (age + h) / h == age / h + 1.0
  {
    assert h / h == 1.0;
    assert (age + h) / h == age / h + h / h;
  }

  lemma NotNegative(age: real, h: real)
    requires age >= 0.0 && h > 0.0
    ensures age / h >= 0.0
  {
  }

  lemma HalfProduct(w: real, d: real)
    ensures w * (d / 2.0) == (w * d) / 2.0
  {
  }

  /** A hit of known age is scaled by its bonus, one of unknown age is not. */
  lemma RecencyScales(a: Answers, c: Config, decay: real -> real, hits: seq<Hit>, h: Hit, score: real)
    requires h in hits && c.recencyWeight > 0.0 && a.hasFts
    requires score == if h.id in a.ages
                      then h.score * RecencyBoost(a.ages[h.id], c.recencyWeight, c.recencyHalfLife, decay)
                      else h.score
    ensures Hit(h.id, score) in AfterRecency(a, c, decay, hits)
  {
    if |a.ages| > 0 {
      var factors := RecencyFactors(a, c, decay);
      if h.id in a.ages {
        BoostedHas(hits, factors, h, RecencyBoost(a.ages[h.id], c.recencyWeight, c.recencyHalfLife, decay), score);
      } else {
        UnknownHas(hits, factors, h);
      }
    } else {
      assert a.ages == map[];
    }
  }

  // ---------------------------------------------------------------------------
  // Reranking
  // ---------------------------------------------------------------------------

  /** The reranker sees the best hits only, thirty unless a positive number is given; an answer
      replaces the whole list, no answer or an empty one leaves it alone. */
  lemma RerankingReplacesTheTop(a: Answers, c: Config, hits: seq<Hit>)
    requires c.reranker.Some? && a.hasFts && hits != []
    ensures var n := if c.poolSize <= 0 then 30 else c.poolSize;
      var answer := c.reranker.value(if |hits| > n then hits[..n] else hits);
      AfterRerank(a, c, hits) == if answer.Some? && answer.value != [] then answer.value else hits
  {
  }

  /** With a faithful reranker that answers, nothing from beyond its pool is found. */
  lemma NothingBeyondThePool(a: Answers, c: Config, hits: seq<Hit>, h: Hit)
    requires c.reranker.Some? && a.hasFts && Distinct(hits) && FaithfulReranker(c)
    requires forall pool :: c.reranker.value(pool).Some? && c.reranker.value(pool).value != []
    requires h in AfterRerank(a, c, hits)
    ensures exists i :: 0 <= i < |hits| && i < (if c.poolSize <= 0 then 30 else c.poolSize) && hits[i].id == h.id
  {
    if hits != [] {
      var pool := Take(hits, if c.poolSize <= 0 then 30 else c.poolSize);
      RerankingReplacesTheTop(a, c, hits);
      assert Occurs(pool, h.id);
      var p :| p in pool && p.id == h.id;
      var i :| 0 <= i < |pool| && pool[i] == p;
      assert hits[i].id == h.id;
    }
  }

  // ---------------------------------------------------------------------------
  // The whole search
  // ---------------------------------------------------------------------------

  /** Without reranker and cap, and with room for all, exactly what some engine found is returned. */
  lemma NothingIsLost(a: Answers, c: Config, decay: real -> real, fused: seq<Hit>, limit: nat, id: string)
    requires IsFusion(K(c.k), EngineLists(a), fused)
    requires c.reranker.None? && c.perGroupCap <= 0
    requires |AfterRecency(a, c, decay, AfterProvenance(a, fused))| <= limit
    ensures Occurs(Pipeline(a, c, decay, fused, limit), id) <==>
            || (a.hasFts && Occurs(a.fts, id))
            || (a.vector.Some? && Occurs(a.vector.value, id))
            || (a.graph.Some? && Occurs(a.graph.value, id))
  {
    BoostsKeepIds(a, c, decay, fused);
    ListedIffFound(a, id);
  }

  lemma ListedIffFound(a: Answers, id: string)
    ensures Listed(EngineLists(a), id) <==>
            || (a.hasFts && Occurs(a.fts, id))
            || (a.vector.Some? && Occurs(a.vector.value, id))
            || (a.graph.Some? && Occurs(a.graph.value, id))
  {
    var lists := EngineLists(a);
    assert a.hasFts && a.fts != [] ==> a.fts in lists;
    assert a.vector.Some? ==> a.vector.value in lists;
    assert a.graph.Some? ==> a.graph.value in lists;
  }
}

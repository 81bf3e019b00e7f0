/**
 The graph engine on top of the traversal: observations linked to reached entities are
 scored by the confidence of the match and the distance of the entity.
 */
module GraphSearch {
  import opened Common

  import opened GraphTraversal
  import opened RankFusion

  datatype Entity = Entity(id: Node, confidence: real)

  /** A link record; the observation is empty when the record names none. */
  datatype Link = Link(entity: Node, observation: string)

  // ---------------------------------------------------------------------------
  // Scores
  // ---------------------------------------------------------------------------

  function Seeds(matched: seq<Entity>): seq<Node> {
    if matched == [] then [] else Seeds(matched[..|matched| - 1]) + [matched[|matched| - 1].id]
  }

  /** The confidence of each matched entity; a repeated entity keeps the last one. */
  function Confidences(matched: seq<Entity>): map<Node, real> {
    if matched == [] then map[]
    else
      var last := matched[|matched| - 1];
      Confidences(matched[..|matched| - 1])[last.id := last.confidence]
  }

  /** Entities that were not matched, or matched with no confidence, count half. */
  function Weight(conf: map<Node, real>, x: Node): real {
    if x in conf && conf[x] != 0.0 then conf[x] else 0.5
  }

  /** What one link of an entity at distance `depth` adds. */
  function Contribution(conf: map<Node, real>, x: Node, depth: nat): real {
    Weight(conf, x) / (1 + depth) as real
  }

  function LinkScore(conf: map<Node, real>, visited: map<Node, nat>, l: Link): real {
    Contribution(conf, l.entity, if l.entity in visited then visited[l.entity] else 0)
  }

  function ObservationScore(conf: map<Node, real>, visited: map<Node, nat>, links: seq<Link>, o: string): real {
    if links == [] then 0.0
    else
      var last := links[|links| - 1];
      ObservationScore(conf, visited, links[..|links| - 1], o)
      + if last.entity in visited && last.observation == o then LinkScore(conf, visited, last) else 0.0
  }

  /** Some link of a reached entity names the observation. */
  ghost predicate Evidenced(visited: map<Node, nat>, links: seq<Link>, o: string) {
    o != "" && exists l :: l in links && l.entity in visited && l.observation == o
  }

  /** The map holds the score of each evidenced observation. */
  ghost predicate Scored(conf: map<Node, real>, visited: map<Node, nat>, links: seq<Link>, scores: map<string, real>) {
    && (forall o :: o in scores <==> Evidenced(visited, links, o))
    && (forall o :: o in scores ==> scores[o] == ObservationScore(conf, visited, links, o))
  }

  /** Each evidenced observation once, with its score, best first. */
  ghost predicate IsRanking(conf: map<Node, real>, visited: map<Node, nat>, links: seq<Link>, out: seq<Hit>) {
    && Distinct(out) && Descending(out)
    && (forall o :: Occurs(out, o) <==> Evidenced(visited, links, o))
    && (forall h :: h in out ==> h.score == ObservationScore(conf, visited, links, h.id))
  }

  lemma {:induction false} UnevidencedScoresZero(conf: map<Node, real>, visited: map<Node, nat>, links: seq<Link>,
                                                 o: string)
    requires o != "" && !Evidenced(visited, links, o)
    ensures ObservationScore(conf, visited, links, o) == 0.0
    decreases |links|
  {
    if links != [] {
      var init, last := links[..|links| - 1], links[|links| - 1];
      assert last in links;
      assert forall l :: l in init ==> l in links;
      UnevidencedScoresZero(conf, visited, init, o);
    }
  }

  lemma EvidencedAppend(visited: map<Node, nat>, links: seq<Link>, l: Link, o: string)
    ensures Evidenced(visited, links + [l], o)
       <==> Evidenced(visited, links, o) || (o != "" && l.entity in visited && l.observation == o)
  {
    if o != "" && l.entity in visited && l.observation == o {
      assert l in links + [l];
    }
    if Evidenced(visited, links, o) {
      var k :| k in links && k.entity in visited && k.observation == o;
      assert k in links + [l];
    }
  }

  lemma ScoreAppend(conf: map<Node, real>, visited: map<Node, nat>, links: seq<Link>, l: Link, o: string)
    ensures ObservationScore(conf, visited, links + [l], o)
         == ObservationScore(conf, visited, links, o)
            + if l.entity in visited && l.observation == o then LinkScore(conf, visited, l) else 0.0
  {
    assert (links + [l])[..|links|] == links;
  }

  lemma ScoreOneMore(conf: map<Node, real>, visited: map<Node, nat>, links: seq<Link>, l: Link,
                     scores: map<string, real>)
    requires Scored(conf, visited, links, scores)
    ensures l.entity !in visited || l.observation == "" ==> Scored(conf, visited, links + [l], scores)
    ensures l.entity in visited && l.observation != "" ==>
      var sum := if l.observation in scores then scores[l.observation] else 0.0;
      Scored(conf, visited, links + [l], scores[l.observation := sum + LinkScore(conf, visited, l)])
  {
    forall o ensures Evidenced(visited, links + [l], o)
                <==> Evidenced(visited, links, o) || (o != "" && l.entity in visited && l.observation == o) {
      EvidencedAppend(visited, links, l, o);
    }
    forall o ensures ObservationScore(conf, visited, links + [l], o)
                  == ObservationScore(conf, visited, links, o)
                     + if l.entity in visited && l.observation == o then LinkScore(conf, visited, l) else 0.0 {
      ScoreAppend(conf, visited, links, l, o);
    }
    if l.observation != "" && l.observation !in scores {
      UnevidencedScoresZero(conf, visited, links, l.observation);
    }
  }

  /** The link query returns the links of reached entities in some order; here table order. */
  method GatherScores(conf: map<Node, real>, visited: map<Node, nat>, links: seq<Link>)
    returns (scores: map<string, real>)
    ensures Scored(conf, visited, links, scores)
  {
    scores := map[];
    for i := 0 to |links|
      invariant Scored(conf, visited, links[..i], scores)
    {
      var l := links[i];
      ScoreOneMore(conf, visited, links[..i], l, scores);
      assert links[..i + 1] == links[..i] + [l];
      if l.entity !in visited || l.observation == "" {
        continue;
      }
      var depth := visited[l.entity];
      var c := if l.entity in conf then conf[l.entity] else 0.0;
      if c == 0.0 {
        c := 0.5;
      }
      scores := scores[l.observation := (if l.observation in scores then scores[l.observation] else 0.0)
                                        + c / (1 + depth) as real];
    }
    assert links[..|links|] == links;
  }

  // ---------------------------------------------------------------------------
  // The engine
  // ---------------------------------------------------------------------------

  /** Nothing without a match; otherwise the first `limit` (10 by default) of a ranking by the
      true distances. */
  method Search(g: Graph, project: string, matched: seq<Entity>, links: seq<Link>, limit: int)
    returns (hits: seq<Hit>)
    ensures matched == [] ==> hits == []
    ensures matched != [] ==> exists visited, ranking ::
              IsTraversal(g, project, Seeds(matched), visited)
              && IsRanking(Confidences(matched), visited, links, ranking)
              && hits == Take(ranking, if limit <= 0 then 10 else limit)
  {
    var limit' := limit;
    if limit' <= 0 {
      limit' := 10;
    }
    if |matched| == 0 {
      return [];
    }
    var seeds, conf := CollectSeeds(matched);
    var visited := BfsTraverse(g, project, seeds);
    var scores := GatherScores(conf, visited, links);
    var ranking := Rank(conf, visited, links, scores);
    hits := ranking;
    if |hits| > limit' {
      hits := hits[..limit'];
    }
    assert IsRanking(Confidences(matched), visited, links, ranking) && hits == Take(ranking, limit');
  }

  method CollectSeeds(matched: seq<Entity>) returns (seeds: seq<Node>, conf: map<Node, real>)
    ensures seeds == Seeds(matched) && conf == Confidences(matched)
  {
    seeds, conf := [], map[];
    for i := 0 to |matched|
      invariant seeds == Seeds(matched[..i]) && conf == Confidences(matched[..i])
    {
      assert matched[..i + 1][..i] == matched[..i];
      seeds := seeds + [matched[i].id];
      conf := conf[matched[i].id := matched[i].confidence];
    }
    assert matched[..|matched|] == matched;
  }

  method Rank(ghost conf: map<Node, real>, ghost visited: map<Node, nat>, ghost links: seq<Link>,
              scores: map<string, real>) returns (ranking: seq<Hit>)
    requires Scored(conf, visited, links, scores)
    ensures IsRanking(conf, visited, links, ranking)
  {
    var hits := HitsOf(scores);
    SortSorts(hits);
    SortKeepsIds(hits);
    ranking := StableSorted(hits);
    forall o ensures Occurs(ranking, o) <==> Evidenced(visited, links, o) {
      if Evidenced(visited, links, o) {
        assert Hit(o, scores[o]) in ranking;
      }
    }
  }

  // ---------------------------------------------------------------------------
  // Storage order does not matter
  // ---------------------------------------------------------------------------

  /** The two stores hold the same edges, however often and in whatever order. */
  ghost predicate SameEdges(g: Graph, h: Graph) {
    && g.maxDepth == h.maxDepth && g.minConfidence == h.minConfidence
    && forall e :: e in g.edges <==> e in h.edges
  }

  ghost predicate SameNodes(a: seq<Node>, b: seq<Node>) {
    forall x :: x in a <==> x in b
  }

  lemma SameWalks(g: Graph, h: Graph, project: string, a: seq<Node>, b: seq<Node>, n: nat, x: Node)
    requires SameEdges(g, h) && SameNodes(a, b) && WalkOf(g, project, a, n, x)
    ensures WalkOf(h, project, b, n, x)
  {
    var w :| Walk(g, project, a, w, x) && |w| == n + 1;
    forall i | 0 < i < |w| ensures Adjacent(h, project, w[i - 1], w[i]) {
      assert Adjacent(g, project, w[i - 1], w[i]);
    }
    assert Walk(h, project, b, w, x);
  }

  /** A traversal is determined by the sets of edges and seeds. */
  lemma TraversalIsUnique(g: Graph, h: Graph, project: string, a: seq<Node>, b: seq<Node>,
                          u: map<Node, nat>, v: map<Node, nat>)
    requires SameEdges(g, h) && SameNodes(a, b)
    requires IsTraversal(g, project, a, u) && IsTraversal(h, project, b, v)
    ensures u == v
  {
    forall x | x in u ensures x in v && v[x] <= u[x] {
      TraversalCovers(g, h, project, a, b, u, v, x);
    }
    forall x | x in v ensures x in u && u[x] <= v[x] {
      TraversalCovers(h, g, project, b, a, v, u, x);
    }
  }

  lemma TraversalCovers(g: Graph, h: Graph, project: string, a: seq<Node>, b: seq<Node>,
                        u: map<Node, nat>, v: map<Node, nat>, x: Node)
    requires SameEdges(g, h) && SameNodes(a, b)
    requires IsTraversal(g, project, a, u) && IsTraversal(h, project, b, v) && x in u
    ensures x in v && v[x] <= u[x]
  {
    var n: nat :| n <= Bound(g) && WalkOf(g, project, a, n, x);
    SameWalks(g, h, project, a, b, n, x);
    assert IsDistance(g, project, a, x, u[x]) && IsDistance(h, project, b, x, v[x]);
    SameWalks(g, h, project, a, b, u[x], x);
  }

  lemma {:induction false} ScoreRemovesLink(conf: map<Node, real>, visited: map<Node, nat>, links: seq<Link>, i: nat,
                                            o: string)
    requires i < |links|
    ensures ObservationScore(conf, visited, links, o)
         == ObservationScore(conf, visited, links[..i] + links[i + 1..], o)
            + ObservationScore(conf, visited, [links[i]], o)
    decreases |links|
  {
    var n := |links| - 1;
    var init, last := links[..n], links[n];
    assert links == init + [last];
    ScoreAppend(conf, visited, init, last, o);
    ScoreAppend(conf, visited, [], links[i], o);
    assert [] + [links[i]] == [links[i]];
    if i == n {
      assert links[..i] + links[i + 1..] == init;
    } else {
      ScoreRemovesLink(conf, visited, init, i, o);
      var rest := init[..i] + init[i + 1..];
      assert links[..i] + links[i + 1..] == rest + [last];
      ScoreAppend(conf, visited, rest, last, o);
    }
  }

  lemma {:induction false} LinkOrderIsIrrelevant(conf: map<Node, real>, visited: map<Node, nat>, a: seq<Link>,
                                                 b: seq<Link>, o: string)
    requires multiset(a) == multiset(b)
    ensures ObservationScore(conf, visited, a, o) == ObservationScore(conf, visited, b, o)
    decreases |a|
  {
    if a == [] {
      assert |multiset(b)| == |b|;
    } else {
      var init, last := a[..|a| - 1], a[|a| - 1];
      assert a == init + [last];
      assert multiset(a) == multiset(init) + multiset{last};
      var i := FindElement(init, last, b);
      LinkOrderIsIrrelevant(conf, visited, init, b[..i] + b[i + 1..], o);
      ScoreRemovesLink(conf, visited, b, i, o);
      ScoreRemovesLink(conf, visited, a, |a| - 1, o);
      assert a[..|a| - 1] + a[|a|..] == init;
    }
  }

  /** Neither the order of edges and links nor repeated edges change any observation's score. */
  lemma StorageOrderIsIrrelevant(g: Graph, h: Graph, project: string, matched: seq<Entity>, a: seq<Link>, b: seq<Link>,
                                 u: map<Node, nat>, v: map<Node, nat>, r: seq<Hit>, s: seq<Hit>, x: Hit)
    requires SameEdges(g, h) && multiset(a) == multiset(b)
    requires IsTraversal(g, project, Seeds(matched), u) && IsTraversal(h, project, Seeds(matched), v)
    requires IsRanking(Confidences(matched), u, a, r) && IsRanking(Confidences(matched), v, b, s)
    ensures x in r <==> x in s
  {
    TraversalIsUnique(g, h, project, Seeds(matched), Seeds(matched), u, v);
    if x in r {
      RankedInBoth(Confidences(matched), u, a, b, r, s, x);
    }
    if x in s {
      RankedInBoth(Confidences(matched), u, b, a, s, r, x);
    }
  }

  lemma RankedInBoth(conf: map<Node, real>, visited: map<Node, nat>, a: seq<Link>, b: seq<Link>,
                     r: seq<Hit>, s: seq<Hit>, x: Hit)
    requires multiset(a) == multiset(b) && IsRanking(conf, visited, a, r) && IsRanking(conf, visited, b, s) && x in r
    ensures x in s
  {
    assert Occurs(r, x.id);
    var l :| l in a && l.entity in visited && l.observation == x.id;
    assert l in multiset(a);
    assert l in b;
    assert Occurs(s, x.id);
    var y :| y in s && y.id == x.id;
    LinkOrderIsIrrelevant(conf, visited, a, b, x.id);
  }

  /** A link of a matched entity adds more than any link of an entity that was merely reached
      exactly when the match's confidence is over a quarter, or is zero and so counts half. */
  lemma MatchOutweighsReachedIff(conf: map<Node, real>, x: Node)
    requires x in conf
    ensures (forall y, n: nat :: y !in conf && n > 0 ==> Contribution(conf, x, 0) > Contribution(conf, y, n))
       <==> conf[x] == 0.0 || conf[x] > 0.25
  {
    assert Contribution(conf, x, 0) == Weight(conf, x);
    forall y, n: nat | y !in conf && n > 0 ensures Contribution(conf, y, n) <= 0.25 {
      Quarter((1 + n) as real);
    }
    var y := Unmatched(conf);
    assert Contribution(conf, y, 1) == 0.25;
  }

  lemma Quarter(d: real)
    requires d >= 2.0
    ensures 0.5 / d <= 0.25
  {
    assert (0.5 / d) * d == 0.5;
  }

  /** Some node was not matched: a name longer than all that were. */
  lemma Unmatched(conf: map<Node, real>) returns (y: Node)
    ensures y !in conf
  {
    y := Longer(conf.Keys);
  }

  lemma {:induction false} Longer(nodes: set<Node>) returns (y: Node)
    ensures forall x :: x in nodes ==> |x| < |y|
    decreases |nodes|
  {
    y := "x";
    if nodes != {} {
      var x :| x in nodes;
      var z := Longer(nodes - {x});
      y := z + x + "x";
    }
  }

  /** What one more link does to the score of an observation: a link of a reached entity adds the
      confidence of the match, one half if there is none, over one more than the distance; any other
      link adds nothing. */
  lemma LinkAdds(conf: map<Node, real>, visited: map<Node, nat>, links: seq<Link>, l: Link, o: string)
    ensures ObservationScore(conf, visited, [], o) == 0.0
    ensures l.entity in visited && l.observation == o ==>
      ObservationScore(conf, visited, links + [l], o) == ObservationScore(conf, visited, links, o)
        + (if l.entity in conf && conf[l.entity] != 0.0 then conf[l.entity] else 0.5) / (1 + visited[l.entity]) as real
    ensures l.entity !in visited || l.observation != o ==>
      ObservationScore(conf, visited, links + [l], o) == ObservationScore(conf, visited, links, o)
  {
    ScoreAppend(conf, visited, links, l, o);
  }

  /** The matched entities are the seeds, each with the confidence it was matched with last. */
  lemma {:induction false} SeedsAreMatched(matched: seq<Entity>, x: Node)
    ensures x in Seeds(matched) <==> exists e :: e in matched && e.id == x
    ensures x in Confidences(matched) <==> x in Seeds(matched)
    ensures forall i ::
              (0 <= i < |matched| && matched[i].id == x && forall j :: i < j < |matched| ==> matched[j].id != x) ==>
                x in Confidences(matched) && Confidences(matched)[x] == matched[i].confidence
    decreases |matched|
  {
    if matched != [] {
      var init, last := matched[..|matched| - 1], matched[|matched| - 1];
      assert matched == init + [last];
      SeedsAreMatched(init, x);
      if last.id == x {
        assert last in matched;
      }
      forall i | 0 <= i < |matched| && matched[i].id == x && (forall j :: i < j < |matched| ==> matched[j].id != x)
        ensures x in Confidences(matched) && Confidences(matched)[x] == matched[i].confidence
      {
        if i < |init| {
          assert matched[|init|].id != x;
          assert init[i].id == x;
        }
      }
    }
  }

  /** Found are the observations named by links of reached entities, and no others. */
  lemma FoundIffLinked(conf: map<Node, real>, visited: map<Node, nat>, links: seq<Link>, out: seq<Hit>, o: string)
    requires IsRanking(conf, visited, links, out)
    ensures (exists h :: h in out && h.id == o)
       <==> o != "" && exists l :: l in links && l.entity in visited && l.observation == o
  {
    assert Occurs(out, o) <==> Evidenced(visited, links, o);
  }
}

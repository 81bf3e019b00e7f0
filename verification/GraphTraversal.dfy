/**
 Bounded breadth-first traversal of the knowledge graph.

 Reference notion: undirected walks along usable edges.  The traversal maps exactly the
 nodes some walk reaches within the depth bound, each to the length of a shortest walk.
 */
module GraphTraversal {

  type Node = string

  datatype Edge = Edge(project: string, source: Node, target: Node, confidence: real)

  /** The stored edges, in any order and with any repetition. */
  datatype Graph = Graph(edges: seq<Edge>, maxDepth: int, minConfidence: real)

  predicate Usable(g: Graph, project: string, e: Edge) {
    (project == "" || e.project == project) && e.confidence >= g.minConfidence
  }

  /** Some usable edge joins the two nodes, in either direction. */
  ghost predicate Adjacent(g: Graph, project: string, x: Node, y: Node) {
    exists e :: e in g.edges && Usable(g, project, e) &&
      ((e.source == x && e.target == y) || (e.source == y && e.target == x))
  }

  /** `w` starts at a seed and follows usable edges to `x`; it makes `|w| - 1` hops. */
  ghost predicate Walk(g: Graph, project: string, seeds: seq<Node>, w: seq<Node>, x: Node) {
    && |w| > 0 && w[0] in seeds && w[|w| - 1] == x
    && forall i :: 0 < i < |w| ==> Adjacent(g, project, w[i - 1], w[i])
  }

  ghost predicate WalkOf(g: Graph, project: string, seeds: seq<Node>, n: nat, x: Node) {
    exists w :: Walk(g, project, seeds, w, x) && |w| == n + 1
  }

  /** `n` hops reach `x` and no fewer do. */
  ghost predicate IsDistance(g: Graph, project: string, seeds: seq<Node>, x: Node, n: nat) {
    WalkOf(g, project, seeds, n, x) && forall m: nat :: m < n ==> !WalkOf(g, project, seeds, m, x)
  }

  // ---------------------------------------------------------------------------
  // Hop by hop
  // ---------------------------------------------------------------------------

  ghost predicate Reaches(g: Graph, project: string, seeds: seq<Node>, n: nat, x: Node) {
    if n == 0 then x in seeds
    else exists y :: Reaches(g, project, seeds, n - 1, y) && Adjacent(g, project, y, x)
  }

  lemma {:induction false} ReachesIffWalk(g: Graph, project: string, seeds: seq<Node>, n: nat, x: Node)
    ensures Reaches(g, project, seeds, n, x) <==> WalkOf(g, project, seeds, n, x)
  {
    if n == 0 {
      if x in seeds {
        assert Walk(g, project, seeds, [x], x);
      }
    } else {
      if Reaches(g, project, seeds, n, x) {
        var y :| Reaches(g, project, seeds, n - 1, y) && Adjacent(g, project, y, x);
        ReachesIffWalk(g, project, seeds, n - 1, y);
        var w :| Walk(g, project, seeds, w, y) && |w| == n;
        assert Walk(g, project, seeds, w + [x], x);
      }
      if WalkOf(g, project, seeds, n, x) {
        var w :| Walk(g, project, seeds, w, x) && |w| == n + 1;
        var y := w[n - 1];
        assert Walk(g, project, seeds, w[..n], y);
        ReachesIffWalk(g, project, seeds, n - 1, y);
        assert Adjacent(g, project, y, w[n]);
      }
    }
  }

  // ---------------------------------------------------------------------------
  // The traversal
  // ---------------------------------------------------------------------------

  predicate Selected(g: Graph, project: string, frontier: seq<Node>, e: Edge) {
    Usable(g, project, e) && (e.source in frontier || e.target in frontier)
  }

  /** One query: every selected edge, in whatever order the store returns them. */
  method QueryEdges(g: Graph, project: string, frontier: seq<Node>) returns (rows: seq<Edge>)
    ensures forall e :: e in rows <==>
              e in g.edges && (project == "" || e.project == project) && e.confidence >= g.minConfidence
              && (e.source in frontier || e.target in frontier)
  {
    rows := [];
    for i := 0 to |g.edges|
      invariant forall e :: e in rows <==> e in g.edges[..i] && Selected(g, project, frontier, e)
    {
      if Selected(g, project, frontier, g.edges[i]) {
        rows := rows + [g.edges[i]];
      }
    }
  }

  /** Every node with a depth is at exactly that distance, and the depths go up to `last`. */
  ghost predicate Exact(g: Graph, project: string, seeds: seq<Node>, visited: map<Node, nat>, last: nat) {
    && (forall x :: x in visited ==>
          visited[x] <= last && Reaches(g, project, seeds, visited[x], x))
    && (forall x, m: nat :: Reaches(g, project, seeds, m, x) && m <= last ==> x in visited && visited[x] <= m)
  }

  ghost predicate OnSomeRow(rows: seq<Edge>, x: Node) {
    exists e :: e in rows && (e.source == x || e.target == x)
  }

  /** After a layer was expanded through all its rows, the next depth is exact too. */
  lemma NextLayer(g: Graph, project: string, seeds: seq<Node>, before: map<Node, nat>, last: nat,
                  frontier: seq<Node>, rows: seq<Edge>, after: map<Node, nat>)
    requires Exact(g, project, seeds, before, last)
    requires forall x :: x in frontier <==> x in before && before[x] == last
    requires forall e :: e in rows <==> e in g.edges && Selected(g, project, frontier, e)
    requires forall x :: x in before ==> x in after && after[x] == before[x]
    requires forall x :: x in after && x !in before ==> after[x] == last + 1 && OnSomeRow(rows, x)
    requires forall e :: e in rows ==> e.source in after && e.target in after
    ensures Exact(g, project, seeds, after, last + 1)
  {
    forall x | x in after && x !in before ensures Reaches(g, project, seeds, last + 1, x) {
      var e :| e in rows && (e.source == x || e.target == x);
      var y := if e.source == x then e.target else e.source;
      assert x !in frontier;
      assert y in frontier;
      assert Adjacent(g, project, y, x);
    }
    forall x, m: nat | Reaches(g, project, seeds, m, x) && m <= last + 1
      ensures x in after && after[x] <= m
    {
      if m == last + 1 {
        var y :| Reaches(g, project, seeds, last, y) && Adjacent(g, project, y, x);
        var e :| e in g.edges && Usable(g, project, e) &&
          ((e.source == y && e.target == x) || (e.source == x && e.target == y));
        if y in frontier {
          assert e in rows;
        } else {
          CloserNeighbour(g, project, seeds, before, last, y, x);
        }
      }
    }
  }

  /** A neighbour of a node found in an earlier layer was itself found. */
  lemma CloserNeighbour(g: Graph, project: string, seeds: seq<Node>, visited: map<Node, nat>, last: nat,
                        y: Node, x: Node)
    requires Exact(g, project, seeds, visited, last)
    requires y in visited && visited[y] < last && Adjacent(g, project, y, x)
    ensures x in visited
  {
    assert Reaches(g, project, seeds, visited[y] + 1, x);
  }

  /** An empty layer means there is nothing further out. */
  lemma {:induction false} NothingFurther(g: Graph, project: string, seeds: seq<Node>, visited: map<Node, nat>,
                                          last: nat, m: nat, x: Node)
    requires Exact(g, project, seeds, visited, last)
    requires forall y :: y in visited ==> visited[y] != last
    requires Reaches(g, project, seeds, m, x)
    ensures x in visited && visited[x] <= m
  {
    if m > last {
      var y :| Reaches(g, project, seeds, m - 1, y) && Adjacent(g, project, y, x);
      NothingFurther(g, project, seeds, visited, last, m - 1, y);
      assert visited[y] < last;
      CloserNeighbour(g, project, seeds, visited, last, y, x);
    }
  }

  /** Gives every new endpoint of `rows` the depth `depth`, in the order of the rows. */
  method ScanRows(rows: seq<Edge>, before: map<Node, nat>, depth: nat)
    returns (visited: map<Node, nat>, next: seq<Node>)
    ensures forall x :: x in before ==> x in visited && visited[x] == before[x]
    ensures forall x :: x in next <==> x in visited && x !in before
    ensures forall x :: x in visited && x !in before ==> visited[x] == depth && OnSomeRow(rows, x)
    ensures forall e :: e in rows ==> e.source in visited && e.target in visited
  {
    visited, next := before, [];
    for i := 0 to |rows|
      invariant forall x :: x in before ==> x in visited && visited[x] == before[x]
      invariant forall x :: x in next <==> x in visited && x !in before
      invariant forall x :: x in visited && x !in before ==> visited[x] == depth && OnSomeRow(rows, x)
      invariant forall j :: 0 <= j < i ==> rows[j].source in visited && rows[j].target in visited
    {
      var ends := [rows[i].source, rows[i].target];
      for k := 0 to 2
        invariant forall x :: x in before ==> x in visited && visited[x] == before[x]
        invariant forall x :: x in next <==> x in visited && x !in before
        invariant forall x :: x in visited && x !in before ==> visited[x] == depth && OnSomeRow(rows, x)
        invariant forall j :: 0 <= j < i ==> rows[j].source in visited && rows[j].target in visited
        invariant forall j :: 0 <= j < k ==> ends[j] in visited
      {
        if ends[k] !in visited {
          assert OnSomeRow(rows, ends[k]) by {
            assert rows[i] in rows;
          }
          visited := visited[ends[k] := depth];
          next := next + [ends[k]];
        }
      }
      assert ends[0] in visited && ends[1] in visited;
    }
  }

  function Bound(g: Graph): nat {
    if g.maxDepth < 0 then 0 else g.maxDepth
  }

  /** What a traversal must return: each node in reach with its true distance. */
  ghost predicate IsTraversal(g: Graph, project: string, seeds: seq<Node>, visited: map<Node, nat>) {
    && (forall x :: x in visited <==> exists n: nat :: n <= Bound(g) && WalkOf(g, project, seeds, n, x))
    && (forall x :: x in visited ==> IsDistance(g, project, seeds, x, visited[x]))
  }

  method BfsTraverse(g: Graph, project: string, seeds: seq<Node>) returns (visited: map<Node, nat>)
    ensures IsTraversal(g, project, seeds, visited)
  {
    visited := map[];
    for i := 0 to |seeds|
      invariant visited.Keys == set x | x in seeds[..i]
      invariant forall x :: x in visited ==> visited[x] == 0
    {
      visited := visited[seeds[i] := 0];
    }
    var frontier := seeds;
    var depth := 1;
    while depth <= g.maxDepth && |frontier| > 0
      invariant 1 <= depth <= Bound(g) + 1
      invariant Exact(g, project, seeds, visited, depth - 1)
      invariant forall x :: x in frontier <==> x in visited && visited[x] == depth - 1
      decreases g.maxDepth - depth
    {
      var rows := QueryEdges(g, project, frontier);
      ghost var before := visited;
      var next;
      visited, next := ScanRows(rows, visited, depth);
      NextLayer(g, project, seeds, before, depth - 1, frontier, rows, visited);
      frontier := next;
      depth := depth + 1;
    }
    ExactIsDistance(g, project, seeds, visited, depth - 1, Bound(g));
  }

  /** What the loop leaves, in terms of walks. */
  lemma ExactIsDistance(g: Graph, project: string, seeds: seq<Node>, visited: map<Node, nat>, last: nat, bound: nat)
    requires Exact(g, project, seeds, visited, last) && last <= bound
    requires last == bound || forall y :: y in visited ==> visited[y] != last
    ensures forall x :: x in visited <==> exists n: nat :: n <= bound && WalkOf(g, project, seeds, n, x)
    ensures forall x :: x in visited ==> IsDistance(g, project, seeds, x, visited[x])
  {
    forall x, n: nat | n <= bound && WalkOf(g, project, seeds, n, x) ensures x in visited && visited[x] <= n {
      ReachesIffWalk(g, project, seeds, n, x);
      if n > last {
        NothingFurther(g, project, seeds, visited, last, n, x);
      }
    }
    forall x | x in visited
      ensures visited[x] <= bound && IsDistance(g, project, seeds, x, visited[x])
    {
      ReachesIffWalk(g, project, seeds, visited[x], x);
    }
  }

  // ---------------------------------------------------------------------------
  // Which edges count
  // ---------------------------------------------------------------------------

  /** The edge belongs to the project, any if none is named, is trusted enough, and joins the two
      nodes in one direction or the other. */
  predicate Joins(g: Graph, project: string, e: Edge, x: Node, y: Node) {
    && e in g.edges && (project == "" || e.project == project) && e.confidence >= g.minConfidence
    && ((e.source == x && e.target == y) || (e.source == y && e.target == x))
  }

  /** Every node but the seeds hangs by such an edge on one of the layer before, and every such edge
      at a node nearer than the bound leads at most one layer further. */
  ghost predicate Layered(g: Graph, project: string, seeds: seq<Node>, visited: map<Node, nat>) {
    && (forall x :: x in seeds <==> x in visited && visited[x] == 0)
    && (forall x :: x in visited ==> visited[x] <= if g.maxDepth < 0 then 0 else g.maxDepth)
    && AllHaveParents(g, project, visited)
    && EdgesFollowed(g, project, visited)
  }

  ghost predicate AllHaveParents(g: Graph, project: string, visited: map<Node, nat>) {
    forall x {:trigger HasParent(g, project, visited, x)} ::
      x in visited && visited[x] > 0 ==> HasParent(g, project, visited, x)
  }

  ghost predicate EdgesFollowed(g: Graph, project: string, visited: map<Node, nat>) {
    forall x, e, y {:trigger Joins(g, project, e, x, y)} ::
      x in visited && visited[x] < g.maxDepth && Joins(g, project, e, x, y) ==>
        y in visited && visited[y] <= visited[x] + 1
  }

  ghost predicate HasParent(g: Graph, project: string, visited: map<Node, nat>, x: Node)
    requires x in visited
  {
    exists e, y :: Joins(g, project, e, y, x) && y in visited && visited[y] + 1 == visited[x]
  }

  lemma AdjacentIffJoined(g: Graph, project: string, x: Node, y: Node)
    ensures Adjacent(g, project, x, y) <==> exists e :: Joins(g, project, e, x, y)
  {
    if Adjacent(g, project, x, y) {
      var e :| e in g.edges && Usable(g, project, e) &&
        ((e.source == x && e.target == y) || (e.source == y && e.target == x));
      assert Joins(g, project, e, x, y);
    }
    if e :| Joins(g, project, e, x, y) {
      assert e in g.edges && Usable(g, project, e);
    }
  }

  lemma {:induction false} LayeredReaches(g: Graph, project: string, seeds: seq<Node>, visited: map<Node, nat>, x: Node)
    requires Layered(g, project, seeds, visited) && x in visited
    ensures Reaches(g, project, seeds, visited[x], x)
    decreases visited[x]
  {
    if visited[x] > 0 {
      assert HasParent(g, project, visited, x);
      var e, y :| Joins(g, project, e, y, x) && y in visited && visited[y] + 1 == visited[x];
      LayeredReaches(g, project, seeds, visited, y);
      AdjacentIffJoined(g, project, y, x);
    }
  }

  lemma {:induction false} LayeredCovers(g: Graph, project: string, seeds: seq<Node>, visited: map<Node, nat>, n: nat,
                                         x: Node)
    requires Layered(g, project, seeds, visited) && Reaches(g, project, seeds, n, x) && n <= Bound(g)
    ensures x in visited && visited[x] <= n
  {
    if n > 0 {
      var y :| Reaches(g, project, seeds, n - 1, y) && Adjacent(g, project, y, x);
      LayeredCovers(g, project, seeds, visited, n - 1, y);
      AdjacentIffJoined(g, project, y, x);
      var e :| Joins(g, project, e, y, x);
    }
  }

  lemma LayeredIsTraversal(g: Graph, project: string, seeds: seq<Node>, visited: map<Node, nat>)
    requires Layered(g, project, seeds, visited)
    ensures IsTraversal(g, project, seeds, visited)
  {
    forall x, n: nat | n <= Bound(g) && WalkOf(g, project, seeds, n, x) ensures x in visited && visited[x] <= n {
      ReachesIffWalk(g, project, seeds, n, x);
      LayeredCovers(g, project, seeds, visited, n, x);
    }
    forall x | x in visited ensures IsDistance(g, project, seeds, x, visited[x]) {
      LayeredReaches(g, project, seeds, visited, x);
      ReachesIffWalk(g, project, seeds, visited[x], x);
    }
  }

  lemma TraversalLayer(g: Graph, project: string, seeds: seq<Node>, visited: map<Node, nat>, n: nat, x: Node)
    requires IsTraversal(g, project, seeds, visited) && Reaches(g, project, seeds, n, x) && n <= Bound(g)
    ensures x in visited && visited[x] <= n
  {
    ReachesIffWalk(g, project, seeds, n, x);
    assert IsDistance(g, project, seeds, x, visited[x]);
  }

  lemma TraversalReaches(g: Graph, project: string, seeds: seq<Node>, visited: map<Node, nat>, x: Node)
    requires IsTraversal(g, project, seeds, visited) && x in visited
    ensures Reaches(g, project, seeds, visited[x], x) && visited[x] <= Bound(g)
  {
    assert IsDistance(g, project, seeds, x, visited[x]);
    ReachesIffWalk(g, project, seeds, visited[x], x);
  }

  lemma TraversalParent(g: Graph, project: string, seeds: seq<Node>, visited: map<Node, nat>, x: Node)
    returns (e: Edge, y: Node)
    requires IsTraversal(g, project, seeds, visited) && x in visited && visited[x] > 0
    ensures Joins(g, project, e, y, x) && y in visited && visited[y] + 1 == visited[x]
  {
    TraversalReaches(g, project, seeds, visited, x);
    y :| Reaches(g, project, seeds, visited[x] - 1, y) && Adjacent(g, project, y, x);
    AdjacentIffJoined(g, project, y, x);
    e :| Joins(g, project, e, y, x);
    TraversalLayer(g, project, seeds, visited, visited[x] - 1, y);
    TraversalReaches(g, project, seeds, visited, y);
    if visited[y] < visited[x] - 1 {
      TraversalLayer(g, project, seeds, visited, visited[y] + 1, x);
    }
  }

  /** The traversal in terms of the edges' own fields: the map it returns is the layered one. */
  lemma TraversalIffLayered(g: Graph, project: string, seeds: seq<Node>, visited: map<Node, nat>)
    ensures IsTraversal(g, project, seeds, visited) <==> Layered(g, project, seeds, visited)
  {
    if IsTraversal(g, project, seeds, visited) {
      TraversalIsLayered(g, project, seeds, visited);
    }
    if Layered(g, project, seeds, visited) {
      LayeredIsTraversal(g, project, seeds, visited);
    }
  }

  lemma SeedsAreAtZero(g: Graph, project: string, seeds: seq<Node>, visited: map<Node, nat>, x: Node)
    requires IsTraversal(g, project, seeds, visited)
    ensures x in seeds <==> x in visited && visited[x] == 0
  {
    if x in seeds {
      TraversalLayer(g, project, seeds, visited, 0, x);
    }
    if x in visited {
      TraversalReaches(g, project, seeds, visited, x);
    }
  }

  lemma TraversalIsLayered(g: Graph, project: string, seeds: seq<Node>, visited: map<Node, nat>)
    requires IsTraversal(g, project, seeds, visited)
    ensures Layered(g, project, seeds, visited)
  {
    TraversalStartsAtSeeds(g, project, seeds, visited);
    TraversalHasParents(g, project, seeds, visited);
    TraversalFollowsEdges(g, project, seeds, visited);
  }

  lemma TraversalStartsAtSeeds(g: Graph, project: string, seeds: seq<Node>, visited: map<Node, nat>)
    requires IsTraversal(g, project, seeds, visited)
    ensures forall x :: x in seeds <==> x in visited && visited[x] == 0
  {
    forall x ensures x in seeds <==> x in visited && visited[x] == 0 {
      SeedsAreAtZero(g, project, seeds, visited, x);
    }
  }

  lemma TraversalHasParents(g: Graph, project: string, seeds: seq<Node>, visited: map<Node, nat>)
    requires IsTraversal(g, project, seeds, visited)
    ensures AllHaveParents(g, project, visited) && forall x :: x in visited ==> visited[x] <= Bound(g)
  {
    forall x | x in visited ensures visited[x] <= Bound(g) && (visited[x] > 0 ==> HasParent(g, project, visited, x)) {
      NodeHasParent(g, project, seeds, visited, x);
    }
  }

  lemma TraversalFollowsEdges(g: Graph, project: string, seeds: seq<Node>, visited: map<Node, nat>)
    requires IsTraversal(g, project, seeds, visited)
    ensures EdgesFollowed(g, project, visited)
  {
    forall x, e, y | x in visited && visited[x] < g.maxDepth && Joins(g, project, e, x, y)
      ensures y in visited && visited[y] <= visited[x] + 1
    {
      TraversalExpands(g, project, seeds, visited, x, e, y);
    }
  }

  lemma NodeHasParent(g: Graph, project: string, seeds: seq<Node>, visited: map<Node, nat>, x: Node)
    requires IsTraversal(g, project, seeds, visited) && x in visited
    ensures visited[x] <= Bound(g) && (visited[x] > 0 ==> HasParent(g, project, visited, x))
  {
    TraversalReaches(g, project, seeds, visited, x);
    if visited[x] > 0 {
      var e, y := TraversalParent(g, project, seeds, visited, x);
      assert Joins(g, project, e, y, x);
    }
  }

  lemma TraversalExpands(g: Graph, project: string, seeds: seq<Node>, visited: map<Node, nat>, x: Node, e: Edge,
                         y: Node)
    requires IsTraversal(g, project, seeds, visited)
    requires x in visited && visited[x] < g.maxDepth && Joins(g, project, e, x, y)
    ensures y in visited && visited[y] <= visited[x] + 1
  {
    TraversalReaches(g, project, seeds, visited, x);
    AdjacentIffJoined(g, project, x, y);
    TraversalLayer(g, project, seeds, visited, visited[x] + 1, y);
  }

  /** For a named project: what is found beyond the seeds is an end of one of the project's own
      trusted edges, and every such edge at a node nearer than the bound is followed. */
  lemma OwnTrustedEdgesAreFollowed(g: Graph, project: string, seeds: seq<Node>, visited: map<Node, nat>)
    requires project != "" && IsTraversal(g, project, seeds, visited)
    ensures forall x :: x in visited && x !in seeds ==>
              exists e :: e in g.edges && e.project == project && e.confidence >= g.minConfidence
                && ((e.source == x && e.target in visited && visited[e.target] + 1 == visited[x])
                    || (e.target == x && e.source in visited && visited[e.source] + 1 == visited[x]))
    ensures forall e ::
              (e in g.edges && e.project == project && e.confidence >= g.minConfidence
               && e.source in visited && visited[e.source] < g.maxDepth) ==>
                e.target in visited && visited[e.target] <= visited[e.source] + 1
    ensures forall e ::
              (e in g.edges && e.project == project && e.confidence >= g.minConfidence
               && e.target in visited && visited[e.target] < g.maxDepth) ==>
                e.source in visited && visited[e.source] <= visited[e.target] + 1
  {
    forall x | x in visited && x !in seeds
      ensures exists e :: e in g.edges && e.project == project && e.confidence >= g.minConfidence
                && ((e.source == x && e.target in visited && visited[e.target] + 1 == visited[x])
                    || (e.target == x && e.source in visited && visited[e.source] + 1 == visited[x]))
    {
      TraversalReaches(g, project, seeds, visited, x);
      var e, y := TraversalParent(g, project, seeds, visited, x);
    }
    forall e | e in g.edges && e.project == project && e.confidence >= g.minConfidence
      && e.source in visited && visited[e.source] < g.maxDepth
      ensures e.target in visited && visited[e.target] <= visited[e.source] + 1
    {
      TraversalExpands(g, project, seeds, visited, e.source, e, e.target);
    }
    forall e | e in g.edges && e.project == project && e.confidence >= g.minConfidence
      && e.target in visited && visited[e.target] < g.maxDepth
      ensures e.source in visited && visited[e.source] <= visited[e.target] + 1
    {
      TraversalExpands(g, project, seeds, visited, e.target, e, e.source);
    }
  }

  /** Edges of other projects and edges below the confidence asked for change nothing. */
  lemma OtherEdgesAreIrrelevant(g: Graph, h: Graph, project: string, seeds: seq<Node>, u: map<Node, nat>,
                                v: map<Node, nat>)
    requires project != "" && g.maxDepth == h.maxDepth && g.minConfidence == h.minConfidence
    requires forall e: Edge :: e.project == project && e.confidence >= g.minConfidence ==>
               (e in g.edges <==> e in h.edges)
    requires IsTraversal(g, project, seeds, u) && IsTraversal(h, project, seeds, v)
    ensures u == v
  {
    TraversalIsLayered(g, project, seeds, u);
    SameLayers(g, h, project, seeds, u);
    LayeredIsTraversal(h, project, seeds, u);
    TraversalsAgree(h, project, seeds, u, v);
  }

  lemma SameLayers(g: Graph, h: Graph, project: string, seeds: seq<Node>, visited: map<Node, nat>)
    requires g.maxDepth == h.maxDepth && Layered(g, project, seeds, visited)
    requires forall e, x, y :: Joins(g, project, e, x, y) <==> Joins(h, project, e, x, y)
    ensures Layered(h, project, seeds, visited)
  {
    forall x | x in visited && visited[x] > 0 ensures HasParent(h, project, visited, x) {
      assert HasParent(g, project, visited, x);
      var e, y :| Joins(g, project, e, y, x) && y in visited && visited[y] + 1 == visited[x];
      assert Joins(h, project, e, y, x);
    }
  }

  lemma TraversalsAgree(g: Graph, project: string, seeds: seq<Node>, u: map<Node, nat>, v: map<Node, nat>)
    requires IsTraversal(g, project, seeds, u) && IsTraversal(g, project, seeds, v)
    ensures u == v
  {
    forall x | x in u ensures x in v && u[x] == v[x] {
      TraversalReaches(g, project, seeds, u, x);
      TraversalLayer(g, project, seeds, v, u[x], x);
      TraversalReaches(g, project, seeds, v, x);
      TraversalLayer(g, project, seeds, u, v[x], x);
    }
    forall x | x in v ensures x in u {
      TraversalReaches(g, project, seeds, v, x);
      TraversalLayer(g, project, seeds, u, v[x], x);
    }
  }
}

/**
 The multi-agent action graph of one project: which actions are claimable, when a plan can
 be worked off, and what compacting actions into a summary does to the frontier.
 */
module ActionPlan {
  import opened Common

  type Id = string

  datatype Action = Action(title: string, description: string, status: string, dependencies: seq<Id>,
                           crystallizedInto: Option<Id>, sources: seq<Id>)

  datatype Row = Row(id: Id, action: Action)

  type Plan = map<Id, Action>

  predicate IsPending(plan: Plan, id: Id) {
    id in plan && plan[id].status == "pending"
  }

  predicate IsCompleted(plan: Plan, id: Id) {
    id in plan && plan[id].status == "completed"
  }

  /** Pending, with every dependency known and completed. */
  predicate Ready(plan: Plan, id: Id) {
    IsPending(plan, id) && forall d :: d in plan[id].dependencies ==> IsCompleted(plan, d)
  }

  function Pending(plan: Plan): set<Id> {
    set id | id in plan && IsPending(plan, id)
  }

  function FrontierOf(plan: Plan): set<Id> {
    set id | id in plan && Ready(plan, id)
  }

  // ---------------------------------------------------------------------------
  // Computing the frontier
  // ---------------------------------------------------------------------------

  /** The rows by id; a later row replaces an earlier one with the same id. */
  function PlanOf(rows: seq<Row>): Plan {
    if rows == [] then map[]
    else PlanOf(rows[..|rows| - 1])[rows[|rows| - 1].id := rows[|rows| - 1].action]
  }

  predicate Claimable(plan: Plan, a: Action) {
    a.status == "pending" && forall d :: d in a.dependencies ==> IsCompleted(plan, d)
  }

  function ClaimableRows(plan: Plan, rows: seq<Row>): seq<Row> {
    if rows == [] then []
    else
      var r := rows[|rows| - 1];
      ClaimableRows(plan, rows[..|rows| - 1]) + if Claimable(plan, r.action) then [r] else []
  }

  predicate DistinctIds(rows: seq<Row>) {
    forall i, j :: 0 <= i < j < |rows| ==> rows[i].id != rows[j].id
  }

  ghost predicate HasRow(rows: seq<Row>, id: Id) {
    exists r :: r in rows && r.id == id
  }

  /** With one row per id, in whatever order they are listed, the rows returned are those of
      the frontier. */
  lemma {:induction false} FrontierIgnoresOrder(rows: seq<Row>, plan: Plan, id: Id)
    requires DistinctIds(rows) && forall r :: r in rows ==> r.id in plan && plan[r.id] == r.action
    ensures HasRow(ClaimableRows(plan, rows), id) <==> Ready(plan, id) && HasRow(rows, id)
  {
    if rows != [] {
      var init, last := rows[..|rows| - 1], rows[|rows| - 1];
      assert rows == init + [last];
      FrontierIgnoresOrder(init, plan, id);
      if Ready(plan, id) && last.id == id {
        assert last in ClaimableRows(plan, rows);
      }
      if r :| r in ClaimableRows(plan, init) && r.id == id {
        assert r in ClaimableRows(plan, rows);
      }
    }
  }

  lemma {:induction false} PlanHasOnlyRows(rows: seq<Row>, id: Id)
    requires id in PlanOf(rows)
    ensures HasRow(rows, id)
    decreases |rows|
  {
    var init, last := rows[..|rows| - 1], rows[|rows| - 1];
    if id == last.id {
      assert last in rows;
    } else {
      PlanHasOnlyRows(init, id);
      var r :| r in init && r.id == id;
      assert r in rows;
    }
  }

  /** The plan holds the row of every id. */
  lemma {:induction false} PlanHoldsRows(rows: seq<Row>)
    requires DistinctIds(rows)
    ensures forall r :: r in rows ==> r.id in PlanOf(rows) && PlanOf(rows)[r.id] == r.action
    ensures forall id :: id in PlanOf(rows) ==> HasRow(rows, id)
    decreases |rows|
  {
    if rows != [] {
      PlanHoldsRows(rows[..|rows| - 1]);
      assert rows == rows[..|rows| - 1] + [rows[|rows| - 1]];
    }
    forall id | id in PlanOf(rows) ensures HasRow(rows, id) {
      PlanHasOnlyRows(rows, id);
    }
  }

  /** What is returned is the frontier that the progress laws are about. */
  lemma ClaimableAreFrontier(rows: seq<Row>, id: Id)
    requires DistinctIds(rows)
    ensures HasRow(ClaimableRows(PlanOf(rows), rows), id) <==> id in FrontierOf(PlanOf(rows))
  {
    PlanHoldsRows(rows);
    FrontierIgnoresOrder(rows, PlanOf(rows), id);
  }

  /** The ids of the returned rows are the frontier of the plan that the rows describe, provided the
      listing has one row per id.  A listing for a project name with wildcards also holds other
      projects' rows, whose ids may coincide. */
  method Frontier(rows: seq<Row>) returns (out: seq<Row>)
    ensures out == ClaimableRows(PlanOf(rows), rows)
    ensures DistinctIds(rows) ==> forall r :: r in out <==>
              r in rows && r.action.status == "pending"
              && forall d :: d in r.action.dependencies ==>
                   exists q :: q in rows && q.id == d && q.action.status == "completed"
    ensures DistinctIds(rows) ==> forall id :: HasRow(out, id) <==> id in FrontierOf(PlanOf(rows))
  {
    forall id | DistinctIds(rows)
      ensures HasRow(ClaimableRows(PlanOf(rows), rows), id) <==> id in FrontierOf(PlanOf(rows))
    {
      ClaimableAreFrontier(rows, id);
    }
    forall r | DistinctIds(rows)
      ensures r in ClaimableRows(PlanOf(rows), rows) <==>
              r in rows && r.action.status == "pending"
              && forall d :: d in r.action.dependencies ==>
                   exists q :: q in rows && q.id == d && q.action.status == "completed"
    {
      ClaimableMeansUnblocked(rows, r);
    }
    out := ClaimableOf(rows);
  }

  lemma {:induction false} ClaimableIsFilter(plan: Plan, rows: seq<Row>, r: Row)
    ensures r in ClaimableRows(plan, rows) <==> r in rows && Claimable(plan, r.action)
    decreases |rows|
  {
    if rows != [] {
      ClaimableIsFilter(plan, rows[..|rows| - 1], r);
      assert rows == rows[..|rows| - 1] + [rows[|rows| - 1]];
    }
  }

  lemma CompletedMeansRow(rows: seq<Row>, d: Id)
    requires DistinctIds(rows)
    ensures IsCompleted(PlanOf(rows), d) <==> exists q :: q in rows && q.id == d && q.action.status == "completed"
  {
    PlanHoldsRows(rows);
    if IsCompleted(PlanOf(rows), d) {
      assert HasRow(rows, d);
    }
  }

  /** A row is returned exactly when it is pending and each dependency names a completed row. */
  lemma ClaimableMeansUnblocked(rows: seq<Row>, r: Row)
    requires DistinctIds(rows)
    ensures r in ClaimableRows(PlanOf(rows), rows) <==>
            r in rows && r.action.status == "pending"
            && forall d :: d in r.action.dependencies ==>
                 exists q :: q in rows && q.id == d && q.action.status == "completed"
  {
    ClaimableIsFilter(PlanOf(rows), rows, r);
    forall d ensures IsCompleted(PlanOf(rows), d) <==>
                     exists q :: q in rows && q.id == d && q.action.status == "completed" {
      CompletedMeansRow(rows, d);
    }
  }

  method ClaimableOf(rows: seq<Row>) returns (out: seq<Row>)
    ensures out == ClaimableRows(PlanOf(rows), rows)
  {
    var byId: Plan := map[];
    for i := 0 to |rows|
      invariant byId == PlanOf(rows[..i])
    {
      assert rows[..i + 1][..i] == rows[..i];
      byId := byId[rows[i].id := rows[i].action];
    }
    assert rows[..|rows|] == rows;
    out := [];
    for i := 0 to |rows|
      invariant out == ClaimableRows(byId, rows[..i])
    {
      assert rows[..i + 1][..i] == rows[..i];
      var a := rows[i].action;
      assert ClaimableRows(byId, rows[..i + 1])
          == ClaimableRows(byId, rows[..i]) + if Claimable(byId, a) then [rows[i]] else [];
      if a.status != "pending" {
        continue;
      }
      var ready := true;
      for k := 0 to |a.dependencies|
        invariant ready
        invariant forall d :: d in a.dependencies[..k] ==> IsCompleted(byId, d)
      {
        var dep := a.dependencies[k];
        if dep !in byId || byId[dep].status != "completed" {
          ready := false;
          assert !IsCompleted(byId, dep) && dep in a.dependencies;
          break;
        }
      }
      if ready {
        assert a.dependencies[..|a.dependencies|] == a.dependencies;
        out := out + [rows[i]];
      }
    }
  }

  // ---------------------------------------------------------------------------
  // Working a plan off
  // ---------------------------------------------------------------------------

  function Complete(plan: Plan, id: Id): Plan
    requires id in plan
  {
    plan[id := plan[id].(status := "completed")]
  }

  /** Every action of `order` is on the frontier when its turn comes; `end` is what results. */
  ghost predicate Works(plan: Plan, order: seq<Id>, end: Plan)
    decreases |order|
  {
    if order == [] then end == plan
    else Ready(plan, order[0]) && Works(Complete(plan, order[0]), order[1..], end)
  }

  /** Every dependency of a pending action is itself pending or completed. */
  ghost predicate Unblocked(plan: Plan) {
    forall id, d :: IsPending(plan, id) && d in plan[id].dependencies ==>
      IsPending(plan, d) || IsCompleted(plan, d)
  }

  /** A walk along dependencies through pending actions. */
  ghost predicate Walk(plan: Plan, c: seq<Id>) {
    && (forall i :: 0 <= i < |c| ==> IsPending(plan, c[i]))
    && (forall i, j :: 0 <= i < j < |c| && j == i + 1 ==> c[j] in plan[c[i]].dependencies)
  }

  ghost predicate Cycle(plan: Plan, c: seq<Id>) {
    |c| >= 2 && c[0] == c[|c| - 1] && Walk(plan, c)
  }

  ghost predicate Acyclic(plan: Plan) {
    forall c :: !Cycle(plan, c)
  }

  lemma {:induction false} Pigeonhole(s: seq<Id>, ids: set<Id>) returns (i: nat, j: nat)
    requires (forall k :: 0 <= k < |s| ==> s[k] in ids) && |s| > |ids|
    ensures i < j < |s| && s[i] == s[j]
    decreases |s|
  {
    var last := s[|s| - 1];
    if k :| 0 <= k < |s| - 1 && s[k] == last {
      return k, |s| - 1;
    }
    i, j := Pigeonhole(s[..|s| - 1], ids - {last});
  }

  /** Without a frontier every pending action has a pending dependency, so walks of any
      length exist. */
  lemma {:induction false} LongWalk(plan: Plan, n: nat) returns (c: seq<Id>)
    requires Unblocked(plan) && Pending(plan) != {} && FrontierOf(plan) == {}
    ensures |c| == n + 1 && Walk(plan, c)
  {
    if n == 0 {
      var id :| id in Pending(plan);
      c := [id];
    } else {
      var w := LongWalk(plan, n - 1);
      var last := w[|w| - 1];
      assert !Ready(plan, last) by {
        assert last !in FrontierOf(plan);
      }
      var d :| d in plan[last].dependencies && !IsCompleted(plan, d);
      c := w + [d];
    }
  }

  /** Progress: an unblocked acyclic plan with something pending has a frontier. */
  lemma FrontierNonEmpty(plan: Plan)
    requires Unblocked(plan) && Acyclic(plan) && Pending(plan) != {}
    ensures FrontierOf(plan) != {}
  {
    if FrontierOf(plan) == {} {
      var c := LongWalk(plan, |Pending(plan)|);
      var i, j := Pigeonhole(c, Pending(plan));
      var cycle := c[i..j + 1];
      assert forall k :: 0 <= k < |cycle| ==> cycle[k] == c[i + k];
      assert Cycle(plan, cycle);
    }
  }

  lemma CompleteShrinks(plan: Plan, id: Id)
    requires IsPending(plan, id)
    ensures Pending(Complete(plan, id)) == Pending(plan) - {id}
    ensures |Pending(Complete(plan, id))| == |Pending(plan)| - 1
    ensures Unblocked(plan) ==> Unblocked(Complete(plan, id))
    ensures Acyclic(plan) ==> Acyclic(Complete(plan, id))
  {
    var plan' := Complete(plan, id);
    assert Pending(plan') == Pending(plan) - {id};
    forall other, d | Unblocked(plan) && IsPending(plan', other) && d in plan'[other].dependencies
      ensures IsPending(plan', d) || IsCompleted(plan', d)
    {
      assert IsPending(plan, other) && d in plan[other].dependencies;
      assert IsPending(plan, d) || IsCompleted(plan, d);
      assert d != id ==> plan'[d] == plan[d];
    }
    if Acyclic(plan) {
      forall c ensures !Cycle(plan', c) {
        if Cycle(plan', c) {
          assert forall i :: 0 <= i < |c| ==> IsPending(plan', c[i]) ==> IsPending(plan, c[i]) && c[i] != id;
          assert Cycle(plan, c);
        }
      }
    }
  }

  /** Completing one action takes no other action off the frontier. */
  lemma CompleteKeepsFrontier(plan: Plan, id: Id, other: Id)
    requires Ready(plan, id) && Ready(plan, other) && other != id
    ensures Ready(Complete(plan, id), other)
  {
  }

  /** Every dependency is met by the start or by an earlier step. */
  lemma {:induction false} OrderIsTopological(plan: Plan, order: seq<Id>, end: Plan, i: nat, d: Id)
    requires Works(plan, order, end) && i < |order|
    ensures IsPending(plan, order[i]) && order[i] !in order[..i]
    ensures d in plan[order[i]].dependencies ==> IsCompleted(plan, d) || d in order[..i]
    decreases |order|
  {
    if i > 0 {
      var plan' := Complete(plan, order[0]);
      OrderIsTopological(plan', order[1..], end, i - 1, d);
      assert order[1..][i - 1] == order[i];
      assert order[..i] == [order[0]] + order[1..][..i - 1];
    }
  }

  lemma {:induction false} WorkCountsDown(plan: Plan, order: seq<Id>, end: Plan)
    requires Works(plan, order, end)
    ensures |order| + |Pending(end)| == |Pending(plan)|
    ensures Unblocked(plan) ==> Unblocked(end)
    ensures Acyclic(plan) ==> Acyclic(end)
    decreases |order|
  {
    if order != [] {
      CompleteShrinks(plan, order[0]);
      WorkCountsDown(Complete(plan, order[0]), order[1..], end);
    }
  }

  /** However the next action is chosen: work on an unblocked acyclic plan never gets stuck, and
      it is over after exactly as many steps as there were pending actions. */
  lemma AnyOrderFinishes(plan: Plan, order: seq<Id>, end: Plan)
    requires Unblocked(plan) && Acyclic(plan) && Works(plan, order, end)
    ensures |order| <= |Pending(plan)|
    ensures FrontierOf(end) == {} <==> Pending(end) == {}
    ensures Pending(end) == {} <==> |order| == |Pending(plan)|
  {
    WorkCountsDown(plan, order, end);
    if Pending(end) != {} {
      FrontierNonEmpty(end);
    } else {
      assert FrontierOf(end) <= Pending(end);
    }
  }

  lemma {:induction false} FinishingOrderExists(plan: Plan) returns (order: seq<Id>, end: Plan)
    requires Unblocked(plan) && Acyclic(plan)
    ensures Works(plan, order, end) && Pending(end) == {}
    decreases |Pending(plan)|
  {
    if Pending(plan) == {} {
      return [], plan;
    }
    FrontierNonEmpty(plan);
    var id :| id in FrontierOf(plan);
    CompleteShrinks(plan, id);
    var rest;
    rest, end := FinishingOrderExists(Complete(plan, id));
    order := [id] + rest;
  }

  lemma CycleIsPending(plan: Plan, c: seq<Id>)
    requires Cycle(plan, c)
    ensures IsPending(plan, c[0])
  {
  }

  lemma {:induction false} FinishedWasPossible(plan: Plan, order: seq<Id>, end: Plan)
    requires Works(plan, order, end) && Pending(end) == {}
    ensures Unblocked(plan) && Acyclic(plan)
    decreases |order|
  {
    if order == [] {
      assert forall id :: IsPending(plan, id) ==> id in Pending(plan);
      forall c ensures !Cycle(plan, c) {
        if Cycle(plan, c) {
          CycleIsPending(plan, c);
        }
      }
    } else {
      var plan' := Complete(plan, order[0]);
      FinishedWasPossible(plan', order[1..], end);
      ReadyIsOnNoCycle(plan, order[0]);
      forall c ensures !Cycle(plan, c) {
        if Cycle(plan, c) {
          assert forall i :: 0 <= i < |c| ==> c[i] != order[0];
          assert forall i :: 0 <= i < |c| ==> IsPending(plan', c[i]) && plan'[c[i]] == plan[c[i]];
          assert Cycle(plan', c);
        }
      }
      forall id, d | IsPending(plan, id) && d in plan[id].dependencies
        ensures IsPending(plan, d) || IsCompleted(plan, d)
      {
        if id != order[0] {
          assert IsPending(plan', id) && d in plan'[id].dependencies;
          assert IsPending(plan', d) || IsCompleted(plan', d);
          assert d != order[0] ==> plan'[d] == plan[d];
        }
      }
    }
  }

  lemma ReadyIsOnNoCycle(plan: Plan, id: Id)
    requires Ready(plan, id)
    ensures forall c, i :: Cycle(plan, c) && 0 <= i < |c| ==> c[i] != id
  {
    forall c, i | Cycle(plan, c) && 0 <= i < |c| ensures c[i] != id {
      var k := if i == |c| - 1 then 0 else i;
      var next := k + 1;
      assert c[next] in plan[c[k]].dependencies && IsPending(plan, c[next]);
    }
  }

  ghost predicate Finishes(plan: Plan, order: seq<Id>, end: Plan) {
    Works(plan, order, end) && Pending(end) == {}
  }

  /** A plan can be worked off exactly when no pending action waits for something that is
      neither pending nor completed, and no pending actions wait for each other in a circle. */
  lemma FinishableIffUnblockedAndAcyclic(plan: Plan)
    ensures (exists order, end :: Finishes(plan, order, end)) <==> Unblocked(plan) && Acyclic(plan)
  {
    if Unblocked(plan) && Acyclic(plan) {
      var order, end := FinishingOrderExists(plan);
      assert Finishes(plan, order, end);
    }
    if order, end :| Finishes(plan, order, end) {
      FinishedWasPossible(plan, order, end);
    }
  }

  // ---------------------------------------------------------------------------
  // Crystallizing
  // ---------------------------------------------------------------------------

  function Retired(a: Action, summaryId: Id): Action {
    a.(status := "completed", crystallizedInto := Some(summaryId))
  }

  function FoundTitles(plan: Plan, ids: seq<Id>): seq<string> {
    if ids == [] then []
    else
      var last := ids[|ids| - 1];
      FoundTitles(plan, ids[..|ids| - 1]) + if last in plan then [plan[last].title] else []
  }

  /** The titles separated by semicolons. */
  function Joined(titles: seq<string>): string {
    if titles == [] then ""
    else if |titles| == 1 then titles[0]
    else Joined(titles[..|titles| - 1]) + "; " + titles[|titles| - 1]
  }

  /** The summary: completed, without dependencies, naming what it stands for. */
  function Summary(plan: Plan, ids: seq<Id>, heading: nat -> string): Action {
    var titles := FoundTitles(plan, ids);
    Action(heading(|titles|), Joined(titles), "completed", [], None, ids)
  }

  /** The found actions among `ids` are retired and the summary is added. */
  ghost predicate IsCrystallized(plan: Plan, ids: seq<Id>, summaryId: Id, summary: Action, after: Plan) {
    && after.Keys == plan.Keys + {summaryId}
    && (forall id :: id in plan && id in ids ==> after[id] == Retired(plan[id], summaryId))
    && (forall id :: id in plan && id !in ids && id != summaryId ==> after[id] == plan[id])
    && (summaryId !in plan || summaryId !in ids ==> after[summaryId] == summary)
  }

  class Store {
    var actions: Plan

    constructor (actions: Plan)
      ensures this.actions == actions
    {
      this.actions := actions;
    }

    /** `summaryId` stands for the freshly generated identifier and `heading` for the title
        formatted from the number of titles. */
    method Crystallize(ids: seq<Id>, summaryId: Id, heading: nat -> string) returns (summary: Row)
      modifies this
      ensures summary == Row(summaryId, Summary(old(actions), ids, heading))
      ensures summary.action.status == "completed" && summary.action.dependencies == []
      ensures summary.action.crystallizedInto == None && summary.action.sources == ids
      ensures forall id :: id in old(actions) && id in ids ==>
        id in actions && actions[id] == old(actions)[id].(status := "completed", crystallizedInto := Some(summaryId))
      ensures IsCrystallized(old(actions), ids, summaryId, summary.action, actions)
    {
      var sources, titles := FindSources(ids);
      summary := Row(summaryId, Action(heading(|titles|), Joined(titles), "completed", [], None, ids));
      ghost var before := actions;
      actions := actions[summaryId := summary.action];
      for i := 0 to |sources|
        invariant actions.Keys == before.Keys + {summaryId}
        invariant forall k :: 0 <= k < i ==> actions[sources[k].id] == Retired(before[sources[k].id], summaryId)
        invariant forall id :: id in before && id != summaryId && id !in ids ==> actions[id] == before[id]
        invariant summaryId !in before || summaryId !in ids ==> actions[summaryId] == summary.action
      {
        var src := sources[i];
        assert src in sources;
        actions := actions[src.id := Retired(src.action, summaryId)];
      }
      forall id | id in before && id in ids ensures actions[id] == Retired(before[id], summaryId) {
        assert Row(id, before[id]) in sources;
      }
    }

    /** Ids without an action are skipped. */
    method FindSources(ids: seq<Id>) returns (sources: seq<Row>, titles: seq<string>)
      ensures forall r :: r in sources <==> r.id in ids && r.id in actions && r.action == actions[r.id]
      ensures titles == FoundTitles(actions, ids)
    {
      sources, titles := [], [];
      for i := 0 to |ids|
        invariant forall r :: r in sources <==> r.id in ids[..i] && r.id in actions && r.action == actions[r.id]
        invariant titles == FoundTitles(actions, ids[..i])
      {
        assert ids[..i + 1][..i] == ids[..i];
        if ids[i] in actions {
          sources := sources + [Row(ids[i], actions[ids[i]])];
          titles := titles + [actions[ids[i]].title];
        }
      }
      assert ids[..|ids|] == ids;
    }
  }

  ghost predicate FreshFor(plan: Plan, id: Id) {
    id !in plan && forall other :: other in plan ==> id !in plan[other].dependencies
  }

  /** The frontier afterwards: the pending actions outside the sources whose dependencies are
      completed or among the sources.  So sources leave, nothing else leaves, and what enters
      was waiting for a source. */
  lemma FrontierAfterCrystallize(plan: Plan, ids: seq<Id>, summaryId: Id, summary: Action, after: Plan)
    requires IsCrystallized(plan, ids, summaryId, summary, after) && summary.status == "completed"
    requires FreshFor(plan, summaryId)
    ensures forall id :: id in FrontierOf(after) <==>
              IsPending(plan, id) && id !in ids &&
              forall d :: d in plan[id].dependencies ==> IsCompleted(plan, d) || (d in plan && d in ids)
    ensures forall id :: id in FrontierOf(plan) && id !in ids ==> id in FrontierOf(after)
    ensures forall id :: id in ids ==> id !in FrontierOf(after)
    ensures (forall id :: id in ids && id in plan ==> IsCompleted(plan, id)) ==> FrontierOf(after) == FrontierOf(plan)
  {
    forall id ensures Ready(after, id) <==>
              IsPending(plan, id) && id !in ids &&
              forall d :: d in plan[id].dependencies ==> IsCompleted(plan, d) || (d in plan && d in ids)
    {
      if id in plan && id !in ids {
        forall d | d in plan[id].dependencies
          ensures IsCompleted(after, d) <==> IsCompleted(plan, d) || (d in plan && d in ids)
        {
        }
      }
    }
    if forall id :: id in ids && id in plan ==> IsCompleted(plan, id) {
      forall id ensures Ready(after, id) <==> Ready(plan, id) {
      }
    }
  }
}

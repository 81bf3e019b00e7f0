/**
 The in-memory job queue: publishers, a bounded channel, consumers with retry and
 dead-lettering, and shutdown, as interleaved atomic steps.

 A publish call holds the lock only while it checks that the queue is open; the send comes
 later, so a close can fall between the two.
 */
module MemoryQueue {
  datatype Job = Job(id: string, jobType: string, attempt: int)

  predicate IsValid(jobType: string) {
    jobType == "compress" || jobType == "consolidate"
  }

  function Max(a: int, b: int): int {
    if a < b then b else a
  }

  // ---------------------------------------------------------------------------
  // One job
  // ---------------------------------------------------------------------------

  /** What becomes of a job whose handler just failed. */
  function Failed(j: Job): Job {
    j.(attempt := j.attempt + 1)
  }

  predicate Exhausted(j: Job, max: int) {
    j.attempt >= max
  }

  /** How often a job can be handed to the handler, at most. */
  function CallBudget(attempt: int, max: int): int {
    Max(1, max - attempt)
  }

  datatype Outcome = Acked | DeadLettered | Abandoned

  class Queue {
    const bufSize: nat
    const max: int
    var closed: bool
    var dead: seq<Job>

    constructor (bufSize: int, max: int)
      ensures this.bufSize > 0 && (bufSize > 0 ==> this.bufSize == bufSize) && (bufSize <= 0 ==> this.bufSize == 64)
      ensures this.max == if max == 0 then 3 else max
      ensures !closed && dead == []
    {
      this.bufSize := if bufSize <= 0 then 64 else bufSize;
      this.max := if max == 0 then 3 else max;
      closed, dead := false, [];
    }

    /** Call number `k` of the handler fails when `fails(k)`; the context is found cancelled
        during backoff number `k` when `cancelled(k)`. */
    method HandleOne(job: Job, fails: nat -> bool, cancelled: nat -> bool) returns (outcome: Outcome, calls: nat)
      modifies this`dead
      ensures 1 <= calls <= CallBudget(job.attempt, max)
      ensures forall k :: 0 <= k < calls - 1 ==> fails(k) && !cancelled(k)
      ensures outcome.Acked? <==> !fails(calls - 1)
      ensures outcome.DeadLettered? <==> fails(calls - 1) && calls == CallBudget(job.attempt, max)
      ensures outcome.Abandoned? ==> cancelled(calls - 1)
      ensures dead == if outcome.DeadLettered?
                      then old(dead) + [job.(attempt := Max(max, job.attempt + 1))] else old(dead)
    {
      var j := job;
      calls := 0;
      while true
        invariant 0 <= calls && j == job.(attempt := job.attempt + calls)
        invariant calls > 0 ==> j.attempt < max
        invariant forall k :: 0 <= k < calls ==> fails(k) && !cancelled(k)
        invariant dead == old(dead)
        decreases Max(max - j.attempt, 0) + (if calls == 0 then 1 else 0)
      {
        var err := fails(calls);
        calls := calls + 1;
        if !err {
          return Acked, calls;
        }
        j := Failed(j);
        if Exhausted(j, max) {
          dead := dead + [j];
          return DeadLettered, calls;
        }
        if cancelled(calls - 1) {
          return Abandoned, calls;
        }
      }
    }
  }

  // ---------------------------------------------------------------------------
  // The interleaved queue
  // ---------------------------------------------------------------------------

  /** A job in the queue: the how-manieth accepted send it was, and how often it was handed
      to a handler so far. */
  datatype Entry = Entry(ticket: nat, job: Job, handed: nat)

  datatype Publisher =
    | Sending(job: Job)
    | Sent(ticket: nat)
    | Invalid
    | Refused
    | GaveUp
    | Panicked

  /** A consumer that returned remembers whether it found the queue drained, and whether its
      context was cancelled by then. */
  datatype Phase =
    | Idle
    | Handling(e: Entry)
    | BackingOff(e: Entry)
    | Returned(drained: bool, afterCancel: bool)

  datatype Consumer = Consumer(phase: Phase, cancelled: bool)

  /** How a consumer got rid of a job. */
  datatype Settlement = Settlement(e: Entry, outcome: Outcome)

  /** `log` lists the settlements in the order in which they happened. */
  datatype State = State(
    bufSize: nat,
    max: int,
    closed: bool,
    publishers: seq<Publisher>,
    buffer: seq<Entry>,
    consumers: seq<Consumer>,
    accepted: seq<Job>,
    received: nat,
    log: seq<Settlement>)

  function Start(bufSize: nat, max: int): State {
    State(bufSize, max, false, [], [], [], [], 0, [])
  }

  datatype Step =
    | Publish(job: Job)
    | Send(p: nat)
    | SendOnClosed(p: nat)
    | PublishCancelled(p: nat)
    | Consume
    | Cancel(c: nat)
    | Receive(c: nat)
    | ReturnDrained(c: nat)
    | ReturnCancelled(c: nat)
    | HandlerOk(c: nat)
    | HandlerFails(c: nat)
    | BackoffElapses(c: nat)
    | BackoffCancelled(c: nat)
    | Close

  predicate PublisherSends(s: State, p: nat) {
    p < |s.publishers| && s.publishers[p].Sending?
  }

  predicate ConsumerIn(s: State, c: nat, phase: Phase -> bool) {
    c < |s.consumers| && phase(s.consumers[c].phase)
  }

  predicate Enabled(s: State, e: Step) {
    match e
    case Publish(job) => true
    case Send(p) => PublisherSends(s, p) && !s.closed && |s.buffer| < s.bufSize
    case SendOnClosed(p) => PublisherSends(s, p) && s.closed
    case PublishCancelled(p) => PublisherSends(s, p)
    case Consume => true
    case Cancel(c) => c < |s.consumers|
    case Receive(c) => ConsumerIn(s, c, (f: Phase) => f.Idle?) && s.buffer != []
    case ReturnDrained(c) => ConsumerIn(s, c, (f: Phase) => f.Idle?) && s.closed && s.buffer == []
    case ReturnCancelled(c) => ConsumerIn(s, c, (f: Phase) => f.Idle?) && s.consumers[c].cancelled
    case HandlerOk(c) => ConsumerIn(s, c, (f: Phase) => f.Handling?)
    case HandlerFails(c) => ConsumerIn(s, c, (f: Phase) => f.Handling?)
    case BackoffElapses(c) => ConsumerIn(s, c, (f: Phase) => f.BackingOff?)
    case BackoffCancelled(c) => ConsumerIn(s, c, (f: Phase) => f.BackingOff?) && s.consumers[c].cancelled
    case Close => true
  }

  function Enter(s: State, c: nat, phase: Phase): State
    requires c < |s.consumers|
  {
    s.(consumers := s.consumers[c := s.consumers[c].(phase := phase)])
  }

  /** Consumer `c` is done with its job. */
  function Settle(s: State, c: nat, e: Entry, outcome: Outcome): State
    requires c < |s.consumers|
  {
    Enter(s, c, Idle).(log := s.log + [Settlement(e, outcome)])
  }

  function Next(s: State, e: Step): State
    requires Enabled(s, e)
  {
    match e
    case Publish(job) =>
      s.(publishers := s.publishers
                       + [if !IsValid(job.jobType) then Invalid else if s.closed then Refused else Sending(job)])
    case Send(p) =>
      var n := |s.accepted|;
      var job := s.publishers[p].job;
      s.(publishers := s.publishers[p := Sent(n)], accepted := s.accepted + [job],
         buffer := s.buffer + [Entry(n, job, 0)])
    case SendOnClosed(p) => s.(publishers := s.publishers[p := Panicked])
    case PublishCancelled(p) => s.(publishers := s.publishers[p := GaveUp])
    case Consume => s.(consumers := s.consumers + [Consumer(Idle, false)])
    case Cancel(c) => s.(consumers := s.consumers[c := s.consumers[c].(cancelled := true)])
    case Receive(c) =>
      Enter(s, c, Handling(s.buffer[0].(handed := 1))).(buffer := s.buffer[1..], received := s.received + 1)
    case ReturnDrained(c) => Enter(s, c, Returned(true, s.consumers[c].cancelled))
    case ReturnCancelled(c) => Enter(s, c, Returned(false, true))
    case HandlerOk(c) => Settle(s, c, s.consumers[c].phase.e, Acked)
    case HandlerFails(c) =>
      var e := s.consumers[c].phase.e;
      var e' := e.(job := Failed(e.job));
      if Exhausted(e'.job, s.max) then Settle(s, c, e', DeadLettered) else Enter(s, c, BackingOff(e'))
    case BackoffElapses(c) =>
      var e := s.consumers[c].phase.e;
      Enter(s, c, Handling(e.(handed := e.handed + 1)))
    case BackoffCancelled(c) => Settle(s, c, s.consumers[c].phase.e, Abandoned)
    case Close => s.(closed := true)
  }

  ghost predicate Leads(s: State, run: seq<Step>, t: State)
    decreases |run|
  {
    if run == [] then s == t
    else Enabled(s, run[0]) && Leads(Next(s, run[0]), run[1..], t)
  }

  lemma {:induction false} LeadsAppend(s: State, run: seq<Step>, t: State, more: seq<Step>, u: State)
    requires Leads(s, run, t) && Leads(t, more, u)
    ensures Leads(s, run + more, u)
    decreases |run|
  {
    if run == [] {
      assert run + more == more;
    } else {
      assert (run + more)[1..] == run[1..] + more;
      LeadsAppend(Next(s, run[0]), run[1..], t, more, u);
    }
  }

  // ---------------------------------------------------------------------------
  // One job is a run of steps
  // ---------------------------------------------------------------------------

  /** The steps of `calls` handler calls that end in `outcome`. */
  function HandlingRun(c: nat, calls: nat, outcome: Outcome): seq<Step>
    requires calls > 0
  {
    if calls > 1 then [HandlerFails(c), BackoffElapses(c)] + HandlingRun(c, calls - 1, outcome)
    else
      match outcome
      case Acked => [HandlerOk(c)]
      case DeadLettered => [HandlerFails(c)]
      case Abandoned => [HandlerFails(c), BackoffCancelled(c)]
  }

  /** The settled job: every call but a successful one raised its attempts. */
  function HandledEntry(e: Entry, calls: nat, outcome: Outcome): Entry
    requires calls > 0
  {
    var failures := if outcome.Acked? then calls - 1 else calls;
    Entry(e.ticket, e.job.(attempt := e.job.attempt + failures), e.handed + calls - 1)
  }

  lemma LeadsOne(s: State, e: Step)
    requires Enabled(s, e)
    ensures Leads(s, [e], Next(s, e))
  {
    assert [e][1..] == [];
    assert Leads(Next(s, e), [], Next(s, e));
  }

  lemma FailThen(s: State, c: nat, e: Step)
    requires Enabled(s, HandlerFails(c)) && Enabled(Next(s, HandlerFails(c)), e)
    ensures Leads(s, [HandlerFails(c), e], Next(Next(s, HandlerFails(c)), e))
  {
    LeadsOne(s, HandlerFails(c));
    LeadsOne(Next(s, HandlerFails(c)), e);
    LeadsAppend(s, [HandlerFails(c)], Next(s, HandlerFails(c)), [e], Next(Next(s, HandlerFails(c)), e));
    assert [HandlerFails(c)] + [e] == [HandlerFails(c), e];
  }

  /** The consumer hands its job out again after a failure. */
  function Retried(s: State, c: nat): State
    requires ConsumerIn(s, c, (f: Phase) => f.Handling?)
  {
    var e := s.consumers[c].phase.e;
    Enter(s, c, Handling(Entry(e.ticket, Failed(e.job), e.handed + 1)))
  }

  lemma FailAgain(s: State, c: nat)
    requires ConsumerIn(s, c, (f: Phase) => f.Handling?)
    requires !Exhausted(Failed(s.consumers[c].phase.e.job), s.max)
    ensures Leads(s, [HandlerFails(c), BackoffElapses(c)], Retried(s, c))
  {
    FailThen(s, c, BackoffElapses(c));
    assert Next(Next(s, HandlerFails(c)), BackoffElapses(c)).consumers == Retried(s, c).consumers;
  }

  lemma RetriedSettles(s: State, c: nat, calls: nat, outcome: Outcome)
    requires ConsumerIn(s, c, (f: Phase) => f.Handling?) && calls > 1
    ensures var t := Retried(s, c);
      Settle(t, c, HandledEntry(t.consumers[c].phase.e, calls - 1, outcome), outcome)
      == Settle(s, c, HandledEntry(s.consumers[c].phase.e, calls, outcome), outcome)
  {
  }

  /** Every result that `HandleOne` may return is a run of handler and backoff steps of one
      consumer, which leaves it idle with the job settled that way. */
  lemma {:induction false} HandlingIsARun(s: State, c: nat, calls: nat, outcome: Outcome)
    requires ConsumerIn(s, c, (f: Phase) => f.Handling?)
    requires 1 <= calls <= CallBudget(s.consumers[c].phase.e.job.attempt, s.max)
    requires outcome.DeadLettered? ==> calls == CallBudget(s.consumers[c].phase.e.job.attempt, s.max)
    requires outcome.Abandoned? ==>
      calls < CallBudget(s.consumers[c].phase.e.job.attempt, s.max) && s.consumers[c].cancelled
    ensures Leads(s, HandlingRun(c, calls, outcome),
                  Settle(s, c, HandledEntry(s.consumers[c].phase.e, calls, outcome), outcome))
    decreases calls
  {
    if calls > 1 {
      var t := Retried(s, c);
      FailAgain(s, c);
      HandlingIsARun(t, c, calls - 1, outcome);
      RetriedSettles(s, c, calls, outcome);
      LeadsAppend(s, [HandlerFails(c), BackoffElapses(c)], t, HandlingRun(c, calls - 1, outcome),
                  Settle(s, c, HandledEntry(s.consumers[c].phase.e, calls, outcome), outcome));
    } else {
      LastCall(s, c, outcome);
    }
  }

  lemma LastCall(s: State, c: nat, outcome: Outcome)
    requires ConsumerIn(s, c, (f: Phase) => f.Handling?)
    requires outcome.DeadLettered? ==> Exhausted(Failed(s.consumers[c].phase.e.job), s.max)
    requires outcome.Abandoned? ==>
      !Exhausted(Failed(s.consumers[c].phase.e.job), s.max) && s.consumers[c].cancelled
    ensures Leads(s, HandlingRun(c, 1, outcome),
                  Settle(s, c, HandledEntry(s.consumers[c].phase.e, 1, outcome), outcome))
  {
    if outcome.Acked? {
      LeadsOne(s, HandlerOk(c));
    } else if outcome.DeadLettered? {
      LeadsOne(s, HandlerFails(c));
    } else {
      FailThen(s, c, BackoffCancelled(c));
      assert Next(Next(s, HandlerFails(c)), BackoffCancelled(c)).consumers
          == s.consumers[c := s.consumers[c].(phase := Idle)];
    }
  }

  // ---------------------------------------------------------------------------
  // Every accepted job is in one place
  // ---------------------------------------------------------------------------

  /** How often ticket `t` occurs. */
  function Tickets(es: seq<Entry>, t: nat): nat {
    if es == [] then 0 else Tickets(es[..|es| - 1], t) + if es[|es| - 1].ticket == t then 1 else 0
  }

  /** How often ticket `t` was settled with this outcome. */
  function SettledAs(log: seq<Settlement>, t: nat, outcome: Outcome): nat {
    if log == [] then 0
    else
      SettledAs(log[..|log| - 1], t, outcome)
      + if log[|log| - 1].e.ticket == t && log[|log| - 1].outcome == outcome then 1 else 0
  }

  function Settled(log: seq<Settlement>, t: nat): nat {
    SettledAs(log, t, Acked) + SettledAs(log, t, DeadLettered) + SettledAs(log, t, Abandoned)
  }

  function Holds(f: Phase, t: nat): nat {
    if (f.Handling? || f.BackingOff?) && f.e.ticket == t then 1 else 0
  }

  function InFlight(cs: seq<Consumer>, t: nat): nat {
    if cs == [] then 0 else InFlight(cs[..|cs| - 1], t) + Holds(cs[|cs| - 1].phase, t)
  }

  /** In how many places the accepted job `t` is. */
  function Places(s: State, t: nat): nat {
    Tickets(s.buffer, t) + InFlight(s.consumers, t) + Settled(s.log, t)
  }

  /** Buffered, in flight, acknowledged, dead-lettered or abandoned: each accepted job is in
      exactly one place, and nothing else is in any. */
  ghost predicate Partitioned(s: State) {
    forall t: nat :: Places(s, t) == if t < |s.accepted| then 1 else 0
  }

  lemma TicketsAppend(es: seq<Entry>, e: Entry, t: nat)
    ensures Tickets(es + [e], t) == Tickets(es, t) + if e.ticket == t then 1 else 0
  {
    assert (es + [e])[..|es|] == es;
  }

  lemma SettledAppend(log: seq<Settlement>, x: Settlement, t: nat)
    ensures Settled(log + [x], t) == Settled(log, t) + if x.e.ticket == t then 1 else 0
  {
    assert (log + [x])[..|log|] == log;
  }

  lemma {:induction false} TicketsTail(es: seq<Entry>, t: nat)
    requires es != []
    ensures Tickets(es, t) == Tickets(es[1..], t) + if es[0].ticket == t then 1 else 0
    decreases |es|
  {
    if |es| > 1 {
      TicketsTail(es[..|es| - 1], t);
      assert es[..|es| - 1][1..] == es[1..][..|es| - 2];
    }
  }

  lemma InFlightAppend(cs: seq<Consumer>, c: Consumer, t: nat)
    ensures InFlight(cs + [c], t) == InFlight(cs, t) + Holds(c.phase, t)
  {
    assert (cs + [c])[..|cs|] == cs;
  }

  lemma {:induction false} InFlightUpdate(cs: seq<Consumer>, i: nat, c: Consumer, t: nat)
    requires i < |cs|
    ensures InFlight(cs[i := c], t) + Holds(cs[i].phase, t) == InFlight(cs, t) + Holds(c.phase, t)
    decreases |cs|
  {
    var n := |cs| - 1;
    if i == n {
      assert cs[i := c][..n] == cs[..n];
    } else {
      assert cs[i := c][..n] == cs[..n][i := c];
      InFlightUpdate(cs[..n], i, c, t);
      assert cs[i := c][n] == cs[n];
    }
  }

  lemma EnterMoves(s: State, c: nat, phase: Phase, t: nat)
    requires c < |s.consumers|
    ensures InFlight(Enter(s, c, phase).consumers, t) + Holds(s.consumers[c].phase, t)
         == InFlight(s.consumers, t) + Holds(phase, t)
  {
    InFlightUpdate(s.consumers, c, s.consumers[c].(phase := phase), t);
  }

  lemma SettleMoves(s: State, c: nat, e: Entry, outcome: Outcome, t: nat)
    requires c < |s.consumers| && Holds(s.consumers[c].phase, t) == if e.ticket == t then 1 else 0
    ensures Places(Settle(s, c, e, outcome), t) == Places(s, t)
  {
    EnterMoves(s, c, Idle, t);
    SettledAppend(s.log, Settlement(e, outcome), t);
  }

  lemma FailureMovesJob(s: State, c: nat, t: nat)
    requires Enabled(s, HandlerFails(c))
    ensures Places(Next(s, HandlerFails(c)), t) == Places(s, t)
  {
    var e := s.consumers[c].phase.e;
    var e' := e.(job := Failed(e.job));
    if Exhausted(e'.job, s.max) {
      SettleMoves(s, c, e', DeadLettered, t);
    } else {
      EnterMoves(s, c, BackingOff(e'), t);
    }
  }

  lemma OutcomeMovesJob(s: State, e: Step, t: nat)
    requires Enabled(s, e) && (e.HandlerOk? || e.BackoffElapses? || e.BackoffCancelled?)
    ensures Places(Next(s, e), t) == Places(s, t)
  {
    var held := s.consumers[e.c].phase.e;
    match e {
      case HandlerOk(c) => SettleMoves(s, c, held, Acked, t);
      case BackoffCancelled(c) => SettleMoves(s, c, held, Abandoned, t);
      case BackoffElapses(c) => EnterMoves(s, c, Handling(held.(handed := held.handed + 1)), t);
    }
  }

  lemma ReceiveMovesJob(s: State, c: nat, t: nat)
    requires Enabled(s, Receive(c))
    ensures Places(Next(s, Receive(c)), t) == Places(s, t)
  {
    EnterMoves(s, c, Next(s, Receive(c)).consumers[c].phase, t);
    TicketsTail(s.buffer, t);
  }

  lemma ReturnMovesNoJob(s: State, e: Step, t: nat)
    requires Enabled(s, e) && (e.ReturnDrained? || e.ReturnCancelled? || e.Cancel? || e.Consume?)
    ensures Places(Next(s, e), t) == Places(s, t)
  {
    match e {
      case Consume => InFlightAppend(s.consumers, Consumer(Idle, false), t);
      case Cancel(c) => InFlightUpdate(s.consumers, c, Next(s, e).consumers[c], t);
      case ReturnDrained(c) => EnterMoves(s, c, Next(s, e).consumers[c].phase, t);
      case ReturnCancelled(c) => EnterMoves(s, c, Next(s, e).consumers[c].phase, t);
    }
  }

  /** Only an accepted send adds a job; every other step moves one or does nothing. */
  lemma StepMovesJobs(s: State, e: Step, t: nat)
    requires Enabled(s, e)
    ensures Places(Next(s, e), t) == Places(s, t) + if e.Send? && t == |s.accepted| then 1 else 0
  {
    if e.Send? {
      TicketsAppend(s.buffer, Next(s, e).buffer[|s.buffer|], t);
    } else if e.Receive? {
      ReceiveMovesJob(s, e.c, t);
    } else if e.ReturnDrained? || e.ReturnCancelled? || e.Cancel? || e.Consume? {
      ReturnMovesNoJob(s, e, t);
    } else if e.HandlerFails? {
      FailureMovesJob(s, e.c, t);
    } else if e.HandlerOk? || e.BackoffElapses? || e.BackoffCancelled? {
      OutcomeMovesJob(s, e, t);
    }
  }

  lemma StepKeepsPartition(s: State, e: Step)
    requires Partitioned(s) && Enabled(s, e)
    ensures Partitioned(Next(s, e))
  {
    forall t: nat ensures Places(Next(s, e), t) == if t < |Next(s, e).accepted| then 1 else 0 {
      StepMovesJobs(s, e, t);
    }
  }

  // ---------------------------------------------------------------------------
  // Attempts, order, shutdown
  // ---------------------------------------------------------------------------

  /** Tickets are received in the order of the accepted sends, and the buffer is bounded. */
  ghost predicate InOrder(s: State) {
    && s.received + |s.buffer| == |s.accepted|
    && |s.buffer| <= s.bufSize
    && (forall i :: 0 <= i < |s.buffer| ==>
          s.buffer[i] == Entry(s.received + i, s.accepted[s.received + i], 0))
  }

  /** The entry is the accepted job number `e.ticket` after `failures` failed calls. */
  ghost predicate Tracks(accepted: seq<Job>, max: int, e: Entry, failures: int) {
    && e.ticket < |accepted|
    && e.job == accepted[e.ticket].(attempt := accepted[e.ticket].attempt + failures)
    && 1 <= e.handed <= CallBudget(accepted[e.ticket].attempt, max)
  }

  /** Every call failed so far, and another one is allowed. */
  ghost predicate Unfinished(accepted: seq<Job>, max: int, e: Entry) {
    Tracks(accepted, max, e, e.handed) && e.job.attempt < max
  }

  ghost predicate PhaseCounted(accepted: seq<Job>, max: int, f: Phase) {
    && (f.Handling? ==> Tracks(accepted, max, f.e, f.e.handed - 1))
    && (f.BackingOff? ==> Unfinished(accepted, max, f.e))
  }

  ghost predicate PhasesCounted(accepted: seq<Job>, max: int, cs: seq<Consumer>) {
    forall c :: 0 <= c < |cs| ==> PhaseCounted(accepted, max, cs[c].phase)
  }

  /** An acknowledged job failed in all calls but the last; a dead one used up its whole
      budget; an abandoned one had calls left. */
  ghost predicate SettlementCounted(accepted: seq<Job>, max: int, x: Settlement) {
    match x.outcome
    case Acked => Tracks(accepted, max, x.e, x.e.handed - 1)
    case DeadLettered =>
      && Tracks(accepted, max, x.e, x.e.handed)
      && x.e.handed == CallBudget(accepted[x.e.ticket].attempt, max)
    case Abandoned => Unfinished(accepted, max, x.e)
  }

  /** Retry bookkeeping of every job that left the buffer. */
  ghost predicate Counted(s: State) {
    && PhasesCounted(s.accepted, s.max, s.consumers)
    && (forall i :: 0 <= i < |s.log| ==> SettlementCounted(s.accepted, s.max, s.log[i]))
  }

  /** The consumer was cancelled while it was at work. */
  predicate CancelledAtWork(c: Consumer) {
    if c.phase.Returned? then c.phase.afterCancel else c.cancelled
  }

  ghost predicate SomeoneCancelled(cs: seq<Consumer>) {
    exists c :: 0 <= c < |cs| && CancelledAtWork(cs[c])
  }

  ghost predicate SomethingAbandoned(log: seq<Settlement>) {
    exists i :: 0 <= i < |log| && log[i].outcome.Abandoned?
  }

  /** A consumer returns drained only from a closed, empty queue, and a job is abandoned only
      by a consumer cancelled at work. */
  ghost predicate Drained(s: State) {
    && (forall c :: 0 <= c < |s.consumers| && s.consumers[c].phase.Returned? && s.consumers[c].phase.drained ==>
          s.closed && s.buffer == [])
    && (SomethingAbandoned(s.log) ==> SomeoneCancelled(s.consumers))
  }

  ghost predicate Sound(s: State) {
    Partitioned(s) && InOrder(s) && Counted(s) && Drained(s)
  }

  lemma SendKeepsOrder(s: State, p: nat)
    requires InOrder(s) && Enabled(s, Send(p))
    ensures InOrder(Next(s, Send(p)))
  {
  }

  lemma ReceiveKeepsOrder(s: State, c: nat)
    requires InOrder(s) && Enabled(s, Receive(c))
    ensures InOrder(Next(s, Receive(c)))
  {
  }

  lemma StepKeepsOrder(s: State, e: Step)
    requires InOrder(s) && Enabled(s, e)
    ensures InOrder(Next(s, e))
  {
    if e.Send? {
      SendKeepsOrder(s, e.p);
    } else if e.Receive? {
      ReceiveKeepsOrder(s, e.c);
    }
  }

  lemma PhaseAfterFailure(accepted: seq<Job>, max: int, e: Entry)
    requires Tracks(accepted, max, e, e.handed - 1)
    ensures var e' := e.(job := Failed(e.job));
            if Exhausted(e'.job, max) then SettlementCounted(accepted, max, Settlement(e', DeadLettered))
            else PhaseCounted(accepted, max, BackingOff(e'))
  {
  }

  lemma PhaseAfterBackoff(accepted: seq<Job>, max: int, e: Entry)
    requires Unfinished(accepted, max, e)
    ensures PhaseCounted(accepted, max, Handling(e.(handed := e.handed + 1)))
    ensures SettlementCounted(accepted, max, Settlement(e, Abandoned))
  {
  }

  lemma EnterKeepsPhases(s: State, c: nat, phase: Phase)
    requires PhasesCounted(s.accepted, s.max, s.consumers) && c < |s.consumers|
    requires PhaseCounted(s.accepted, s.max, phase)
    ensures PhasesCounted(s.accepted, s.max, Enter(s, c, phase).consumers)
  {
  }

  lemma SettleKeepsCounts(s: State, c: nat, e: Entry, outcome: Outcome)
    requires Counted(s) && c < |s.consumers| && SettlementCounted(s.accepted, s.max, Settlement(e, outcome))
    ensures Counted(Settle(s, c, e, outcome))
  {
    EnterKeepsPhases(s, c, Idle);
  }

  lemma FailureKeepsCounts(s: State, c: nat)
    requires Counted(s) && Enabled(s, HandlerFails(c))
    ensures Counted(Next(s, HandlerFails(c)))
  {
    var e := s.consumers[c].phase.e;
    var e' := e.(job := Failed(e.job));
    PhaseAfterFailure(s.accepted, s.max, e);
    if Exhausted(e'.job, s.max) {
      SettleKeepsCounts(s, c, e', DeadLettered);
    } else {
      EnterKeepsPhases(s, c, BackingOff(e'));
    }
  }

  lemma OutcomeKeepsCounts(s: State, e: Step)
    requires Counted(s) && Enabled(s, e) && (e.HandlerOk? || e.BackoffElapses? || e.BackoffCancelled?)
    ensures Counted(Next(s, e))
  {
    var held := s.consumers[e.c].phase.e;
    assert PhaseCounted(s.accepted, s.max, s.consumers[e.c].phase);
    if e.HandlerOk? {
      SettleKeepsCounts(s, e.c, held, Acked);
    } else {
      PhaseAfterBackoff(s.accepted, s.max, held);
      if e.BackoffElapses? {
        EnterKeepsPhases(s, e.c, Handling(held.(handed := held.handed + 1)));
      } else {
        SettleKeepsCounts(s, e.c, held, Abandoned);
      }
    }
  }

  lemma ReceiveKeepsCounts(s: State, c: nat)
    requires InOrder(s) && Counted(s) && Enabled(s, Receive(c))
    ensures Counted(Next(s, Receive(c)))
  {
    EnterKeepsPhases(s, c, Handling(s.buffer[0].(handed := 1)));
  }

  lemma SendKeepsCounts(s: State, p: nat)
    requires Counted(s) && Enabled(s, Send(p))
    ensures Counted(Next(s, Send(p)))
  {
    var accepted := Next(s, Send(p)).accepted;
    forall c | 0 <= c < |s.consumers| ensures PhaseCounted(accepted, s.max, s.consumers[c].phase) {
    }
    forall i | 0 <= i < |s.log| ensures SettlementCounted(accepted, s.max, s.log[i]) {
    }
  }

  lemma QuietKeepsCounts(s: State, e: Step)
    requires Counted(s) && Enabled(s, e)
    requires e.Consume? || e.Cancel? || e.ReturnDrained? || e.ReturnCancelled?
    ensures Counted(Next(s, e))
  {
    assert PhasesCounted(s.accepted, s.max, s.consumers);
    assert PhasesCounted(s.accepted, s.max, Next(s, e).consumers);
  }

  lemma StepKeepsCounts(s: State, e: Step)
    requires InOrder(s) && Counted(s) && Enabled(s, e)
    ensures Counted(Next(s, e))
  {
    if e.HandlerFails? {
      FailureKeepsCounts(s, e.c);
    } else if e.HandlerOk? || e.BackoffElapses? || e.BackoffCancelled? {
      OutcomeKeepsCounts(s, e);
    } else if e.Receive? {
      ReceiveKeepsCounts(s, e.c);
    } else if e.Send? {
      SendKeepsCounts(s, e.p);
    } else if e.Consume? || e.Cancel? || e.ReturnDrained? || e.ReturnCancelled? {
      QuietKeepsCounts(s, e);
    }
  }

  lemma StaysCancelled(s: State, e: Step)
    requires Enabled(s, e) && SomeoneCancelled(s.consumers)
    ensures SomeoneCancelled(Next(s, e).consumers)
  {
    var c :| 0 <= c < |s.consumers| && CancelledAtWork(s.consumers[c]);
    assert CancelledAtWork(Next(s, e).consumers[c]);
  }

  lemma NewlyAbandoned(s: State, e: Step)
    requires Enabled(s, e) && SomethingAbandoned(Next(s, e).log) && !SomethingAbandoned(s.log)
    ensures SomeoneCancelled(Next(s, e).consumers)
  {
    var t := Next(s, e);
    assert forall i :: 0 <= i < |s.log| ==> t.log[i] == s.log[i] && !s.log[i].outcome.Abandoned?;
    assert e.BackoffCancelled?;
    assert CancelledAtWork(t.consumers[e.c]);
  }

  lemma ReturnsDrained(s: State, e: Step, c: nat)
    requires Drained(s) && Enabled(s, e) && c < |Next(s, e).consumers|
    requires Next(s, e).consumers[c].phase.Returned? && Next(s, e).consumers[c].phase.drained
    ensures Next(s, e).closed && Next(s, e).buffer == []
  {
    if !(e.ReturnDrained? && e.c == c) {
      assert s.consumers[c].phase.Returned? && s.consumers[c].phase.drained;
    }
  }

  lemma StepKeepsDrained(s: State, e: Step)
    requires Drained(s) && Enabled(s, e)
    ensures Drained(Next(s, e))
  {
    var t := Next(s, e);
    if SomeoneCancelled(s.consumers) {
      StaysCancelled(s, e);
    } else if SomethingAbandoned(t.log) {
      NewlyAbandoned(s, e);
    }
    forall c | 0 <= c < |t.consumers| && t.consumers[c].phase.Returned? && t.consumers[c].phase.drained
      ensures t.closed && t.buffer == []
    {
      ReturnsDrained(s, e, c);
    }
  }

  lemma {:induction false} RunKeepsSound(s: State, run: seq<Step>, t: State)
    requires Sound(s) && Leads(s, run, t)
    ensures Sound(t)
    decreases |run|
  {
    if run != [] {
      StepKeepsPartition(s, run[0]);
      StepKeepsOrder(s, run[0]);
      StepKeepsCounts(s, run[0]);
      StepKeepsDrained(s, run[0]);
      RunKeepsSound(Next(s, run[0]), run[1..], t);
    }
  }

  // ---------------------------------------------------------------------------
  // Main results
  // ---------------------------------------------------------------------------

  /** At all times each accepted job is in exactly one of the five places, and the buffer holds
      the accepted jobs that were not received yet, in the order they were sent. */
  lemma JobsAreConserved(bufSize: nat, max: int, run: seq<Step>, t: State)
    requires Leads(Start(bufSize, max), run, t)
    ensures Partitioned(t)
    ensures |t.buffer| <= bufSize && t.received + |t.buffer| == |t.accepted|
    ensures forall i :: 0 <= i < |t.buffer| ==>
              t.buffer[i].ticket == t.received + i && t.buffer[i].job == t.accepted[t.received + i]
  {
    RunKeepsSound(Start(bufSize, max), run, t);
    LeadsKeepsPolicy(Start(bufSize, max), run, t);
  }

  lemma {:induction false} LeadsKeepsPolicy(s: State, run: seq<Step>, t: State)
    requires Leads(s, run, t)
    ensures t.bufSize == s.bufSize && t.max == s.max
    decreases |run|
  {
    if run != [] {
      LeadsKeepsPolicy(Next(s, run[0]), run[1..], t);
    }
  }

  /** How often a job accepted fresh may have been handed out by the time it is here. */
  ghost predicate HandedBetween(accepted: seq<Job>, e: Entry, least: int, most: int) {
    e.ticket < |accepted| && (accepted[e.ticket].attempt == 0 ==> least <= e.handed <= most)
  }

  /** The retry limit: a job accepted fresh is handed to the handler at most `max` times
      wherever it is, not yet in the buffer, fewer than `max` times when another call may
      follow or was given up, and exactly `max` times, with that many attempts on record,
      when it is dead-lettered. */
  lemma RetriesAreBounded(bufSize: nat, max: int, run: seq<Step>, t: State)
    requires Leads(Start(bufSize, max), run, t) && max >= 1
    ensures forall i :: 0 <= i < |t.buffer| ==> t.buffer[i].handed == 0
    ensures forall c :: 0 <= c < |t.consumers| && t.consumers[c].phase.Handling? ==>
              HandedBetween(t.accepted, t.consumers[c].phase.e, 1, max)
    ensures forall c :: 0 <= c < |t.consumers| && t.consumers[c].phase.BackingOff? ==>
              HandedBetween(t.accepted, t.consumers[c].phase.e, 1, max - 1)
    ensures forall i :: 0 <= i < |t.log| && t.log[i].outcome.Acked? ==>
              HandedBetween(t.accepted, t.log[i].e, 1, max)
    ensures forall i :: 0 <= i < |t.log| && t.log[i].outcome.Abandoned? ==>
              HandedBetween(t.accepted, t.log[i].e, 1, max - 1)
    ensures forall i :: 0 <= i < |t.log| && t.log[i].outcome.DeadLettered? ==>
              HandedBetween(t.accepted, t.log[i].e, max, max)
              && (t.accepted[t.log[i].e.ticket].attempt == 0 ==> t.log[i].e.job.attempt == max)
  {
    RunKeepsSound(Start(bufSize, max), run, t);
    LeadsKeepsPolicy(Start(bufSize, max), run, t);
    forall c | 0 <= c < |t.consumers|
      ensures t.consumers[c].phase.Handling? ==> HandedBetween(t.accepted, t.consumers[c].phase.e, 1, max)
      ensures t.consumers[c].phase.BackingOff? ==> HandedBetween(t.accepted, t.consumers[c].phase.e, 1, max - 1)
    {
      assert PhaseCounted(t.accepted, max, t.consumers[c].phase);
    }
    forall i | 0 <= i < |t.log|
      ensures t.log[i].outcome.Acked? ==> HandedBetween(t.accepted, t.log[i].e, 1, max)
      ensures t.log[i].outcome.Abandoned? ==> HandedBetween(t.accepted, t.log[i].e, 1, max - 1)
      ensures t.log[i].outcome.DeadLettered? ==>
                HandedBetween(t.accepted, t.log[i].e, max, max)
                && (t.accepted[t.log[i].e.ticket].attempt == 0 ==> t.log[i].e.job.attempt == max)
    {
      assert SettlementCounted(t.accepted, max, t.log[i]);
    }
  }

  predicate TurnedAway(p: Publisher) {
    p.Refused? || p.Invalid?
  }

  /** After a close nothing is accepted any more: later publish calls are refused and calls
      caught between their check and their send never get a ticket. */
  lemma {:induction false} NothingAcceptedAfterClose(s: State, run: seq<Step>, t: State)
    requires s.closed && Leads(s, run, t)
    ensures t.closed && t.accepted == s.accepted
    ensures |s.publishers| <= |t.publishers|
    ensures forall p :: |s.publishers| <= p < |t.publishers| ==> TurnedAway(t.publishers[p])
    decreases |run|
  {
    if run != [] {
      var s' := Next(s, run[0]);
      NothingAcceptedAfterClose(s', run[1..], t);
      if |s'.publishers| > |s.publishers| {
        TurnedAwayStays(s', run[1..], t, |s.publishers|);
      }
    }
  }

  lemma {:induction false} TurnedAwayStays(s: State, run: seq<Step>, t: State, p: nat)
    requires p < |s.publishers| && TurnedAway(s.publishers[p]) && Leads(s, run, t)
    ensures p < |t.publishers| && TurnedAway(t.publishers[p])
    decreases |run|
  {
    if run != [] {
      TurnedAwayStays(Next(s, run[0]), run[1..], t, p);
    }
  }

  /** When every consumer returned because it found the queue drained, whatever happened to its
      context since: every accepted job was settled, once; and unless some consumer had been
      cancelled at work by then, it was acknowledged or dead-lettered. */
  lemma ShutdownLosesNothing(bufSize: nat, max: int, run: seq<Step>, t: State, job: nat)
    requires Leads(Start(bufSize, max), run, t)
    requires |t.consumers| > 0
    requires forall c :: 0 <= c < |t.consumers| ==> t.consumers[c].phase.Returned? && t.consumers[c].phase.drained
    requires job < |t.accepted|
    ensures t.closed && t.buffer == []
    ensures Settled(t.log, job) == 1
    ensures (forall c :: 0 <= c < |t.consumers| ==> !t.consumers[c].phase.afterCancel) ==>
              SettledAs(t.log, job, Acked) + SettledAs(t.log, job, DeadLettered) == 1
  {
    RunKeepsSound(Start(bufSize, max), run, t);
    assert t.consumers[0].phase.Returned?;
    NoneInFlight(t.consumers, job);
    assert Places(t, job) == 1;
    if !SomethingAbandoned(t.log) {
      NoneAbandoned(t.log, job);
    }
  }

  lemma {:induction false} NoneInFlight(cs: seq<Consumer>, t: nat)
    requires forall c :: 0 <= c < |cs| ==> cs[c].phase.Returned?
    ensures InFlight(cs, t) == 0
  {
    if cs != [] {
      NoneInFlight(cs[..|cs| - 1], t);
    }
  }

  lemma {:induction false} NoneAbandoned(log: seq<Settlement>, t: nat)
    requires forall i :: 0 <= i < |log| ==> !log[i].outcome.Abandoned?
    ensures SettledAs(log, t, Abandoned) == 0
    decreases |log|
  {
    if log != [] {
      NoneAbandoned(log[..|log| - 1], t);
    }
  }

  // --- one consumer -------------------------------------------------------------

  predicate AtWork(f: Phase) {
    f.Handling? || f.BackingOff?
  }

  /** Received jobs but the one a lone consumer holds. */
  function Finished(s: State): int {
    if |s.consumers| == 1 && AtWork(s.consumers[0].phase) then s.received - 1 else s.received
  }

  /** What a lone consumer keeps: it holds the job received last, and the log is 0, 1, 2, ... */
  ghost predicate Sequential(s: State) {
    |s.consumers| <= 1 ==>
      && (|s.consumers| == 1 && AtWork(s.consumers[0].phase) ==> s.consumers[0].phase.e.ticket == s.received - 1)
      && |s.log| == Finished(s)
      && (forall i :: 0 <= i < |s.log| ==> s.log[i].e.ticket == i)
  }

  /** The consumer lets go of its job, and the log takes it up. */
  lemma SettleKeepsSequential(s: State, c: nat, e: Entry, outcome: Outcome)
    requires Sequential(s) && c < |s.consumers| && AtWork(s.consumers[c].phase)
    requires e.ticket == s.consumers[c].phase.e.ticket
    ensures Sequential(Settle(s, c, e, outcome))
  {
  }

  lemma ReceiveKeepsSequential(s: State, c: nat)
    requires InOrder(s) && Sequential(s) && Enabled(s, Receive(c))
    ensures Sequential(Next(s, Receive(c)))
  {
  }

  lemma FailureKeepsSequential(s: State, c: nat)
    requires Sequential(s) && Enabled(s, HandlerFails(c))
    ensures Sequential(Next(s, HandlerFails(c)))
  {
    var e := s.consumers[c].phase.e;
    SettleKeepsSequential(s, c, e.(job := Failed(e.job)), DeadLettered);
  }

  lemma QuietKeepsSequential(s: State, e: Step)
    requires Sequential(s) && Enabled(s, e)
    requires e.Consume? || e.Cancel? || e.ReturnDrained? || e.ReturnCancelled? || e.BackoffElapses?
    ensures Sequential(Next(s, e))
  {
  }

  lemma StepKeepsSequential(s: State, e: Step)
    requires InOrder(s) && Sequential(s) && Enabled(s, e)
    ensures Sequential(Next(s, e))
  {
    if e.Receive? {
      ReceiveKeepsSequential(s, e.c);
    } else if e.HandlerOk? {
      SettleKeepsSequential(s, e.c, s.consumers[e.c].phase.e, Acked);
    } else if e.BackoffCancelled? {
      SettleKeepsSequential(s, e.c, s.consumers[e.c].phase.e, Abandoned);
    } else if e.HandlerFails? {
      FailureKeepsSequential(s, e.c);
    } else if e.Consume? || e.Cancel? || e.ReturnDrained? || e.ReturnCancelled? || e.BackoffElapses? {
      QuietKeepsSequential(s, e);
    }
  }

  lemma {:induction false} RunKeepsSequential(s: State, run: seq<Step>, t: State)
    requires Sound(s) && Sequential(s) && Leads(s, run, t)
    ensures Sequential(t)
    decreases |run|
  {
    if run != [] {
      StepKeepsSequential(s, run[0]);
      LeadsOne(s, run[0]);
      RunKeepsSound(s, [run[0]], Next(s, run[0]));
      RunKeepsSequential(Next(s, run[0]), run[1..], t);
    }
  }

  /** With one consumer the jobs are settled exactly as job 0, job 1, job 2, ... in the order
      they were sent, every received job but the one in its hands, which is the last received. */
  lemma OneConsumerWorksInSendOrder(bufSize: nat, max: int, run: seq<Step>, t: State)
    requires Leads(Start(bufSize, max), run, t) && |t.consumers| == 1
    ensures forall i :: 0 <= i < |t.log| ==> t.log[i].e.ticket == i
    ensures if AtWork(t.consumers[0].phase)
            then |t.log| == t.received - 1 && t.consumers[0].phase.e.ticket == t.received - 1
            else |t.log| == t.received
  {
    RunKeepsSequential(Start(bufSize, max), run, t);
  }

  // --- closing under a send -------------------------------------------------------

  ghost predicate SomeoneSending(s: State) {
    exists p :: 0 <= p < |s.publishers| && s.publishers[p].Sending?
  }

  ghost predicate SomeonePanicked(s: State) {
    exists p :: 0 <= p < |s.publishers| && s.publishers[p].Panicked?
  }

  /** No close in the run falls between a publisher's check and its send. */
  ghost predicate ClosesCleanly(s: State, run: seq<Step>)
    decreases |run|
  {
    run == [] ||
    (Enabled(s, run[0]) && (run[0].Close? && !s.closed ==> !SomeoneSending(s))
     && ClosesCleanly(Next(s, run[0]), run[1..]))
  }

  lemma {:induction false} CleanCloseNeverPanics(s: State, run: seq<Step>, t: State)
    requires Leads(s, run, t) && ClosesCleanly(s, run)
    requires !SomeonePanicked(s) && (s.closed ==> !SomeoneSending(s))
    ensures !SomeonePanicked(t)
    decreases |run|
  {
    if run != [] {
      var s' := Next(s, run[0]);
      forall p | 0 <= p < |s'.publishers|
        ensures !s'.publishers[p].Panicked? && (s'.closed ==> !s'.publishers[p].Sending?)
      {
        if p < |s.publishers| {
          assert !s.publishers[p].Panicked?;
        }
      }
      CleanCloseNeverPanics(s', run[1..], t);
    }
  }

  /** A closed queue cannot be closed uncleanly any more. */
  lemma {:induction false} ClosedClosesCleanly(s: State, run: seq<Step>, t: State)
    requires s.closed && Leads(s, run, t)
    ensures ClosesCleanly(s, run)
    decreases |run|
  {
    if run != [] {
      ClosedClosesCleanly(Next(s, run[0]), run[1..], t);
    }
  }

  /** Some run from here ends in a panic. */
  ghost predicate MayPanic(s: State) {
    exists run, t :: Leads(s, run, t) && SomeonePanicked(t)
  }

  /** After the close of an open queue a send can panic, however far in the future, exactly when
      that close falls between a publisher's check and its send. */
  lemma PanicIffCloseCutsIn(s: State)
    requires !s.closed && !SomeonePanicked(s)
    ensures MayPanic(Next(s, Close)) <==> SomeoneSending(s)
  {
    var s' := Next(s, Close);
    if p: nat :| p < |s.publishers| && s.publishers[p].Sending? {
      var t := Next(s', SendOnClosed(p));
      LeadsOne(s', SendOnClosed(p));
      assert t.publishers[p].Panicked?;
    } else {
      forall run, t | Leads(s', run, t) ensures !SomeonePanicked(t) {
        ClosedClosesCleanly(s', run, t);
        CleanCloseNeverPanics(s', run, t);
      }
    }
  }
}

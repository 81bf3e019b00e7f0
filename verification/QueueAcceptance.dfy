/**
 Which publish calls the queue accepts, and that accepted jobs are those of the calls that
 returned successfully.
 */
module QueueAcceptance {
  import opened MemoryQueue

  /** A later step of publish call `p`. */
  predicate StepOf(e: Step, p: nat) {
    e == Send(p) || e == SendOnClosed(p) || e == PublishCancelled(p)
  }

  predicate StepsOf(run: seq<Step>, p: nat) {
    forall i :: 0 <= i < |run| ==> StepOf(run[i], p)
  }

  /** The call has sent its job: it was accepted last and waits in the buffer, never handed out. */
  predicate Accepts(s: State, job: Job, t: State) {
    && t.publishers == s.publishers + [Sent(|s.accepted|)]
    && t.accepted == s.accepted + [job]
    && t.buffer == s.buffer + [Entry(|s.accepted|, job, 0)]
  }

  /** Some run of nothing but this call accepts its job. */
  ghost predicate CanAccept(s: State, job: Job) {
    exists run, t :: StepsOf(run, |s.publishers|) && Leads(s, [Publish(job)] + run, t) && Accepts(s, job, t)
  }

  /** A call on its own is accepted exactly when its job is of one of the two known types and the
      queue is open with room; a job of any other type is invalid, a valid one on a closed queue is
      refused. */
  lemma AcceptedIff(s: State, job: Job)
    ensures CanAccept(s, job) <==>
            (job.jobType == "compress" || job.jobType == "consolidate") && !s.closed && |s.buffer| < s.bufSize
    ensures job.jobType != "compress" && job.jobType != "consolidate" ==>
            Next(s, Publish(job)) == s.(publishers := s.publishers + [Invalid])
    ensures (job.jobType == "compress" || job.jobType == "consolidate") && s.closed ==>
            Next(s, Publish(job)) == s.(publishers := s.publishers + [Refused])
  {
    var p, s1 := |s.publishers|, Next(s, Publish(job));
    if (job.jobType == "compress" || job.jobType == "consolidate") && !s.closed && |s.buffer| < s.bufSize {
      FreeCallIsAccepted(s, job);
    }
    if CanAccept(s, job) {
      var run, t :| StepsOf(run, p) && Leads(s, [Publish(job)] + run, t) && Accepts(s, job, t);
      assert ([Publish(job)] + run)[1..] == run;
      FirstStepDecides(s1, p, run, t);
    }
  }

  lemma FreeCallIsAccepted(s: State, job: Job)
    requires (job.jobType == "compress" || job.jobType == "consolidate") && !s.closed && |s.buffer| < s.bufSize
    ensures CanAccept(s, job)
  {
    var p, s1 := |s.publishers|, Next(s, Publish(job));
    var t := Next(s1, Send(p));
    LeadsOne(s, Publish(job));
    LeadsOne(s1, Send(p));
    LeadsAppend(s, [Publish(job)], s1, [Send(p)], t);
    assert t.publishers == s.publishers + [Sent(|s.accepted|)];
    assert StepsOf([Send(p)], p) && Leads(s, [Publish(job)] + [Send(p)], t) && Accepts(s, job, t);
  }

  /** An ended call takes no more steps, an open one ends with its first. */
  lemma FirstStepDecides(s: State, p: nat, run: seq<Step>, t: State)
    requires p < |s.publishers| && StepsOf(run, p) && Leads(s, run, t)
    ensures t.accepted != s.accepted ==>
      s.publishers[p].Sending? && !s.closed && |s.buffer| < s.bufSize
  {
    if run != [] {
      assert StepOf(run[0], p);
      assert |run| > 1 ==> StepOf(run[1], p);
    }
  }

  // ---------------------------------------------------------------------------
  // Accepted jobs are those of the successful calls
  // ---------------------------------------------------------------------------

  /** How many calls returned ticket `t`. */
  function Answered(ps: seq<Publisher>, t: nat): nat {
    if ps == [] then 0 else Answered(ps[..|ps| - 1], t) + if ps[|ps| - 1] == Sent(t) then 1 else 0
  }

  /** Each accepted job was answered to one call, no other ticket was, and only jobs of the two
      known types are accepted or about to be. */
  ghost predicate Answers(s: State) {
    && (forall t: nat :: Answered(s.publishers, t) == if t < |s.accepted| then 1 else 0)
    && (forall t :: 0 <= t < |s.accepted| ==>
          s.accepted[t].jobType == "compress" || s.accepted[t].jobType == "consolidate")
    && (forall p :: 0 <= p < |s.publishers| && s.publishers[p].Sending? ==>
          s.publishers[p].job.jobType == "compress" || s.publishers[p].job.jobType == "consolidate")
  }

  lemma {:induction false} AnsweredUpdate(ps: seq<Publisher>, i: nat, x: Publisher, t: nat)
    requires i < |ps|
    ensures Answered(ps[i := x], t) + (if ps[i] == Sent(t) then 1 else 0)
         == Answered(ps, t) + if x == Sent(t) then 1 else 0
    decreases |ps|
  {
    var n := |ps| - 1;
    if i == n {
      assert ps[i := x][..n] == ps[..n];
    } else {
      assert ps[i := x][..n] == ps[..n][i := x];
      AnsweredUpdate(ps[..n], i, x, t);
    }
  }

  lemma AnsweredAppend(ps: seq<Publisher>, x: Publisher, t: nat)
    ensures Answered(ps + [x], t) == Answered(ps, t) + if x == Sent(t) then 1 else 0
  {
    assert (ps + [x])[..|ps|] == ps;
  }

  lemma StepKeepsAnswers(s: State, e: Step)
    requires Answers(s) && Enabled(s, e)
    ensures Answers(Next(s, e))
  {
    var s' := Next(s, e);
    forall t: nat ensures Answered(s'.publishers, t) == if t < |s'.accepted| then 1 else 0 {
      if e.Publish? {
        AnsweredAppend(s.publishers, s'.publishers[|s.publishers|], t);
      } else if e.Send? || e.SendOnClosed? || e.PublishCancelled? {
        AnsweredUpdate(s.publishers, e.p, s'.publishers[e.p], t);
      }
    }
  }

  lemma {:induction false} RunKeepsAnswers(s: State, run: seq<Step>, t: State)
    requires Answers(s) && Leads(s, run, t)
    ensures Answers(t)
    decreases |run|
  {
    if run != [] {
      StepKeepsAnswers(s, run[0]);
      RunKeepsAnswers(Next(s, run[0]), run[1..], t);
    }
  }

  /** Over any run a job is accepted exactly for each call that returned success, and every accepted
      job is of a known type. */
  lemma AcceptedIsAnswered(bufSize: nat, max: int, run: seq<Step>, t: State)
    requires Leads(Start(bufSize, max), run, t)
    ensures forall n: nat :: Answered(t.publishers, n) == if n < |t.accepted| then 1 else 0
    ensures forall n :: 0 <= n < |t.accepted| ==>
              t.accepted[n].jobType == "compress" || t.accepted[n].jobType == "consolidate"
  {
    RunKeepsAnswers(Start(bufSize, max), run, t);
  }

  // ---------------------------------------------------------------------------
  // Accepted jobs can be worked off
  // ---------------------------------------------------------------------------

  /** An idle consumer can take the job that was sent first and settle it with one call of a handler
      that succeeds; on a closed queue that is empty it can return. */
  lemma FirstJobCanBeHandled(s: State, c: nat)
    requires c < |s.consumers| && s.consumers[c].phase.Idle?
    ensures s.buffer != [] ==>
      var head := s.buffer[0];
      exists t :: Leads(s, [Receive(c), HandlerOk(c)], t) && t.buffer == s.buffer[1..]
        && t.log == s.log + [Settlement(Entry(head.ticket, head.job, 1), Acked)]
        && t.consumers == s.consumers && t.accepted == s.accepted
    ensures s.buffer == [] && s.closed ==>
      exists t :: Leads(s, [ReturnDrained(c)], t) && |t.consumers| == |s.consumers|
        && t.consumers[c].phase == Returned(true, s.consumers[c].cancelled)
  {
    if s.buffer != [] {
      var u := Next(s, Receive(c));
      var t := Next(u, HandlerOk(c));
      LeadsOne(s, Receive(c));
      LeadsOne(u, HandlerOk(c));
      LeadsAppend(s, [Receive(c)], u, [HandlerOk(c)], t);
      assert [Receive(c)] + [HandlerOk(c)] == [Receive(c), HandlerOk(c)];
      assert t.consumers == s.consumers by {
        assert s.consumers[c] == Consumer(Idle, s.consumers[c].cancelled);
      }
    } else if s.closed {
      LeadsOne(s, ReturnDrained(c));
    }
  }
}

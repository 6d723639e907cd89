/** The shutdown comes to an end, and when it does everything stored at its start has been processed. */
module ShutdownEnds {
  import opened Totals
  import opened ThreadPool
  import opened NoLostWakeup
  import opened Conservation
  import opened Shutdown

  function WorkerWork(w: Worker): nat {
    match w
    case Ready => 1
    case Waiting => 0
    case Woken => 1
    case TimedOut => 2
    case Popped(_) => 4
    case Holding(_) => 2
    case Exited => 0
  }

  function ProducerWork(p: Producer): nat {
    7 * |p.script| + match p.phase
                     case Idle => 1
                     case Parked => 0
                     case Awake => 1
                     case Notifying => 3
  }

  /** A bound on the real steps still to come if nobody is woken up without cause. */
  function Work(s: State): nat {
    Total(s.producers, ProducerWork) + 4 * |s.q| + Total(s.workers, WorkerWork)
  }

  /** A notification hands over less work than it ends. */
  lemma NotifyWork(s: State, step: Step)
    requires Enabled(s, step) && (step.NotifyPush? || step.NotifyPop?)
    ensures Work(Apply(s, step)) < Work(s)
  {
    var t := Apply(s, step);
    if step.NotifyPush? {
      TotalUpdate(s.producers, step.p, t.producers[step.p], ProducerWork);
      if step.target.Somebody? {
        TotalUpdate(s.workers, step.target.index, Woken, WorkerWork);
      }
    } else {
      TotalUpdate(s.workers, step.w, t.workers[step.w], WorkerWork);
      if step.target.Somebody? {
        TotalUpdate(s.producers, step.target.index, t.producers[step.target.index], ProducerWork);
      }
    }
  }

  /** A real step uses up work; a timeout or a spurious wake-up adds at most two. */
  lemma WorkDecreases(s: State, step: Step)
    requires Enabled(s, step) && !step.Close?
    ensures Productive(step) ==> Work(Apply(s, step)) < Work(s)
    ensures !Productive(step) ==> Work(Apply(s, step)) <= Work(s) + 2
  {
    if step.NotifyPush? || step.NotifyPop? {
      NotifyWork(s, step);
    } else if step.Enter? || step.SpuriousProducer? {
      ProducerStepWork(s, step);
    } else {
      WorkerStepWork(s, step);
    }
  }

  lemma ProducerStepWork(s: State, step: Step)
    requires Enabled(s, step) && (step.Enter? || step.SpuriousProducer?)
    ensures Work(Apply(s, step)) <= if step.Enter? then Work(s) - 1 else Work(s) + 2
  {
    TotalUpdate(s.producers, step.p, Apply(s, step).producers[step.p], ProducerWork);
  }

  lemma WorkerStepWork(s: State, step: Step)
    requires Enabled(s, step) && !step.Close?
    requires !step.NotifyPush? && !step.NotifyPop? && !step.Enter? && !step.SpuriousProducer?
    ensures Work(Apply(s, step)) <= if Productive(step) then Work(s) - 1 else Work(s) + 2
  {
    TotalUpdate(s.workers, step.w, Apply(s, step).workers[step.w], WorkerWork);
  }

  function Real(step: Step): nat {
    if Productive(step) then 1 else 0
  }

  function Disturbance(step: Step): nat {
    if Productive(step) then 0 else 1
  }

  /** No run of the shutdown takes more real steps than the work at its start and the disturbances allow. */
  lemma {:induction false} RealStepsBounded(s: State, steps: seq<Step>)
    requires s.mode.Closing? && IsSchedule(s, steps)
    ensures Total(steps, Real) + Work(Run(s, steps)) <= Work(s) + 2 * Total(steps, Disturbance)
    decreases |steps|
  {
    if |steps| > 0 {
      WorkDecreases(s, steps[0]);
      RealStepsBounded(Apply(s, steps[0]), steps[1..]);
      TotalUncons(steps, Real);
      TotalUncons(steps, Disturbance);
    }
  }

  /** A state of the shutdown in which everything known about it holds. */
  ghost predicate ShuttingDown(s: State) {
    s.mode.Closing? && Quota(s) && Covered(s) && s.capacity >= 1
  }

  lemma Advance(s: State) returns (step: Step)
    requires ShuttingDown(s) && !Joined(s)
    ensures Enabled(s, step) && Productive(step)
    ensures ShuttingDown(Apply(s, step)) && Work(Apply(s, step)) < Work(s)
  {
    step := SomeStepEnabled(s);
    WorkDecreases(s, step);
    QuotaKept(s, step);
    CoveredKept(s, step);
  }

  lemma StepThenRun(s: State, step: Step, rest: seq<Step>)
    requires Enabled(s, step) && IsSchedule(Apply(s, step), rest)
    ensures IsSchedule(s, [step] + rest) && Run(s, [step] + rest) == Run(Apply(s, step), rest)
  {
    assert ([step] + rest)[1..] == rest;
  }

  /** Following real steps from any state of a shutdown leads to the joins. */
  lemma {:induction false} ShutdownCompletes(s: State) returns (steps: seq<Step>)
    requires ShuttingDown(s)
    ensures IsSchedule(s, steps) && Joined(Run(s, steps))
    ensures forall i :: 0 <= i < |steps| ==> Productive(steps[i])
    decreases Work(s)
  {
    if Joined(s) {
      return [];
    }
    var step := Advance(s);
    var rest := ShutdownCompletes(Apply(s, step));
    StepThenRun(s, step, rest);
    steps := [step] + rest;
  }

  /** When all workers have exited, the queue is empty and each message ever taken has been processed. */
  lemma JoinedIsDrained(s: State, m: Msg)
    requires s.mode.Closing? && Quota(s) && Ledger(s) && Joined(s)
    ensures s.q == [] && s.producers[s.mode.closer].script == []
    ensures m != Terminate ==> Total(s.handled, Is(m)) == Total(s.removed, TakenAs(m))
  {
    TotalZero(s.workers, Lives);
    TotalZero(s.workers, InHand(m));
    if s.q != [] {
      TotalUncons(s.q, Ends);
      TotalUncons(s.q, IsJob);
    }
    if m != Terminate {
      assert Accounted(s, m);
    }
  }

  function DroppedAs(m: Msg): Removal -> nat {
    (r: Removal) => if r == Dropped(m) then 1 else 0
  }

  lemma {:induction false} RemovedCount(removed: seq<Removal>, m: Msg)
    ensures Total(Messages(removed), Is(m)) == Total(removed, TakenAs(m)) + Total(removed, DroppedAs(m))
  {
    if |removed| > 0 {
      var n := |removed| - 1;
      RemovedCount(removed[..n], m);
      TotalSnoc(Messages(removed[..n]), removed[n].msg, Is(m));
    }
  }

  /** A message was accepted as often as it was taken, dropped, or is still stored. */
  lemma AcceptedCount(s: State, m: Msg)
    requires Ledger(s)
    ensures Total(s.accepted, Is(m))
            == Total(s.removed, TakenAs(m)) + Total(s.removed, DroppedAs(m)) + Total(s.q, Is(m))
  {
    TotalConcat(Messages(s.removed), s.q, Is(m));
    RemovedCount(s.removed, m);
  }

  /** During the shutdown only terminates are accepted and nothing is dropped. */
  lemma ClosingAcceptsTerminates(s: State, step: Step, m: Msg)
    requires s.mode.Closing? && Quota(s) && Enabled(s, step) && m != Terminate
    ensures Total(Apply(s, step).accepted, Is(m)) == Total(s.accepted, Is(m))
    ensures Total(Apply(s, step).removed, DroppedAs(m)) == Total(s.removed, DroppedAs(m))
  {
    match step
    case Enter(p) =>
      assert p == s.mode.closer && IsTerminate(s.producers[p].script[0]);
      TotalSnoc(s.accepted, Terminate, Is(m));
    case Dequeue(w) =>
      if s.q != [] {
        TotalSnoc(s.removed, Taken(s.q[0]), DroppedAs(m));
      }
    case _ =>
  }

  lemma {:induction false} ClosingRunAcceptsTerminates(s: State, steps: seq<Step>, m: Msg)
    requires s.mode.Closing? && Quota(s) && IsSchedule(s, steps) && m != Terminate
    ensures Run(s, steps).mode == s.mode
    ensures Total(Run(s, steps).accepted, Is(m)) == Total(s.accepted, Is(m))
    ensures Total(Run(s, steps).removed, DroppedAs(m)) == Total(s.removed, DroppedAs(m))
    decreases |steps|
  {
    if |steps| > 0 {
      ClosingAcceptsTerminates(s, steps[0], m);
      QuotaKept(s, steps[0]);
      ClosingRunAcceptsTerminates(Apply(s, steps[0]), steps[1..], m);
    }
  }

  /**
   * Graceful shutdown: whatever the schedule, once the workers are joined each log or flush message has been
   * processed as often as it had been processed, was in a worker's hands, or was stored when the shutdown began.
   */
  lemma StoredAreProcessed(s: State, steps: seq<Step>, m: Msg)
    requires s.mode.Closing? && Quota(s) && Ledger(s) && IsSchedule(s, steps) && m != Terminate
    requires Joined(Run(s, steps))
    ensures Total(Run(s, steps).handled, Is(m))
            == Total(s.handled, Is(m)) + Total(s.workers, InHand(m)) + Total(s.q, Is(m))
  {
    var t := Run(s, steps);
    QuotaAlways(s, steps);
    LedgerAlways(s, steps);
    ClosingRunAcceptsTerminates(s, steps, m);
    JoinedIsDrained(t, m);
    AcceptedCount(s, m);
    AcceptedCount(t, m);
    assert Accounted(s, m);
  }

  /** With no room for a single message, every worker goes on waiting for ever. */
  ghost predicate Starved(s: State) {
    && s.capacity == 0 && s.q == []
    && forall i :: 0 <= i < |s.workers| ==> s.workers[i] in {Ready, Waiting, Woken, TimedOut}
  }

  /** The condition on the capacity is needed: at capacity zero no run ever joins a worker. */
  lemma {:induction false} ZeroCapacityNeverJoins(s: State, steps: seq<Step>)
    requires Starved(s) && |s.workers| > 0 && IsSchedule(s, steps)
    ensures Starved(Run(s, steps)) && |Run(s, steps).workers| == |s.workers| && !Joined(Run(s, steps))
    decreases |steps|
  {
    if |steps| > 0 {
      ZeroCapacityNeverJoins(Apply(s, steps[0]), steps[1..]);
    } else {
      assert s.workers[0] != Exited;
    }
  }

  /** Some continuation of the run ends with all workers joined. */
  ghost predicate CanJoin(s: State) {
    exists rest: seq<Step> :: IsSchedule(s, rest) && Joined(Run(s, rest))
  }

  /** From the start, a run can end with the workers joined exactly if the queue can hold a message. */
  lemma ShutdownIffCapacity(s: State, steps: seq<Step>)
    requires Init(s) && IsSchedule(s, steps) && Run(s, steps).mode.Closing?
    ensures s.capacity >= 1 <==> CanJoin(Run(s, steps))
  {
    var t := Run(s, steps);
    QuotaInitially(s);
    CoveredInitially(s);
    QuotaAlways(s, steps);
    NoLostWakeups(s, steps);
    CapacityConstant(s, steps);
    if s.capacity >= 1 {
      var rest := ShutdownCompletes(t);
      assert IsSchedule(t, rest) && Joined(Run(t, rest));
    } else {
      ZeroCapacityNeverJoins(s, steps);
      forall rest: seq<Step> | IsSchedule(t, rest)
        ensures !Joined(Run(t, rest))
      {
        ZeroCapacityNeverJoins(t, rest);
      }
    }
  }

  lemma {:induction false} CapacityConstant(s: State, steps: seq<Step>)
    requires IsSchedule(s, steps)
    ensures Run(s, steps).capacity == s.capacity
    decreases |steps|
  {
    if |steps| > 0 {
      CapacityConstant(Apply(s, steps[0]), steps[1..]);
    }
  }
}

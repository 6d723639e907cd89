/** The destructor's shutdown: one terminate per worker, posted with the blocking policy, then the joins. */
module Shutdown {
  import opened Totals
  import opened ThreadPool
  import opened NoLostWakeup

  /** A worker that still has to take a terminate message. */
  function Lives(w: Worker): nat {
    if w == Exited || ((w.Popped? || w.Holding?) && w.msg == Terminate) then 0 else 1
  }

  function Ends(m: Msg): nat {
    if m == Terminate then 1 else 0
  }

  function IsJob(m: Msg): nat {
    if m == Terminate then 0 else 1
  }

  /** Once a terminate is stored, nothing but terminates comes after it. */
  predicate JobsFirst(q: seq<Msg>) {
    forall i, j :: 0 <= i < j < |q| && q[i] == Terminate ==> q[j] == Terminate
  }

  /** Before the shutdown there is no terminate anywhere. */
  ghost predicate NoTerminates(s: State) {
    && (forall i :: 0 <= i < |s.q| ==> s.q[i] != Terminate)
    && (forall i :: 0 <= i < |s.workers| ==> Lives(s.workers[i]) == 1)
    && (forall i, j :: 0 <= i < |s.producers| && 0 <= j < |s.producers[i].script| ==>
          s.producers[i].script[j].msg != Terminate)
  }

  /** During the shutdown the terminates to post and the terminates stored are one per live worker. */
  ghost predicate OnePerWorker(s: State, d: nat) {
    && d < |s.producers|
    && (forall i :: 0 <= i < |s.producers| && i != d ==> s.producers[i] == Producer([], Idle))
    && (forall j :: 0 <= j < |s.producers[d].script| ==> IsTerminate(s.producers[d].script[j]))
    && |s.producers[d].script| + Total(s.q, Ends) == Total(s.workers, Lives)
    && JobsFirst(s.q)
    && (Total(s.workers, Lives) < |s.workers| ==> Total(s.q, IsJob) == 0)
  }

  ghost predicate Quota(s: State) {
    |s.workers| > 0 && if s.mode.Open? then NoTerminates(s) else OnePerWorker(s, s.mode.closer)
  }

  lemma QuotaInitially(s: State)
    requires Init(s)
    ensures Quota(s)
  {
  }

  lemma OpenQuotaKept(s: State, step: Step)
    requires Quota(s) && Enabled(s, step) && s.mode.Open? && !step.Close?
    ensures Quota(Apply(s, step))
  {
    var t := Apply(s, step);
    if step.Enter? {
      assert s.producers[step.p].script[0].msg != Terminate;
    }
  }

  lemma {:induction false} AllLive(ws: seq<Worker>)
    requires forall i :: 0 <= i < |ws| ==> Lives(ws[i]) == 1
    ensures Total(ws, Lives) == |ws|
  {
    if |ws| > 0 {
      AllLive(ws[..|ws| - 1]);
    }
  }

  lemma CloseStartsQuota(s: State, p: nat)
    requires Quota(s) && Enabled(s, Close(p))
    ensures Quota(Apply(s, Close(p)))
  {
    AllLive(s.workers);
    TotalZero(s.q, Ends);
  }

  lemma {:induction false} OnlyTerminates(q: seq<Msg>)
    requires forall i :: 0 <= i < |q| ==> q[i] == Terminate
    ensures Total(q, IsJob) == 0
  {
    TotalZero(q, IsJob);
  }

  lemma ClosingEnter(s: State, p: nat)
    requires Quota(s) && s.mode.Closing? && Enabled(s, Enter(p))
    ensures Quota(Apply(s, Enter(p)))
  {
    assert p == s.mode.closer && IsTerminate(s.producers[p].script[0]);
    TotalSnoc(s.q, Terminate, Ends);
    TotalSnoc(s.q, Terminate, IsJob);
  }

  lemma ClosingDequeue(s: State, w: nat)
    requires Quota(s) && s.mode.Closing? && Enabled(s, Dequeue(w))
    ensures Quota(Apply(s, Dequeue(w)))
  {
    var t := Apply(s, Dequeue(w));
    TotalUpdate(s.workers, w, t.workers[w], Lives);
    if s.q != [] {
      TotalUncons(s.q, Ends);
      TotalUncons(s.q, IsJob);
      if s.q[0] == Terminate {
        OnlyTerminates(s.q[1..]);
      }
    }
  }

  lemma ClosingWorkerStep(s: State, step: Step)
    requires Quota(s) && s.mode.Closing? && Enabled(s, step)
    requires step.Process? || step.Timeout? || step.SpuriousWorker?
    ensures Quota(Apply(s, step))
  {
    TotalUpdate(s.workers, step.w, Apply(s, step).workers[step.w], Lives);
  }

  lemma ClosingNotifyPop(s: State, w: nat, target: Target)
    requires Quota(s) && s.mode.Closing? && Enabled(s, NotifyPop(w, target))
    ensures Quota(Apply(s, NotifyPop(w, target)))
  {
    TotalUpdate(s.workers, w, Holding(s.workers[w].msg), Lives);
  }

  lemma ClosingProducerStep(s: State, step: Step)
    requires Quota(s) && s.mode.Closing? && Enabled(s, step)
    requires step.NotifyPush? || step.SpuriousProducer?
    ensures Quota(Apply(s, step))
  {
    if step.NotifyPush? && step.target.Somebody? {
      TotalUpdate(s.workers, step.target.index, Woken, Lives);
    }
  }

  lemma QuotaKept(s: State, step: Step)
    requires Quota(s) && Enabled(s, step)
    ensures Quota(Apply(s, step))
  {
    if step.Close? {
      CloseStartsQuota(s, step.p);
    } else if s.mode.Open? {
      OpenQuotaKept(s, step);
    } else {
      match step
      case Enter(p) => ClosingEnter(s, p);
      case Dequeue(w) => ClosingDequeue(s, w);
      case NotifyPop(w, target) => ClosingNotifyPop(s, w, target);
      case NotifyPush(_, _) => ClosingProducerStep(s, step);
      case SpuriousProducer(_) => ClosingProducerStep(s, step);
      case _ => ClosingWorkerStep(s, step);
    }
  }

  /** Terminates to post plus terminates stored equal the live workers at every step of every run. */
  lemma {:induction false} QuotaAlways(s: State, steps: seq<Step>)
    requires Quota(s) && IsSchedule(s, steps)
    ensures Quota(Run(s, steps))
    decreases |steps|
  {
    if |steps| > 0 {
      QuotaKept(s, steps[0]);
      QuotaAlways(Apply(s, steps[0]), steps[1..]);
    }
  }

  predicate Joined(s: State) {
    forall i :: 0 <= i < |s.workers| ==> s.workers[i] == Exited
  }

  /** While some worker has not exited, some thread can take a real step. */
  lemma SomeStepEnabled(s: State) returns (step: Step)
    requires s.mode.Closing? && Quota(s) && Covered(s) && s.capacity >= 1 && !Joined(s)
    ensures Enabled(s, step) && Productive(step)
  {
    if w: nat :| w < |s.workers| && s.workers[w] in {Ready, Woken, TimedOut} {
      return Dequeue(w);
    }
    if w: nat :| w < |s.workers| && s.workers[w].Holding? {
      return Process(w);
    }
    if w: nat :| w < |s.workers| && s.workers[w].Popped? {
      var target := ParkedProducer(s);
      return NotifyPop(w, target);
    }
    if p: nat :| p < |s.producers| && s.producers[p].phase == Notifying {
      var target := WaitingWorker(s);
      return NotifyPush(p, target);
    }
    var d := s.mode.closer;
    if s.producers[d].script != [] && s.producers[d].phase in {Idle, Awake} {
      return Enter(d);
    }
    Stuck(s);
  }

  lemma ParkedProducer(s: State) returns (target: Target)
    ensures WakesProducer(s, target)
  {
    if p: nat :| p < |s.producers| && s.producers[p].phase == Parked {
      return Somebody(p);
    }
    return Nobody;
  }

  lemma WaitingWorker(s: State) returns (target: Target)
    ensures WakesWorker(s, target)
  {
    if w: nat :| w < |s.workers| && s.workers[w] == Waiting {
      return Somebody(w);
    }
    return Nobody;
  }

  /** Everybody waiting at once would contradict the cover. */
  lemma Stuck(s: State)
    requires s.mode.Closing? && Quota(s) && Covered(s) && s.capacity >= 1
    requires forall w :: 0 <= w < |s.workers| ==> s.workers[w] in {Waiting, Exited}
    requires forall p :: 0 <= p < |s.producers| ==> s.producers[p].phase != Notifying
    requires var d := s.mode.closer; s.producers[d].script == [] || s.producers[d].phase == Parked
    ensures Joined(s)
  {
    TotalZero(s.producers, OwesPush);
    TotalZero(s.workers, Rouses);
    TotalZero(s.workers, OwesPop);
    if w: nat :| w < |s.workers| && s.workers[w] == Waiting {
      TotalAtLeast(s.workers, w, Waits);
      TotalAtLeast(s.workers, w, Lives);
      var d := s.mode.closer;
      assert s.q == [] && s.producers[d].phase == Parked;
      TotalAtLeast(s.producers, d, Parks);
      TotalZero(s.producers, Wakes);
    }
  }
}

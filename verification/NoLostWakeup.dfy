/** In every interleaving, a thread waits only while enough notifications or woken threads are on their way. */
module NoLostWakeup {
  import opened Totals
  import opened ThreadPool

  function Waits(w: Worker): nat {
    if w == Waiting then 1 else 0
  }

  function Rouses(w: Worker): nat {
    if w == Woken || w == TimedOut then 1 else 0
  }

  function OwesPop(w: Worker): nat {
    if w.Popped? then 1 else 0
  }

  function Parks(p: Producer): nat {
    if p.phase == Parked then 1 else 0
  }

  function Wakes(p: Producer): nat {
    if p.phase == Awake then 1 else 0
  }

  function OwesPush(p: Producer): nat {
    if p.phase == Notifying then 1 else 0
  }

  /** A waiting worker has every stored item covered; a parked producer has every free slot covered. */
  ghost predicate Covered(s: State) {
    && |s.q| <= s.capacity
    && (Total(s.workers, Waits) > 0 ==> |s.q| <= Total(s.producers, OwesPush) + Total(s.workers, Rouses))
    && (Total(s.producers, Parks) > 0 ==> s.capacity - |s.q| <= Total(s.workers, OwesPop) + Total(s.producers, Wakes))
  }

  lemma WorkerTotals(ws: seq<Worker>, i: nat, x: Worker)
    requires i < |ws|
    ensures Total(ws[i := x], Waits) == Total(ws, Waits) - Waits(ws[i]) + Waits(x)
    ensures Total(ws[i := x], Rouses) == Total(ws, Rouses) - Rouses(ws[i]) + Rouses(x)
    ensures Total(ws[i := x], OwesPop) == Total(ws, OwesPop) - OwesPop(ws[i]) + OwesPop(x)
  {
    TotalUpdate(ws, i, x, Waits);
    TotalUpdate(ws, i, x, Rouses);
    TotalUpdate(ws, i, x, OwesPop);
  }

  lemma ProducerTotals(ps: seq<Producer>, i: nat, x: Producer)
    requires i < |ps|
    ensures Total(ps[i := x], Parks) == Total(ps, Parks) - Parks(ps[i]) + Parks(x)
    ensures Total(ps[i := x], Wakes) == Total(ps, Wakes) - Wakes(ps[i]) + Wakes(x)
    ensures Total(ps[i := x], OwesPush) == Total(ps, OwesPush) - OwesPush(ps[i]) + OwesPush(x)
  {
    TotalUpdate(ps, i, x, Parks);
    TotalUpdate(ps, i, x, Wakes);
    TotalUpdate(ps, i, x, OwesPush);
  }

  lemma NobodyWaits(s: State)
    ensures WakesWorker(s, Nobody) ==> Total(s.workers, Waits) == 0
    ensures WakesProducer(s, Nobody) ==> Total(s.producers, Parks) == 0
  {
    if WakesWorker(s, Nobody) {
      TotalZero(s.workers, Waits);
    }
    if WakesProducer(s, Nobody) {
      TotalZero(s.producers, Parks);
    }
  }

  lemma CoveredInitially(s: State)
    requires Init(s)
    ensures Covered(s)
  {
    TotalZero(s.workers, Waits);
    TotalZero(s.producers, Parks);
  }

  lemma EnterKeepsCover(s: State, p: nat)
    requires Covered(s) && Enabled(s, Enter(p))
    ensures Covered(Apply(s, Enter(p)))
  {
    ProducerTotals(s.producers, p, Apply(s, Enter(p)).producers[p]);
  }

  lemma NotifyPushKeepsCover(s: State, p: nat, target: Target)
    requires Covered(s) && Enabled(s, NotifyPush(p, target))
    ensures Covered(Apply(s, NotifyPush(p, target)))
  {
    ProducerTotals(s.producers, p, s.producers[p].(phase := Idle));
    if target.Somebody? {
      WorkerTotals(s.workers, target.index, Woken);
    } else {
      NobodyWaits(s);
    }
  }

  lemma DequeueKeepsCover(s: State, w: nat)
    requires Covered(s) && Enabled(s, Dequeue(w))
    ensures Covered(Apply(s, Dequeue(w)))
  {
    WorkerTotals(s.workers, w, Apply(s, Dequeue(w)).workers[w]);
  }

  lemma NotifyPopKeepsCover(s: State, w: nat, target: Target)
    requires Covered(s) && Enabled(s, NotifyPop(w, target))
    ensures Covered(Apply(s, NotifyPop(w, target)))
  {
    WorkerTotals(s.workers, w, Holding(s.workers[w].msg));
    if target.Somebody? {
      ProducerTotals(s.producers, target.index, s.producers[target.index].(phase := Awake));
    } else {
      NobodyWaits(s);
    }
  }

  lemma OthersKeepCover(s: State, step: Step)
    requires Covered(s) && Enabled(s, step)
    requires step.Process? || step.Timeout? || step.SpuriousWorker? || step.SpuriousProducer? || step.Close?
    ensures Covered(Apply(s, step))
  {
    if step.SpuriousProducer? || step.Close? {
      ProducerStepKeepsCover(s, step);
    } else {
      WorkerStepKeepsCover(s, step);
    }
  }

  lemma ProducerStepKeepsCover(s: State, step: Step)
    requires Covered(s) && Enabled(s, step) && (step.SpuriousProducer? || step.Close?)
    ensures Covered(Apply(s, step))
  {
    ProducerTotals(s.producers, step.p, Apply(s, step).producers[step.p]);
  }

  lemma WorkerStepKeepsCover(s: State, step: Step)
    requires Covered(s) && Enabled(s, step) && (step.Process? || step.Timeout? || step.SpuriousWorker?)
    ensures Covered(Apply(s, step))
  {
    WorkerTotals(s.workers, step.w, Apply(s, step).workers[step.w]);
  }

  lemma CoveredKept(s: State, step: Step)
    requires Covered(s) && Enabled(s, step)
    ensures Covered(Apply(s, step))
  {
    match step
    case Enter(p) => EnterKeepsCover(s, p);
    case NotifyPush(p, target) => NotifyPushKeepsCover(s, p, target);
    case Dequeue(w) => DequeueKeepsCover(s, w);
    case NotifyPop(w, target) => NotifyPopKeepsCover(s, w, target);
    case _ => OthersKeepCover(s, step);
  }

  /** No wake-up is lost: the cover holds in every state that a run reaches. */
  lemma {:induction false} NoLostWakeups(s: State, steps: seq<Step>)
    requires Covered(s) && IsSchedule(s, steps)
    ensures Covered(Run(s, steps))
    decreases |steps|
  {
    if |steps| > 0 {
      CoveredKept(s, steps[0]);
      NoLostWakeups(Apply(s, steps[0]), steps[1..]);
    }
  }
}

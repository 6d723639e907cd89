/** Over whole runs no message is lost, duplicated or reordered on its way through the queue. */
module Conservation {
  import opened Totals
  import opened ThreadPool

  /** The messages that left the queue, in the order in which they left. */
  function Messages(removed: seq<Removal>): seq<Msg> {
    if |removed| == 0 then [] else Messages(removed[..|removed| - 1]) + [removed[|removed| - 1].msg]
  }

  lemma MessagesSnoc(removed: seq<Removal>, r: Removal)
    ensures Messages(removed + [r]) == Messages(removed) + [r.msg]
  {
    assert (removed + [r])[..|removed|] == removed;
  }

  function Is(m: Msg): Msg -> nat {
    (x: Msg) => if x == m then 1 else 0
  }

  /** Whether a worker has taken the message and not yet finished with it. */
  function InHand(m: Msg): Worker -> nat {
    (w: Worker) => if (w.Popped? || w.Holding?) && w.msg == m then 1 else 0
  }

  function TakenAs(m: Msg): Removal -> nat {
    (r: Removal) => if r == Taken(m) then 1 else 0
  }

  function Drops(r: Removal): nat {
    if r.Dropped? then 1 else 0
  }

  function IsOverrun(post: Post): nat {
    if post.policy == Overrun then 1 else 0
  }

  function OverrunPosts(p: Producer): nat {
    Total(p.script, IsOverrun)
  }

  /** Every time the message was taken, it has been processed or is in some worker's hands. */
  ghost predicate Accounted(s: State, m: Msg) {
    Total(s.handled, Is(m)) + Total(s.workers, InHand(m)) == Total(s.removed, TakenAs(m))
  }

  /** What was accepted has left in the same order, except for what is still stored. */
  ghost predicate Ledger(s: State) {
    && s.accepted == Messages(s.removed) + s.q
    && forall m: Msg :: m != Terminate ==> Accounted(s, m)
  }

  lemma LedgerInitially(s: State)
    requires Init(s)
    ensures Ledger(s)
  {
    forall m: Msg
      ensures Accounted(s, m)
    {
      TotalZero(s.workers, InHand(m));
    }
  }

  /** Moving the front of what is stored to the end of what has left keeps the order. */
  lemma FrontLeaves(gone: seq<Msg>, q: seq<Msg>)
    requires q != []
    ensures (gone + [q[0]]) + q[1..] == gone + q
  {
    assert q == [q[0]] + q[1..];
  }

  lemma EnterOrder(s: State, p: nat)
    requires s.accepted == Messages(s.removed) + s.q && Enabled(s, Enter(p))
    ensures var t := Apply(s, Enter(p)); t.accepted == Messages(t.removed) + t.q
  {
    var gone, m := Messages(s.removed), s.producers[p].script[0].msg;
    assert (gone + s.q) + [m] == gone + (s.q + [m]);
    MessagesSnoc(s.removed, Dropped((s.q + [m])[0]));
    FrontLeaves(gone, s.q + [m]);
  }

  lemma OrderKept(s: State, step: Step)
    requires s.accepted == Messages(s.removed) + s.q && Enabled(s, step)
    ensures var t := Apply(s, step); t.accepted == Messages(t.removed) + t.q
  {
    if step.Enter? {
      EnterOrder(s, step.p);
    } else if step.Dequeue? && s.q != [] {
      MessagesSnoc(s.removed, Taken(s.q[0]));
      FrontLeaves(Messages(s.removed), s.q);
    }
  }

  lemma DequeueAccount(s: State, w: nat, m: Msg)
    requires Accounted(s, m) && Enabled(s, Dequeue(w))
    ensures Accounted(Apply(s, Dequeue(w)), m)
  {
    if s.q == [] {
      TotalUpdate(s.workers, w, if s.workers[w] == TimedOut then Ready else Waiting, InHand(m));
    } else {
      TakeAccount(s, w, m);
    }
  }

  lemma TakeAccount(s: State, w: nat, m: Msg)
    requires Accounted(s, m) && Enabled(s, Dequeue(w)) && s.q != []
    ensures Accounted(Apply(s, Dequeue(w)), m)
  {
    var x := s.q[0];
    TotalUpdate(s.workers, w, Popped(x), InHand(m));
    TotalSnoc(s.removed, Taken(x), TakenAs(m));
    assert InHand(m)(s.workers[w]) == 0 && InHand(m)(Popped(x)) == TakenAs(m)(Taken(x));
  }

  lemma ProcessAccount(s: State, w: nat, m: Msg)
    requires Accounted(s, m) && Enabled(s, Process(w)) && m != Terminate
    ensures Accounted(Apply(s, Process(w)), m)
  {
    TotalUpdate(s.workers, w, Apply(s, Process(w)).workers[w], InHand(m));
    TotalSnoc(s.handled, s.workers[w].msg, Is(m));
  }

  /** Dropping is not taking. */
  lemma EnterAccount(s: State, p: nat, m: Msg)
    requires Accounted(s, m) && Enabled(s, Enter(p))
    ensures Accounted(Apply(s, Enter(p)), m)
  {
    TotalSnoc(s.removed, Dropped((s.q + [s.producers[p].script[0].msg])[0]), TakenAs(m));
  }

  /** Waking a worker up puts nothing into its hands and takes nothing out of them. */
  lemma WorkerAccount(s: State, step: Step, m: Msg)
    requires Accounted(s, m) && Enabled(s, step)
    requires step.NotifyPop? || step.Timeout? || step.SpuriousWorker?
    ensures Accounted(Apply(s, step), m)
  {
    TotalUpdate(s.workers, step.w, Apply(s, step).workers[step.w], InHand(m));
  }

  lemma ProducerAccount(s: State, step: Step, m: Msg)
    requires Accounted(s, m) && Enabled(s, step)
    requires step.NotifyPush? || step.SpuriousProducer? || step.Close?
    ensures Accounted(Apply(s, step), m)
  {
    if step.NotifyPush? && step.target.Somebody? {
      TotalUpdate(s.workers, step.target.index, Woken, InHand(m));
    }
  }

  lemma AccountKept(s: State, step: Step, m: Msg)
    requires Accounted(s, m) && Enabled(s, step) && m != Terminate
    ensures Accounted(Apply(s, step), m)
  {
    match step
    case Dequeue(w) => DequeueAccount(s, w, m);
    case Process(w) => ProcessAccount(s, w, m);
    case Enter(p) => EnterAccount(s, p, m);
    case NotifyPush(_, _) => ProducerAccount(s, step, m);
    case SpuriousProducer(_) => ProducerAccount(s, step, m);
    case Close(_) => ProducerAccount(s, step, m);
    case _ => WorkerAccount(s, step, m);
  }

  lemma LedgerKept(s: State, step: Step)
    requires Ledger(s) && Enabled(s, step)
    ensures Ledger(Apply(s, step))
  {
    OrderKept(s, step);
    forall m: Msg | m != Terminate
      ensures Accounted(Apply(s, step), m)
    {
      assert Accounted(s, m);
      AccountKept(s, step, m);
    }
  }

  /** First in, first out, and conservation, in every state that a run reaches. */
  lemma {:induction false} LedgerAlways(s: State, steps: seq<Step>)
    requires Ledger(s) && IsSchedule(s, steps)
    ensures Ledger(Run(s, steps))
    decreases |steps|
  {
    if |steps| > 0 {
      LedgerKept(s, steps[0]);
      LedgerAlways(Apply(s, steps[0]), steps[1..]);
    }
  }

  /** The queue's counter counts exactly the dropped messages. */
  ghost predicate Counted(s: State) {
    s.overruns == Total(s.removed, Drops)
  }

  lemma CountedKept(s: State, step: Step)
    requires Counted(s) && Enabled(s, step)
    ensures Counted(Apply(s, step))
  {
    match step
    case Enter(p) => TotalSnoc(s.removed, Dropped((s.q + [s.producers[p].script[0].msg])[0]), Drops);
    case Dequeue(w) =>
      if s.q != [] {
        TotalSnoc(s.removed, Taken(s.q[0]), Drops);
      }
    case _ =>
  }

  lemma {:induction false} CountedAlways(s: State, steps: seq<Step>)
    requires Counted(s) && IsSchedule(s, steps)
    ensures Counted(Run(s, steps))
    decreases |steps|
  {
    if |steps| > 0 {
      CountedKept(s, steps[0]);
      CountedAlways(Apply(s, steps[0]), steps[1..]);
    }
  }

  /**
   * From the start of the pool, in every interleaving: what was accepted has left in the same order or is stored,
   * every message taken was processed or is in one worker's hands, and the counter tells the drops.
   */
  lemma RunsConserve(s: State, steps: seq<Step>)
    requires Init(s) && IsSchedule(s, steps)
    ensures var t := Run(s, steps);
            && t.accepted == Messages(t.removed) + t.q
            && (forall m: Msg :: m != Terminate ==> Accounted(t, m))
            && t.overruns == Total(t.removed, Drops)
  {
    LedgerInitially(s);
    LedgerAlways(s, steps);
    CountedAlways(s, steps);
  }

  lemma EnterPays(s: State, p: nat)
    requires Enabled(s, Enter(p))
    ensures var t := Apply(s, Enter(p));
            && Total(s.removed, Drops) <= Total(t.removed, Drops)
            && Total(t.removed, Drops) + Total(t.producers, OverrunPosts)
               <= Total(s.removed, Drops) + Total(s.producers, OverrunPosts)
  {
    var script := s.producers[p].script;
    TotalUpdate(s.producers, p, Apply(s, Enter(p)).producers[p], OverrunPosts);
    TotalUncons(script, IsOverrun);
    TotalSnoc(s.removed, Dropped((s.q + [script[0].msg])[0]), Drops);
  }

  /** Each drop uses up a post with the overrun policy; blocking posts never cause one. */
  lemma DropsArePaid(s: State, step: Step)
    requires Enabled(s, step)
    ensures var t := Apply(s, step);
            && Total(s.removed, Drops) <= Total(t.removed, Drops)
            && Total(t.removed, Drops) + Total(t.producers, OverrunPosts)
               <= Total(s.removed, Drops) + Total(s.producers, OverrunPosts)
  {
    var t := Apply(s, step);
    match step
    case Enter(p) => EnterPays(s, p);
    case NotifyPush(p, _) => TotalUpdate(s.producers, p, t.producers[p], OverrunPosts);
    case NotifyPop(_, target) =>
      if target.Somebody? {
        TotalUpdate(s.producers, target.index, t.producers[target.index], OverrunPosts);
      }
    case SpuriousProducer(p) => TotalUpdate(s.producers, p, t.producers[p], OverrunPosts);
    case Close(p) =>
      TotalUpdate(s.producers, p, t.producers[p], OverrunPosts);
      TotalZero(t.producers[p].script, IsOverrun);
    case Dequeue(w) =>
      if s.q != [] {
        TotalSnoc(s.removed, Taken(s.q[0]), Drops);
      }
    case _ =>
  }

  /** Over a whole run at most as many messages are dropped as overrun posts were made. */
  lemma {:induction false} DropsBounded(s: State, steps: seq<Step>)
    requires IsSchedule(s, steps)
    ensures Total(s.removed, Drops) <= Total(Run(s, steps).removed, Drops)
    ensures Total(Run(s, steps).removed, Drops) + Total(Run(s, steps).producers, OverrunPosts)
            <= Total(s.removed, Drops) + Total(s.producers, OverrunPosts)
    decreases |steps|
  {
    if |steps| > 0 {
      DropsArePaid(s, steps[0]);
      DropsBounded(Apply(s, steps[0]), steps[1..]);
    }
  }
}

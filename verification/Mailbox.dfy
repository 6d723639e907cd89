/** The engine's double-buffered mailbox: many pushers behind a lock, one puller that swaps and drains. */
module Mailbox {

  class QueueRw<T> {
    var sizeWrite: int
    var queueWrite: seq<T>
    var queueRead: seq<T>

    ghost predicate Valid()
      reads this
    {
      sizeWrite == |queueWrite|
    }

    /** What is still to be delivered, in order. */
    ghost function Pending(): seq<T>
      reads this
    {
      queueRead + queueWrite
    }

    constructor ()
      ensures Valid() && Pending() == []
    {
      sizeWrite, queueWrite, queueRead := 0, [], [];
    }

    function Empty(): (b: bool)
      requires Valid()
      reads this
      ensures b <==> Pending() == []
    {
      queueRead == [] && sizeWrite <= 0
    }

    function Size(): (n: int)
      requires Valid()
      reads this
      ensures n == |Pending()|
    {
      |queueRead| + sizeWrite
    }

    method Push(x: T)
      requires Valid()
      modifies this
      ensures Valid() && Pending() == old(Pending()) + [x]
    {
      queueWrite := queueWrite + [x];
      sizeWrite := sizeWrite + 1;
    }

    /** Delivers items in order until the callback asks to stop or the read queue runs out. */
    method Pull(stops: T -> bool) returns (delivered: seq<T>)
      requires Valid()
      modifies this
      ensures Valid() && delivered + Pending() == old(Pending())
      ensures old(Pending()) != [] ==> delivered != []
      ensures forall k :: 0 <= k < |delivered| - 1 ==> !stops(delivered[k])
      ensures queueRead != [] ==> stops(delivered[|delivered| - 1])
      ensures |delivered| >= |old(queueRead)| || (delivered != [] && stops(delivered[|delivered| - 1]))
    {
      if queueRead == [] && sizeWrite > 0 {
        sizeWrite := 0;
        queueRead, queueWrite := queueWrite, queueRead;
      }
      ghost var all := queueRead;
      delivered := [];
      while queueRead != []
        invariant delivered + queueRead == all
        invariant queueWrite == old(queueWrite) || queueWrite == []
        invariant Valid() && all + queueWrite == old(Pending())
        invariant forall k :: 0 <= k < |delivered| ==> !stops(delivered[k])
        invariant |all| >= |old(queueRead)|
        decreases |queueRead|
      {
        var x := queueRead[0];
        queueRead := queueRead[1..];
        delivered := delivered + [x];
        if stops(x) {
          break;
        }
      }
    }
  }

  /** Where a pusher stands inside push. */
  datatype PushPhase = Outside | Locked | Emplaced | Counted

  datatype Pusher<T> = Pusher(items: seq<T>, phase: PushPhase)

  /** Where the puller stands inside pull. */
  datatype PullPhase = Resting | Wanting | Holding | Reset | Swapped | Draining

  datatype Holder = Free | ByPusher(index: nat) | ByPuller

  /** The last five fields are history: items in lock order, their pushers, deliveries, this pull's peek and count. */
  datatype State<T> = State(sizeWrite: int, queueWrite: seq<T>, queueRead: seq<T>, holder: Holder,
                            pushers: seq<Pusher<T>>, puller: PullPhase,
                            pushed: seq<T>, origins: seq<nat>, delivered: seq<T>, sawItems: bool, got: nat)

  datatype Step =
    | Lock(p: nat) | Emplace(p: nat) | Count(p: nat) | Unlock(p: nat)
    | Peek | PullLock | PullReset | PullSwap | PullUnlock | Deliver(stop: bool) | Finish

  predicate Init<T>(s: State<T>) {
    && s.sizeWrite == 0 && s.queueWrite == [] && s.queueRead == [] && s.holder == Free && s.puller == Resting
    && s.pushed == [] && s.origins == [] && s.delivered == [] && !s.sawItems && s.got == 0
    && forall i :: 0 <= i < |s.pushers| ==> s.pushers[i].phase == Outside
  }

  predicate Enabled<T>(s: State<T>, step: Step) {
    match step
    case Lock(p) => p < |s.pushers| && s.pushers[p].phase == Outside && s.pushers[p].items != [] && s.holder == Free
    case Emplace(p) => p < |s.pushers| && s.pushers[p].phase == Locked && s.pushers[p].items != []
    case Count(p) => p < |s.pushers| && s.pushers[p].phase == Emplaced
    case Unlock(p) => p < |s.pushers| && s.pushers[p].phase == Counted
    case Peek => s.puller == Resting
    case PullLock => s.puller == Wanting && s.holder == Free
    case PullReset => s.puller == Holding
    case PullSwap => s.puller == Reset
    case PullUnlock => s.puller == Swapped
    case Deliver(_) => s.puller == Draining && s.queueRead != []
    case Finish => s.puller == Draining && s.queueRead == []
  }

  function At<T>(s: State<T>, p: nat, phase: PushPhase): seq<Pusher<T>>
    requires p < |s.pushers|
  {
    s.pushers[p := s.pushers[p].(phase := phase)]
  }

  /** The size is read without the lock in Peek; everything else on the write side happens under it. */
  function Apply<T>(s: State<T>, step: Step): State<T>
    requires Enabled(s, step)
  {
    match step
    case Lock(p) => s.(holder := ByPusher(p), pushers := At(s, p, Locked))
    case Emplace(p) =>
      var x := s.pushers[p].items[0];
      s.(queueWrite := s.queueWrite + [x], pushed := s.pushed + [x], origins := s.origins + [p],
         pushers := s.pushers[p := Pusher(s.pushers[p].items[1..], Emplaced)])
    case Count(p) => s.(sizeWrite := s.sizeWrite + 1, pushers := At(s, p, Counted))
    case Unlock(p) => s.(holder := Free, pushers := At(s, p, Outside))
    case Peek =>
      s.(puller := if s.queueRead == [] && s.sizeWrite > 0 then Wanting else Draining,
         sawItems := s.queueRead != [] || s.sizeWrite > 0, got := 0)
    case PullLock => s.(holder := ByPuller, puller := Holding)
    case PullReset => s.(sizeWrite := 0, puller := Reset)
    case PullSwap => s.(queueRead := s.queueWrite, queueWrite := s.queueRead, puller := Swapped)
    case PullUnlock => s.(holder := Free, puller := Draining)
    case Deliver(stop) =>
      s.(queueRead := s.queueRead[1..], delivered := s.delivered + [s.queueRead[0]], got := s.got + 1,
         puller := if stop then Resting else Draining)
    case Finish => s.(puller := Resting)
  }

  /** Mutual exclusion: exactly the holder is inside its critical section. */
  ghost predicate Exclusive<T>(s: State<T>) {
    && (s.holder == ByPuller <==> s.puller in {Holding, Reset, Swapped})
    && (forall i :: 0 <= i < |s.pushers| ==> (s.pushers[i].phase != Outside <==> s.holder == ByPusher(i)))
    && (s.holder.ByPusher? ==> s.holder.index < |s.pushers|)
  }

  /** The counter lags behind the queue by an emplaced item not yet counted; it is cleared just before the swap. */
  ghost predicate Counting<T>(s: State<T>) {
    if s.puller == Reset then s.sizeWrite == 0
    else s.sizeWrite == |s.queueWrite| - if s.holder.ByPusher? && s.holder.index < |s.pushers|
                                             && s.pushers[s.holder.index].phase == Emplaced then 1 else 0
  }

  ghost predicate Inv<T>(s: State<T>) {
    && s.pushed == s.delivered + s.queueRead + s.queueWrite
    && Exclusive(s) && Counting(s)
    && (s.puller in {Wanting, Holding, Reset} ==> s.queueRead == [] && s.queueWrite != [])
    && (s.puller in {Wanting, Holding, Reset, Swapped} ==> s.sawItems && s.got == 0)
    && (s.puller == Swapped ==> s.queueRead != [] && s.queueWrite == [])
    && (s.puller == Draining && s.sawItems && s.got == 0 ==> s.queueRead != [])
    && (s.puller == Resting && s.sawItems ==> s.got > 0)
  }

  lemma InvInitially<T>(s: State<T>)
    requires Init(s)
    ensures Inv(s)
  {
  }

  lemma PusherKeepsInv<T>(s: State<T>, step: Step)
    requires Inv(s) && Enabled(s, step) && (step.Lock? || step.Emplace? || step.Count? || step.Unlock?)
    ensures Inv(Apply(s, step))
  {
    if step.Emplace? {
      var x := s.pushers[step.p].items[0];
      assert (s.delivered + s.queueRead + s.queueWrite) + [x] == s.delivered + s.queueRead + (s.queueWrite + [x]);
    }
  }

  lemma PullerKeepsInv<T>(s: State<T>, step: Step)
    requires Inv(s) && Enabled(s, step) && !step.Lock? && !step.Emplace? && !step.Count? && !step.Unlock?
    ensures Inv(Apply(s, step))
  {
    if step.Deliver? {
      assert s.queueRead == [s.queueRead[0]] + s.queueRead[1..];
      assert (s.delivered + [s.queueRead[0]]) + s.queueRead[1..] == s.delivered + s.queueRead;
    }
    if step.PullSwap? {
      assert s.delivered + s.queueWrite + [] == s.delivered + [] + s.queueWrite;
    }
  }

  predicate IsSchedule<T>(s: State<T>, steps: seq<Step>)
    decreases |steps|
  {
    |steps| > 0 ==> Enabled(s, steps[0]) && IsSchedule(Apply(s, steps[0]), steps[1..])
  }

  function Run<T>(s: State<T>, steps: seq<Step>): State<T>
    requires IsSchedule(s, steps)
    decreases |steps|
  {
    if |steps| == 0 then s else Run(Apply(s, steps[0]), steps[1..])
  }

  /** Nothing is lost, duplicated or reordered in any interleaving. */
  lemma {:induction false} InvAlways<T>(s: State<T>, steps: seq<Step>)
    requires Inv(s) && IsSchedule(s, steps)
    ensures Inv(Run(s, steps))
    decreases |steps|
  {
    if |steps| > 0 {
      var step := steps[0];
      if step.Lock? || step.Emplace? || step.Count? || step.Unlock? {
        PusherKeepsInv(s, step);
      } else {
        PullerKeepsInv(s, step);
      }
      InvAlways(Apply(s, step), steps[1..]);
    }
  }

  /** In every reachable state the pushes in lock order are what was delivered and then what is stored. */
  lemma MailboxRefinesQueue<T>(s: State<T>, steps: seq<Step>)
    requires Init(s) && IsSchedule(s, steps)
    ensures var t := Run(s, steps);
            && t.pushed == t.delivered + t.queueRead + t.queueWrite
            && (t.holder == Free ==> t.sizeWrite == |t.queueWrite|)
  {
    InvInitially(s);
    InvAlways(s, steps);
  }

  /** The items that thread p pushed, in lock order. */
  function PushedFrom<T>(pushed: seq<T>, origins: seq<nat>, p: nat): seq<T>
    requires |pushed| == |origins|
  {
    if pushed == [] then []
    else
      var n := |pushed| - 1;
      PushedFrom(pushed[..n], origins[..n], p) + if origins[n] == p then [pushed[n]] else []
  }

  /** What was pushed by a thread, and then what it still has to push, are the items it started with. */
  ghost predicate InOrder<T>(s: State<T>, p: nat, items: seq<T>) {
    && p < |s.pushers| && |s.origins| == |s.pushed|
    && PushedFrom(s.pushed, s.origins, p) + s.pushers[p].items == items
  }

  lemma StepKeepsOrder<T>(s: State<T>, step: Step, p: nat, items: seq<T>)
    requires InOrder(s, p, items) && Enabled(s, step)
    ensures InOrder(Apply(s, step), p, items)
  {
    if step.Emplace? {
      var x, rest := s.pushers[step.p].items[0], s.pushers[step.p].items[1..];
      assert (s.pushed + [x])[..|s.pushed|] == s.pushed && (s.origins + [step.p])[..|s.origins|] == s.origins;
      if step.p == p {
        assert s.pushers[p].items == [x] + rest;
        Regrouped(PushedFrom(s.pushed, s.origins, p), [x], rest);
      }
    }
  }

  lemma Regrouped<T>(a: seq<T>, b: seq<T>, c: seq<T>)
    ensures (a + b) + c == a + (b + c)
  {
  }

  lemma {:induction false} RunKeepsOrder<T>(s: State<T>, steps: seq<Step>, p: nat, items: seq<T>)
    requires InOrder(s, p, items) && IsSchedule(s, steps)
    ensures InOrder(Run(s, steps), p, items)
    decreases |steps|
  {
    if |steps| > 0 {
      StepKeepsOrder(s, steps[0], p, items);
      RunKeepsOrder(Apply(s, steps[0]), steps[1..], p, items);
    }
  }

  /**
   * In every reachable state each thread's items are those it pushed, in lock order, and then those it still has to
   * push: each is stored once, none is left out, and none comes before an earlier one.
   */
  lemma PushesInOrder<T>(s: State<T>, steps: seq<Step>, p: nat)
    requires Init(s) && IsSchedule(s, steps) && p < |s.pushers|
    ensures var t := Run(s, steps);
            && p < |t.pushers| && |t.origins| == |t.pushed|
            && PushedFrom(t.pushed, t.origins, p) + t.pushers[p].items == s.pushers[p].items
  {
    assert [] + s.pushers[p].items == s.pushers[p].items;
    RunKeepsOrder(s, steps, p, s.pushers[p].items);
  }

  /** Everybody may go on: a thread that wants to push can whenever the lock is free, and inside it always. */
  lemma AnyoneMayPush<T>(s: State<T>, p: nat)
    requires p < |s.pushers|
    ensures s.holder == Free && s.pushers[p].phase == Outside && s.pushers[p].items != [] ==> Enabled(s, Lock(p))
    ensures s.pushers[p].phase == Locked && s.pushers[p].items != [] ==> Enabled(s, Emplace(p))
    ensures s.pushers[p].phase == Emplaced ==> Enabled(s, Count(p))
    ensures s.pushers[p].phase == Counted ==> Enabled(s, Unlock(p))
    ensures s.puller == Resting ==> Enabled(s, Peek)
    ensures s.puller == Wanting && s.holder == Free ==> Enabled(s, PullLock)
  {
  }

  /** A peek while no push is under way sees every undelivered item, and what it sees makes the pull deliver. */
  lemma PullDelivers<T>(s: State<T>, before: seq<Step>, during: seq<Step>)
    requires Init(s) && IsSchedule(s, before)
    requires var t := Run(s, before);
             && t.puller == Resting && t.holder == Free && |t.delivered| < |t.pushed|
             && IsSchedule(Apply(t, Peek), during)
             && (forall k :: 0 <= k < |during| ==> during[k] != Peek)
    ensures var u := Run(Apply(Run(s, before), Peek), during);
            u.puller == Resting ==> |u.delivered| > |Run(s, before).delivered|
  {
    var t := Run(s, before);
    InvInitially(s);
    InvAlways(s, before);
    assert t.sizeWrite > 0 || t.queueRead != [];
    PullerKeepsInv(t, Peek);
    GotCounts(Apply(t, Peek), during);
    InvAlways(Apply(t, Peek), during);
  }

  lemma {:induction false} GotCounts<T>(s: State<T>, steps: seq<Step>)
    requires IsSchedule(s, steps) && forall k :: 0 <= k < |steps| ==> steps[k] != Peek
    ensures Run(s, steps).sawItems == s.sawItems
    ensures |Run(s, steps).delivered| - Run(s, steps).got == |s.delivered| - s.got
    decreases |steps|
  {
    if |steps| > 0 {
      assert forall k :: 0 <= k < |steps| - 1 ==> steps[1..][k] == steps[k + 1];
      GotCounts(Apply(s, steps[0]), steps[1..]);
    }
  }
}

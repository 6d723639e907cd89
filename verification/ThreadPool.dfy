/**
 * The async logging protocol: producers and workers around a blocking queue with one mutex and two
 * condition variables. A step is one critical section, one notification, or one wake-up. Producers,
 * workers and wake-ups interleave freely; a notification happens after the mutex is released.
 */
module ThreadPool {
  import opened CircularQueue

  datatype Msg = Log(id: nat) | Flush(id: nat) | Terminate

  datatype Policy = Block | Overrun

  datatype Post = Post(msg: Msg, policy: Policy)

  /** Between posts, waiting on pop_cv, woken up but without the mutex, or about to notify push_cv. */
  datatype ProducerPhase = Idle | Parked | Awake | Notifying

  datatype Producer = Producer(script: seq<Post>, phase: ProducerPhase)

  /** Entering dequeue_for, waiting on push_cv, woken up, timed out, about to notify pop_cv, processing, gone. */
  datatype Worker = Ready | Waiting | Woken | TimedOut | Popped(msg: Msg) | Holding(msg: Msg) | Exited

  datatype Removal = Taken(msg: Msg) | Dropped(msg: Msg)

  datatype Mode = Open | Closing(closer: nat)

  /** The last four fields are history: items in mutex order, who posted each, how each left, what was processed. */
  datatype State = State(q: seq<Msg>, capacity: nat, overruns: nat, producers: seq<Producer>, workers: seq<Worker>,
                         mode: Mode, accepted: seq<Msg>, origins: seq<nat>, removed: seq<Removal>,
                         handled: seq<Msg>)

  datatype Target = Nobody | Somebody(index: nat)

  datatype Step =
    | Enter(p: nat)                          // enqueue or enqueue_nowait, holding the mutex
    | NotifyPush(p: nat, target: Target)     // push_cv_.notify_one()
    | Dequeue(w: nat)                        // dequeue_for, holding the mutex
    | NotifyPop(w: nat, target: Target)      // pop_cv_.notify_one()
    | Process(w: nat)                        // the switch over the message type
    | Timeout(w: nat)                        // wait_for gives up
    | SpuriousWorker(w: nat)
    | SpuriousProducer(p: nat)
    | Close(p: nat)                          // the destructor starts posting

  /** A step that is neither a timeout nor a spurious wake-up nor the start of the shutdown. */
  predicate Productive(step: Step) {
    !step.Timeout? && !step.SpuriousWorker? && !step.SpuriousProducer? && !step.Close?
  }

  predicate IsTerminate(post: Post) {
    post == Post(Terminate, Block)
  }

  predicate Init(s: State) {
    && s.q == [] && s.overruns == 0 && s.mode == Open && s.accepted == [] && s.origins == []
    && s.removed == [] && s.handled == []
    && 0 < |s.workers| <= 1000
    && (forall i :: 0 <= i < |s.workers| ==> s.workers[i] == Ready)
    && (forall i :: 0 <= i < |s.producers| ==> s.producers[i].phase == Idle)
    && (forall i, j :: 0 <= i < |s.producers| && 0 <= j < |s.producers[i].script| ==>
          s.producers[i].script[j].msg != Terminate)
  }

  /** notify_one wakes one waiting thread if there is any. */
  predicate WakesWorker(s: State, target: Target) {
    match target
    case Nobody => forall i :: 0 <= i < |s.workers| ==> s.workers[i] != Waiting
    case Somebody(i) => i < |s.workers| && s.workers[i] == Waiting
  }

  predicate WakesProducer(s: State, target: Target) {
    match target
    case Nobody => forall i :: 0 <= i < |s.producers| ==> s.producers[i].phase != Parked
    case Somebody(i) => i < |s.producers| && s.producers[i].phase == Parked
  }

  predicate Enabled(s: State, step: Step) {
    match step
    case Enter(p) => p < |s.producers| && s.producers[p].script != [] && s.producers[p].phase in {Idle, Awake}
    case NotifyPush(p, target) => p < |s.producers| && s.producers[p].phase == Notifying && WakesWorker(s, target)
    case Dequeue(w) => w < |s.workers| && s.workers[w] in {Ready, Woken, TimedOut}
    case NotifyPop(w, target) => w < |s.workers| && s.workers[w].Popped? && WakesProducer(s, target)
    case Process(w) => w < |s.workers| && s.workers[w].Holding?
    case Timeout(w) => w < |s.workers| && s.workers[w] == Waiting
    case SpuriousWorker(w) => w < |s.workers| && s.workers[w] == Waiting
    case SpuriousProducer(p) => p < |s.producers| && s.producers[p].phase == Parked
    case Close(p) =>
      && s.mode == Open && p < |s.producers|
      && forall i :: 0 <= i < |s.producers| ==> s.producers[i] == Producer([], Idle)
  }

  function Apply(s: State, step: Step): State
    requires Enabled(s, step)
  {
    match step
    case Enter(p) =>
      var post := s.producers[p].script[0];
      if post.policy == Block && |s.q| >= s.capacity then
        s.(producers := s.producers[p := s.producers[p].(phase := Parked)])
      else
        s.(q := Pushed(s.q, s.capacity, post.msg),
           overruns := if |s.q| < s.capacity then s.overruns else s.overruns + 1,
           accepted := s.accepted + [post.msg], origins := s.origins + [p],
           removed := if |s.q| < s.capacity then s.removed else s.removed + [Dropped((s.q + [post.msg])[0])],
           producers := s.producers[p := Producer(s.producers[p].script[1..], Notifying)])
    case NotifyPush(p, target) =>
      s.(producers := s.producers[p := s.producers[p].(phase := Idle)],
         workers := if target.Nobody? then s.workers else s.workers[target.index := Woken])
    case Dequeue(w) =>
      if s.q == [] then
        s.(workers := s.workers[w := if s.workers[w] == TimedOut then Ready else Waiting])
      else
        s.(q := s.q[1..], removed := s.removed + [Taken(s.q[0])], workers := s.workers[w := Popped(s.q[0])])
    case NotifyPop(w, target) =>
      s.(workers := s.workers[w := Holding(s.workers[w].msg)],
         producers := if target.Nobody? then s.producers
                      else s.producers[target.index := s.producers[target.index].(phase := Awake)])
    case Process(w) =>
      if s.workers[w].msg == Terminate then s.(workers := s.workers[w := Exited])
      else s.(handled := s.handled + [s.workers[w].msg], workers := s.workers[w := Ready])
    case Timeout(w) => s.(workers := s.workers[w := TimedOut])
    case SpuriousWorker(w) => s.(workers := s.workers[w := Woken])
    case SpuriousProducer(p) => s.(producers := s.producers[p := s.producers[p].(phase := Awake)])
    case Close(p) =>
      s.(mode := Closing(p),
         producers := s.producers[p := Producer(seq(|s.workers|, _ => Post(Terminate, Block)), Idle)])
  }

  /** Every step of the schedule is enabled when its turn comes. */
  predicate IsSchedule(s: State, steps: seq<Step>)
    decreases |steps|
  {
    |steps| > 0 ==> Enabled(s, steps[0]) && IsSchedule(Apply(s, steps[0]), steps[1..])
  }

  function Run(s: State, steps: seq<Step>): State
    requires IsSchedule(s, steps)
    decreases |steps|
  {
    if |steps| == 0 then s else Run(Apply(s, steps[0]), steps[1..])
  }
}

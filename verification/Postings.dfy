/** What the producers have to post is what the queue takes, each producer's posts in its own order. */
module Postings {
  import opened Totals
  import opened ThreadPool
  import opened NoLostWakeup
  import opened Conservation

  /** The log and flush messages of the posts, in order. */
  function Jobs(posts: seq<Post>): seq<Msg> {
    if posts == [] then []
    else (if posts[0].msg == Terminate then [] else [posts[0].msg]) + Jobs(posts[1..])
  }

  function AllMessages(posts: seq<Post>): seq<Msg> {
    seq(|posts|, i requires 0 <= i < |posts| => posts[i].msg)
  }

  lemma {:induction false} OnlyJobs(posts: seq<Post>)
    requires forall i :: 0 <= i < |posts| ==> posts[i].msg != Terminate
    ensures Jobs(posts) == AllMessages(posts)
  {
    if posts != [] {
      OnlyJobs(posts[1..]);
      assert AllMessages(posts) == [posts[0].msg] + AllMessages(posts[1..]);
    }
  }

  lemma {:induction false} NoJobs(posts: seq<Post>)
    requires forall i :: 0 <= i < |posts| ==> posts[i].msg == Terminate
    ensures Jobs(posts) == []
  {
    if posts != [] {
      NoJobs(posts[1..]);
    }
  }

  /** The log and flush messages that the queue took from producer p, in the order of the mutex. */
  function TakenFrom(accepted: seq<Msg>, origins: seq<nat>, p: nat): seq<Msg>
    requires |accepted| == |origins|
  {
    if accepted == [] then []
    else
      var n := |accepted| - 1;
      TakenFrom(accepted[..n], origins[..n], p)
      + if origins[n] == p && accepted[n] != Terminate then [accepted[n]] else []
  }

  lemma TakenFromSnoc(accepted: seq<Msg>, origins: seq<nat>, m: Msg, q: nat, p: nat)
    requires |accepted| == |origins|
    ensures TakenFrom(accepted + [m], origins + [q], p)
         == TakenFrom(accepted, origins, p) + if q == p && m != Terminate then [m] else []
  {
    assert (accepted + [m])[..|accepted|] == accepted && (origins + [q])[..|origins|] == origins;
  }

  /** What was taken from producer p, and then what it still has to post, are the jobs it started with. */
  ghost predicate InOrder(s: State, p: nat, jobs: seq<Msg>) {
    && p < |s.producers| && |s.origins| == |s.accepted|
    && TakenFrom(s.accepted, s.origins, p) + Jobs(s.producers[p].script) == jobs
  }

  lemma EnterKeepsOrder(s: State, q: nat, p: nat, jobs: seq<Msg>)
    requires InOrder(s, p, jobs) && Enabled(s, Enter(q))
    ensures InOrder(Apply(s, Enter(q)), p, jobs)
  {
    var post := s.producers[q].script[0];
    TakenFromSnoc(s.accepted, s.origins, post.msg, q, p);
    if q == p {
      Regrouped(TakenFrom(s.accepted, s.origins, p), if post.msg == Terminate then [] else [post.msg],
                Jobs(s.producers[p].script[1..]));
    }
  }

  lemma Regrouped(a: seq<Msg>, b: seq<Msg>, c: seq<Msg>)
    ensures (a + b) + c == a + (b + c)
  {
  }

  lemma StepKeepsOrder(s: State, step: Step, p: nat, jobs: seq<Msg>)
    requires InOrder(s, p, jobs) && Enabled(s, step)
    ensures InOrder(Apply(s, step), p, jobs)
  {
    match step
    case Enter(q) => EnterKeepsOrder(s, q, p, jobs);
    case Close(q) =>
      if q == p {
        NoJobs(Apply(s, step).producers[p].script);
      }
    case _ =>
  }

  lemma {:induction false} RunKeepsOrder(s: State, steps: seq<Step>, p: nat, jobs: seq<Msg>)
    requires InOrder(s, p, jobs) && IsSchedule(s, steps)
    ensures InOrder(Run(s, steps), p, jobs)
    decreases |steps|
  {
    if |steps| > 0 {
      StepKeepsOrder(s, steps[0], p, jobs);
      RunKeepsOrder(Apply(s, steps[0]), steps[1..], p, jobs);
    }
  }

  /**
   * From the start of the pool, in every interleaving: what the queue took from a producer, followed by what that
   * producer still has to post, is what it had to post at the start, in the same order.
   */
  lemma PostsInOrder(s: State, steps: seq<Step>, p: nat)
    requires Init(s) && IsSchedule(s, steps) && p < |s.producers|
    ensures var t := Run(s, steps);
            && p < |t.producers| && |t.origins| == |t.accepted|
            && TakenFrom(t.accepted, t.origins, p) + Jobs(t.producers[p].script) == AllMessages(s.producers[p].script)
  {
    OnlyJobs(s.producers[p].script);
    assert [] + Jobs(s.producers[p].script) == Jobs(s.producers[p].script);
    RunKeepsOrder(s, steps, p, AllMessages(s.producers[p].script));
  }

  function Posts(m: Msg): Post -> nat {
    (x: Post) => if x.msg == m then 1 else 0
  }

  /** How often a producer still has to post the message. */
  function ToPost(m: Msg): Producer -> nat {
    (x: Producer) => Total(x.script, Posts(m))
  }

  /** How often the message was accepted or is still to be accepted. */
  function Known(s: State, m: Msg): nat {
    Total(s.accepted, Is(m)) + Total(s.producers, ToPost(m))
  }

  lemma EnterKeepsKnown(s: State, p: nat, m: Msg)
    requires Enabled(s, Enter(p))
    ensures Known(Apply(s, Enter(p)), m) == Known(s, m)
  {
    var script := s.producers[p].script;
    TotalUpdate(s.producers, p, Apply(s, Enter(p)).producers[p], ToPost(m));
    TotalUncons(script, Posts(m));
    TotalSnoc(s.accepted, script[0].msg, Is(m));
    assert ToPost(m)(s.producers[p]) == Total(script, Posts(m));
  }

  lemma StepKeepsKnown(s: State, step: Step, m: Msg)
    requires Enabled(s, step) && m != Terminate
    ensures Known(Apply(s, step), m) == Known(s, m)
  {
    var t := Apply(s, step);
    match step
    case Enter(p) => EnterKeepsKnown(s, p, m);
    case NotifyPush(p, _) => TotalUpdate(s.producers, p, t.producers[p], ToPost(m));
    case NotifyPop(_, target) =>
      if target.Somebody? {
        TotalUpdate(s.producers, target.index, t.producers[target.index], ToPost(m));
      }
    case SpuriousProducer(p) => TotalUpdate(s.producers, p, t.producers[p], ToPost(m));
    case Close(p) =>
      TotalUpdate(s.producers, p, t.producers[p], ToPost(m));
      TotalZero(t.producers[p].script, Posts(m));
      TotalZero(s.producers[p].script, Posts(m));
    case _ =>
  }

  /** In every interleaving each message is accepted, or still to be posted, as often as it was to be posted before. */
  lemma {:induction false} PostsConserved(s: State, steps: seq<Step>, m: Msg)
    requires IsSchedule(s, steps) && m != Terminate
    ensures Known(Run(s, steps), m) == Known(s, m)
    decreases |steps|
  {
    if |steps| > 0 {
      StepKeepsKnown(s, steps[0], m);
      PostsConserved(Apply(s, steps[0]), steps[1..], m);
    }
  }

  /** What stays as it is when a producer only waits. */
  predicate OnlyParked(s: State, t: State, p: nat)
    requires p < |s.producers|
  {
    t == s.(producers := s.producers[p := Producer(s.producers[p].script, Parked)])
  }

  /** The producer's first post was taken: it is the last item accepted, and a notification is due. */
  predicate FirstPostTaken(s: State, t: State, p: nat)
    requires p < |s.producers| && s.producers[p].script != []
  {
    && t.accepted == s.accepted + [s.producers[p].script[0].msg] && t.origins == s.origins + [p]
    && t.producers == s.producers[p := Producer(s.producers[p].script[1..], Notifying)]
    && t.workers == s.workers && t.handled == s.handled && t.mode == s.mode && t.capacity == s.capacity
  }

  /**
   * What a producer does under the mutex. A blocking post to a full queue waits. Any other is taken: with room it is
   * stored behind the rest; without, it is stored in place of the oldest item, which is dropped and counted, or, in a
   * queue that can hold nothing, dropped itself.
   */
  lemma EnterLaw(s: State, p: nat)
    requires Enabled(s, Enter(p)) && |s.q| <= s.capacity
    ensures var t, post := Apply(s, Enter(p)), s.producers[p].script[0];
            if |s.q| < s.capacity then
              FirstPostTaken(s, t, p) && t.q == s.q + [post.msg] && t.removed == s.removed && t.overruns == s.overruns
            else if post.policy == Block then OnlyParked(s, t, p)
            else
              && FirstPostTaken(s, t, p) && t.overruns == s.overruns + 1
              && (s.capacity >= 1 ==> t.q == s.q[1..] + [post.msg] && t.removed == s.removed + [Dropped(s.q[0])])
              && (s.capacity == 0 ==> t.q == [] && t.removed == s.removed + [Dropped(post.msg)])
  {
    var m := s.producers[p].script[0].msg;
    if s.q != [] {
      assert (s.q + [m])[1..] == s.q[1..] + [m] && (s.q + [m])[0] == s.q[0];
    }
  }

  /** What a worker does under the mutex: it takes the oldest item, or waits, or gives up after a timeout. */
  lemma DequeueLaw(s: State, w: nat)
    requires Enabled(s, Dequeue(w))
    ensures var t := Apply(s, Dequeue(w));
            && t.producers == s.producers && t.accepted == s.accepted && t.handled == s.handled
            && t.overruns == s.overruns
            && if s.q == [] then
                 && t.q == [] && t.removed == s.removed
                 && t.workers == s.workers[w := if s.workers[w] == TimedOut then Ready else Waiting]
               else
                 && s.q == [s.q[0]] + t.q && t.removed == s.removed + [Taken(s.q[0])]
                 && t.workers == s.workers[w := Popped(s.q[0])]
  {
  }

  /** Nobody is held up by others: whoever is at the mutex may be next, and whoever waits may wake up at any time. */
  lemma AnyoneMayBeNext(s: State)
    ensures forall p :: 0 <= p < |s.producers| && s.producers[p].script != [] ==>
              s.producers[p].phase in {Idle, Awake} ==> Enabled(s, Enter(p))
    ensures forall w :: 0 <= w < |s.workers| && s.workers[w] in {Ready, Woken, TimedOut} ==> Enabled(s, Dequeue(w))
    ensures forall w :: 0 <= w < |s.workers| && s.workers[w] == Waiting ==>
              Enabled(s, Timeout(w)) && Enabled(s, SpuriousWorker(w))
    ensures forall p :: 0 <= p < |s.producers| && s.producers[p].phase == Parked ==> Enabled(s, SpuriousProducer(p))
    ensures forall p, w :: 0 <= p < |s.producers| && 0 <= w < |s.workers| ==>
              s.producers[p].phase == Notifying && s.workers[w] == Waiting ==> Enabled(s, NotifyPush(p, Somebody(w)))
    ensures forall p, w :: 0 <= p < |s.producers| && 0 <= w < |s.workers| ==>
              s.producers[p].phase == Parked && s.workers[w].Popped? ==> Enabled(s, NotifyPop(w, Somebody(p)))
  {
  }

  /** From the start, the queue is never over its capacity, so that the law above always applies. */
  lemma NeverOverfull(s: State, steps: seq<Step>)
    requires Init(s) && IsSchedule(s, steps)
    ensures |Run(s, steps).q| <= Run(s, steps).capacity
  {
    CoveredInitially(s);
    NoLostWakeups(s, steps);
  }
}

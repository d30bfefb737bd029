/**
 The counting lock of process_request_queue.

 A thread that finds the lock taken only adds to it and leaves; the thread that holds it
 makes one more pass for every such addition.
 */
module RingLock {

  /** Where a thread is: elsewhere, between its enqueue and its increment, making a pass
      over the request queue, at the end of a pass. */
  datatype Phase = Outside | Enqueued | Passing | PassEnded

  /** The lock, the threads, the length of the request queue, and whether the last pass
      ended because the ring was saturated or a request had to back off. */
  datatype State = State(lock: nat, threads: map<nat, Phase>, queued: nat, saturated: bool)

  datatype Step =
    | Enqueue(t: nat) | Increment(t: nat) | Take(t: nat) | PutBack(t: nat) | FindEmpty(t: nat) | Decrement(t: nat)

  predicate Enabled(s: State, step: Step) {
    step.t in s.threads &&
    match step
    case Enqueue(t) => s.threads[t].Outside?
    case Increment(t) => s.threads[t].Outside? || s.threads[t].Enqueued?
    case Take(t) => s.threads[t].Passing? && s.queued > 0
    case PutBack(t) => s.threads[t].Passing? && s.queued > 0
    case FindEmpty(t) => s.threads[t].Passing? && s.queued == 0
    case Decrement(t) => s.threads[t].PassEnded? && s.lock > 0
  }

  function Apply(s: State, step: Step): State
    requires Enabled(s, step)
  {
    match step
    case Enqueue(t) => s.(threads := s.threads[t := Enqueued], queued := s.queued + 1)
    case Increment(t) => s.(lock := s.lock + 1, threads := s.threads[t := if s.lock == 0 then Passing else Outside])
    case Take(t) => s.(queued := s.queued - 1)
    case PutBack(t) => s.(threads := s.threads[t := PassEnded], saturated := true)
    case FindEmpty(t) => s.(threads := s.threads[t := PassEnded], saturated := false)
    case Decrement(t) => s.(lock := s.lock - 1, threads := s.threads[t := if s.lock > 1 then Passing else Outside])
  }

  ghost predicate Init(s: State) {
    s.lock == 0 && s.queued == 0 && !s.saturated && forall t :: t in s.threads ==> s.threads[t].Outside?
  }

  predicate Holds(s: State, t: nat) { t in s.threads && (s.threads[t].Passing? || s.threads[t].PassEnded?) }

  ghost predicate Arriving(s: State) { exists t :: t in s.threads && s.threads[t].Enqueued? }

  /** A request that waits has someone coming for it: a thread about to increment, a
      thread in a pass, or a count that makes the holder go round again. */
  ghost predicate Inv(s: State) {
    (forall t, u :: Holds(s, t) && Holds(s, u) ==> t == u) &&
    (s.lock == 0 <==> forall t :: !Holds(s, t)) &&
    (s.queued > 0 && !s.saturated ==>
      Arriving(s) || s.lock > 1 || exists t :: t in s.threads && s.threads[t].Passing?)
  }

  lemma HoldersKept(s: State, step: Step)
    requires Inv(s) && Enabled(s, step)
    ensures var s' := Apply(s, step);
            (forall t, u :: Holds(s', t) && Holds(s', u) ==> t == u) && (s'.lock == 0 <==> forall t :: !Holds(s', t))
  {
    var s' := Apply(s, step);
    forall t | t != step.t
      ensures Holds(s', t) <==> Holds(s, t)
    {
    }
    assert Holds(s, step.t) || !Holds(s, step.t);
    assert Holds(s', step.t) || !Holds(s', step.t);
  }

  lemma WaitersKept(s: State, step: Step)
    requires Inv(s) && Enabled(s, step)
    ensures var s' := Apply(s, step);
            s'.queued > 0 && !s'.saturated ==>
              Arriving(s') || s'.lock > 1 || exists t :: t in s'.threads && s'.threads[t].Passing?
  {
    var s', t := Apply(s, step), step.t;
    assert s'.threads[t] == s'.threads[t];
    if u :| u in s.threads && u != t && s.threads[u].Enqueued? {
      assert s'.threads[u].Enqueued?;
    } else if u :| u in s.threads && u != t && s.threads[u].Passing? {
      assert s'.threads[u].Passing?;
    }
  }

  ghost predicate Run(ss: seq<State>, steps: seq<Step>) {
    |ss| == |steps| + 1 && Init(ss[0]) &&
    forall i :: 0 <= i < |steps| ==> Enabled(ss[i], steps[i]) && ss[i + 1] == Apply(ss[i], steps[i])
  }

  lemma {:induction false} RunInv(ss: seq<State>, steps: seq<Step>, i: nat)
    requires Run(ss, steps) && i < |ss|
    ensures Inv(ss[i])
  {
    hide Inv, Enabled, Apply;
    if i == 0 {
      InitInv(ss[0]);
    } else {
      RunInv(ss, steps, i - 1);
      StepInv(ss[i - 1], steps[i - 1]);
    }
  }

  lemma InitInv(s: State)
    requires Init(s)
    ensures Inv(s)
  {
  }

  lemma StepInv(s: State, step: Step)
    requires Inv(s) && Enabled(s, step)
    ensures Inv(Apply(s, step))
  {
    HoldersKept(s, step);
    WaitersKept(s, step);
  }

  /** One thread at most is in the passes, so dequeues are serialized. */
  lemma OneHolder(ss: seq<State>, steps: seq<Step>, i: nat, t: nat, u: nat)
    requires Run(ss, steps) && i < |ss| && Holds(ss[i], t) && Holds(ss[i], u)
    ensures t == u
  {
    hide Enabled, Apply, Run;
    RunInv(ss, steps, i);
  }

  /** No request is lost: when the lock is free and no thread is between its enqueue and
      its increment, the queue is empty or the last pass ended in saturation. */
  lemma NoLostRequest(ss: seq<State>, steps: seq<Step>, i: nat)
    requires Run(ss, steps) && i < |ss| && ss[i].lock == 0 && !Arriving(ss[i])
    ensures ss[i].queued == 0 || ss[i].saturated
  {
    hide Enabled, Apply, Run;
    RunInv(ss, steps, i);
    var s := ss[i];
    forall t | t in s.threads
      ensures !s.threads[t].Passing?
    {
      assert !Holds(s, t);
    }
  }
}

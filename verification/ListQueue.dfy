/**
 The queues of the block driver: lists whose head is changed by compare-and-swap only.

 Any number of threads may enqueue at the head; the thread that has the dequeue lock
 takes the element at the far end, or puts one back there.  dequeue_first takes the
 element at the head, in any number of threads: that is safe if no two of these calls
 overlap, and there is a run of two that overlap in which an element is handed out twice.
 */
module ListQueue {

  /** A pointer to an element, or NULL. */
  datatype Ptr = Null | At(el: nat)

  /** A thread in enqueue, after it has loaded the head into its element's next field. */
  datatype Loaded = Loaded(el: nat, seen: Ptr)

  /** The thread with the dequeue lock: not in a call; in dequeue with the head loaded,
      with that head's next found NULL, or walking with a link from prev to cur; in
      enqueue_tail, with the head found NULL, or walking.  A walk counts the elements
      that are older than the one it is at. */
  datatype Holder =
    | Free
    | DequeueAt(q: nat, pos: int) | DequeueCas(q: nat) | DequeueWalk(prev: nat, cur: nat, pos: int)
    | Tail(newEl: nat) | TailCas(newEl: nat) | TailWalk(newEl: nat, at: nat, pos: int)

  /** A thread in dequeue_first, with the head and its next loaded. */
  datatype First = First(el: nat, seen: Ptr)

  /** The head, the next fields, the threads that enqueue, the holder of the lock, the
      threads in dequeue_first, and, for the record, the queue from its oldest element
      to its newest. */
  datatype State = State(
    head: Ptr, next: map<nat, Ptr>, loaded: map<nat, Loaded>, holder: Holder, firsts: map<nat, First>, fifo: seq<nat>)

  datatype Step =
    | Load(t: nat, el: nat) | EnqueueCas(t: nat)
    | DequeueLoad | DequeueNext | DequeueSwap | DequeueStep | TailLoad(el: nat) | TailTest | TailSwap | TailStep
    | FirstLoad(t: nat) | FirstSwap(t: nat)

  /** Elements that a thread is about to put into the queue. */
  ghost predicate Held(s: State, el: nat) {
    (exists t :: t in s.loaded && s.loaded[t].el == el) ||
    ((s.holder.Tail? || s.holder.TailCas? || s.holder.TailWalk?) && s.holder.newEl == el)
  }

  /** An element is put into a queue by one thread at a time, and not when it is there. */
  ghost predicate Enabled(s: State, step: Step) {
    match step
    case Load(t, el) => (t in s.loaded ==> s.loaded[t].el == el) && (t !in s.loaded ==> el !in s.fifo && !Held(s, el))
    case EnqueueCas(t) => t in s.loaded && s.head == s.loaded[t].seen
    case DequeueLoad => s.holder.Free? && s.head.At?
    case DequeueNext => s.holder.DequeueAt? && s.holder.q in s.next
    case DequeueSwap => s.holder.DequeueCas?
    case DequeueStep => s.holder.DequeueWalk? && s.holder.cur in s.next
    case FirstLoad(t) => s.head.At? && s.head.el in s.next
    case FirstSwap(t) => t in s.firsts
    case TailLoad(el) => s.holder.Free? && el !in s.fifo && !Held(s, el)
    case TailTest => s.holder.Tail?
    case TailSwap => s.holder.TailCas?
    case TailStep => s.holder.TailWalk? && s.holder.at in s.next
  }

  /** The rule for callers: a call of dequeue_first overlaps no other call that takes
      elements out; enqueue is unrestricted. */
  ghost predicate Alone(s: State, step: Step) {
    match step
    case FirstLoad(t) => s.holder.Free? && s.firsts.Keys <= {t}
    case DequeueLoad => s.firsts == map[]
    case TailLoad(_) => s.firsts == map[]
    case _ => true
  }

  function WithoutOldest(f: seq<nat>): seq<nat> { if f == [] then [] else f[1..] }

  function WithoutNewest(f: seq<nat>): seq<nat> { if f == [] then [] else f[..|f| - 1] }

  ghost function Apply(s: State, step: Step): State
    requires Enabled(s, step)
  {
    match step
    case Load(t, el) => s.(next := s.next[el := s.head], loaded := s.loaded[t := Loaded(el, s.head)])
    case EnqueueCas(t) => s.(head := At(s.loaded[t].el), loaded := s.loaded - {t}, fifo := s.fifo + [s.loaded[t].el])
    case DequeueLoad => s.(holder := DequeueAt(s.head.el, |s.fifo| - 1))
    case DequeueNext =>
      var q := s.holder.q;
      if s.next[q].Null? then s.(holder := DequeueCas(q))
      else s.(holder := DequeueWalk(q, s.next[q].el, s.holder.pos - 1))
    case DequeueSwap =>
      if s.head == At(s.holder.q) then s.(head := Null, holder := Free, fifo := WithoutOldest(s.fifo))
      else s.(holder := Free)
    case DequeueStep =>
      var c := s.holder.cur;
      if s.next[c].Null? then s.(next := s.next[s.holder.prev := Null], holder := Free, fifo := WithoutOldest(s.fifo))
      else s.(holder := DequeueWalk(c, s.next[c].el, s.holder.pos - 1))
    case FirstLoad(t) => s.(firsts := s.firsts[t := First(s.head.el, s.next[s.head.el])])
    case FirstSwap(t) =>
      var f := s.firsts[t];
      if s.head == At(f.el) then s.(head := f.seen, firsts := s.firsts - {t}, fifo := WithoutNewest(s.fifo))
      else s.(firsts := s.firsts - {t})
    case TailLoad(el) => s.(next := s.next[el := Null], holder := Tail(el))
    case TailTest =>
      if s.head.Null? then s.(holder := TailCas(s.holder.newEl))
      else s.(holder := TailWalk(s.holder.newEl, s.head.el, |s.fifo| - 1))
    case TailSwap =>
      if s.head.Null? then s.(head := At(s.holder.newEl), holder := Free, fifo := [s.holder.newEl] + s.fifo)
      else s.(holder := Tail(s.holder.newEl))
    case TailStep =>
      var n := s.next[s.holder.at];
      if n.Null? then
        s.(next := s.next[s.holder.at := At(s.holder.newEl)], holder := Free, fifo := [s.holder.newEl] + s.fifo)
      else s.(holder := TailWalk(s.holder.newEl, n.el, s.holder.pos - 1))
  }

  /** The list from the head is the queue from its newest element to its oldest. */
  ghost predicate ListOk(head: Ptr, next: map<nat, Ptr>, fifo: seq<nat>) {
    head == (if fifo == [] then Null else At(fifo[|fifo| - 1])) &&
    (forall i, j :: 0 <= i < j < |fifo| ==> fifo[i] != fifo[j]) &&
    forall i :: 0 <= i < |fifo| ==> LinkOk(next, fifo, i)
  }

  ghost predicate LinkOk(next: map<nat, Ptr>, fifo: seq<nat>, i: int)
    requires 0 <= i < |fifo|
  {
    fifo[i] in next && next[fifo[i]] == if i == 0 then Null else At(fifo[i - 1])
  }

  ghost predicate LoadedOk(next: map<nat, Ptr>, loaded: map<nat, Loaded>, fifo: seq<nat>) {
    (forall t :: t in loaded ==>
       loaded[t].el in next && next[loaded[t].el] == loaded[t].seen && loaded[t].el !in fifo) &&
    forall t, u :: t in loaded && u in loaded && t != u ==> loaded[t].el != loaded[u].el
  }

  predicate IsTail(h: Holder) { h.Tail? || h.TailCas? || h.TailWalk? }

  ghost predicate HolderOk(h: Holder, next: map<nat, Ptr>, loaded: map<nat, Loaded>, fifo: seq<nat>) {
    (h.DequeueAt? ==> 0 <= h.pos < |fifo| && fifo[h.pos] == h.q) &&
    (h.DequeueCas? ==> fifo != [] && fifo[0] == h.q) &&
    (h.DequeueWalk? ==> 0 <= h.pos && h.pos + 1 < |fifo| && fifo[h.pos] == h.cur && fifo[h.pos + 1] == h.prev) &&
    (h.TailWalk? ==> 0 <= h.pos < |fifo| && fifo[h.pos] == h.at) &&
    (IsTail(h) ==> h.newEl in next && next[h.newEl] == Null && h.newEl !in fifo) &&
    (IsTail(h) ==> forall t :: t in loaded ==> loaded[t].el != h.newEl)
  }

  /** One call of dequeue_first at most; its element is still in the queue, with the link
      it has loaded. */
  ghost predicate FirstsOk(firsts: map<nat, First>, holder: Holder, next: map<nat, Ptr>, fifo: seq<nat>) {
    (firsts != map[] ==> holder.Free?) &&
    (forall t, u :: t in firsts && u in firsts ==> t == u) &&
    forall t :: t in firsts ==> firsts[t].el in fifo && firsts[t].el in next && next[firsts[t].el] == firsts[t].seen
  }

  ghost predicate Inv(s: State) {
    ListOk(s.head, s.next, s.fifo) && LoadedOk(s.next, s.loaded, s.fifo) &&
    HolderOk(s.holder, s.next, s.loaded, s.fifo) && FirstsOk(s.firsts, s.holder, s.next, s.fifo)
  }

  /** The element that a call of dequeue or dequeue_first returns in a step, if it does. */
  ghost predicate Returns(s: State, step: Step, el: nat) {
    (step.DequeueSwap? && s.holder.DequeueCas? && s.head == At(s.holder.q) && el == s.holder.q) ||
    (step.DequeueStep? && s.holder.DequeueWalk? && s.holder.cur in s.next && s.next[s.holder.cur].Null? &&
     el == s.holder.cur) ||
    (step.FirstSwap? && step.t in s.firsts && s.head == At(s.firsts[step.t].el) && el == s.firsts[step.t].el)
  }

  /** What a step does to the queue: nothing, a newest element more, the oldest or the
      newest less, or an oldest element more; what is taken off is exactly what the call
      returns. */
  ghost predicate Refines(s: State, step: Step, t: State) {
    match step
    case EnqueueCas(th) => th in s.loaded && t.fifo == s.fifo + [s.loaded[th].el]
    case DequeueSwap => TakesOldest(s, step, t)
    case DequeueStep => TakesOldest(s, step, t)
    case FirstSwap(_) => TakesNewest(s, step, t)
    case TailSwap => IsTail(s.holder) && t.fifo == if t.holder.Free? then [s.holder.newEl] + s.fifo else s.fifo
    case TailStep => IsTail(s.holder) && t.fifo == if t.holder.Free? then [s.holder.newEl] + s.fifo else s.fifo
    case _ => t.fifo == s.fifo
  }

  ghost predicate TakesOldest(s: State, step: Step, t: State) {
    (t.fifo == s.fifo && forall el :: !Returns(s, step, el)) ||
    (s.fifo != [] && t.fifo == s.fifo[1..] && Returns(s, step, s.fifo[0]))
  }

  ghost predicate TakesNewest(s: State, step: Step, t: State) {
    (t.fifo == s.fifo && forall el :: !Returns(s, step, el)) ||
    (s.fifo != [] && t.fifo == s.fifo[..|s.fifo| - 1] && Returns(s, step, s.fifo[|s.fifo| - 1]))
  }

  lemma LoadKeeps(s: State, th: nat, el: nat)
    requires Inv(s) && Enabled(s, Load(th, el))
    ensures Inv(Apply(s, Load(th, el)))
  {
    var t := Apply(s, Load(th, el));
    assert el !in s.fifo;
    forall i | 0 <= i < |t.fifo|
      ensures LinkOk(t.next, t.fifo, i)
    {
      assert LinkOk(s.next, s.fifo, i);
    }
  }

  lemma EnqueueKeeps(s: State, th: nat)
    requires Inv(s) && Enabled(s, EnqueueCas(th))
    ensures Inv(Apply(s, EnqueueCas(th)))
  {
    var t := Apply(s, EnqueueCas(th));
    forall i | 0 <= i < |t.fifo|
      ensures LinkOk(t.next, t.fifo, i)
    {
      if i < |s.fifo| {
        assert LinkOk(s.next, s.fifo, i);
      }
    }
  }

  lemma DequeueNextKeeps(s: State)
    requires Inv(s) && Enabled(s, DequeueNext)
    ensures Inv(Apply(s, DequeueNext))
  {
    assert LinkOk(s.next, s.fifo, s.holder.pos);
  }

  lemma DequeueSwapKeeps(s: State)
    requires Inv(s) && Enabled(s, DequeueSwap)
    ensures Inv(Apply(s, DequeueSwap)) && Refines(s, DequeueSwap, Apply(s, DequeueSwap))
  {
    if s.head == At(s.holder.q) {
      assert |s.fifo| == 1;
      assert s.fifo[1..] == [];
    }
  }

  lemma DequeueStepKeeps(s: State)
    requires Inv(s) && Enabled(s, DequeueStep)
    ensures Inv(Apply(s, DequeueStep)) && Refines(s, DequeueStep, Apply(s, DequeueStep))
  {
    var t := Apply(s, DequeueStep);
    assert LinkOk(s.next, s.fifo, s.holder.pos);
    if s.next[s.holder.cur].Null? {
      forall i | 0 <= i < |t.fifo|
        ensures LinkOk(t.next, t.fifo, i)
      {
        assert LinkOk(s.next, s.fifo, i + 1);
      }
    }
  }

  lemma FirstSwapKeeps(s: State, th: nat)
    requires Inv(s) && Enabled(s, FirstSwap(th))
    ensures Inv(Apply(s, FirstSwap(th))) && Refines(s, FirstSwap(th), Apply(s, FirstSwap(th)))
  {
    var t := Apply(s, FirstSwap(th));
    assert t.firsts == map[];
    if s.head == At(s.firsts[th].el) {
      SwapExact(s.head, s.next, s.fifo, s.firsts[th].el, s.firsts[th].seen);
    }
  }

  /** Replacing the head by a pointer takes the newest element off exactly when the
      pointer is that element's link at that moment. */
  lemma SwapExact(head: Ptr, next: map<nat, Ptr>, fifo: seq<nat>, el: nat, seen: Ptr)
    requires ListOk(head, next, fifo) && head == At(el)
    ensures fifo != [] && fifo[|fifo| - 1] == el && el in next
    ensures ListOk(seen, next, fifo[..|fifo| - 1]) <==> seen == next[el]
  {
    var f := fifo[..|fifo| - 1];
    assert LinkOk(next, fifo, |fifo| - 1);
    forall i | 0 <= i < |f|
      ensures LinkOk(next, f, i)
    {
      assert LinkOk(next, fifo, i);
    }
  }

  lemma FirstLoadKeeps(s: State, th: nat)
    requires Inv(s) && Enabled(s, FirstLoad(th)) && Alone(s, FirstLoad(th))
    ensures Inv(Apply(s, FirstLoad(th)))
  {
    HeadIsNewest(s);
  }

  lemma TailSwapKeeps(s: State)
    requires Inv(s) && Enabled(s, TailSwap)
    ensures Inv(Apply(s, TailSwap)) && Refines(s, TailSwap, Apply(s, TailSwap))
  {
    var t := Apply(s, TailSwap);
    if s.head.Null? {
      assert LinkOk(t.next, t.fifo, 0);
    }
  }

  lemma TailStepKeeps(s: State)
    requires Inv(s) && Enabled(s, TailStep)
    ensures Inv(Apply(s, TailStep)) && Refines(s, TailStep, Apply(s, TailStep))
  {
    var t := Apply(s, TailStep);
    assert LinkOk(s.next, s.fifo, s.holder.pos);
    if s.next[s.holder.at].Null? {
      forall i | 0 <= i < |t.fifo|
        ensures LinkOk(t.next, t.fifo, i)
      {
        if i > 0 {
          assert LinkOk(s.next, s.fifo, i - 1);
        }
      }
    }
  }

  lemma TailLoadKeeps(s: State, el: nat)
    requires Inv(s) && Enabled(s, TailLoad(el)) && Alone(s, TailLoad(el))
    ensures Inv(Apply(s, TailLoad(el)))
  {
    var t := Apply(s, TailLoad(el));
    assert !Held(s, el);
    forall i | 0 <= i < |t.fifo|
      ensures LinkOk(t.next, t.fifo, i)
    {
      assert LinkOk(s.next, s.fifo, i);
    }
  }

  /** Every step of every thread that keeps to the rule keeps the list, and acts on it as
      on a plain queue. */
  lemma StepRefines(s: State, step: Step)
    requires Inv(s) && Enabled(s, step) && Alone(s, step)
    ensures Inv(Apply(s, step)) && Refines(s, step, Apply(s, step))
  {
    hide ListOk, LoadedOk;
    match step
    case Load(t, el) => LoadKeeps(s, t, el);
    case EnqueueCas(t) => EnqueueKeeps(s, t);
    case DequeueLoad => HeadIsNewest(s);
    case DequeueNext => DequeueNextKeeps(s);
    case DequeueSwap => DequeueSwapKeeps(s);
    case DequeueStep => DequeueStepKeeps(s);
    case FirstLoad(t) => FirstLoadKeeps(s, t);
    case FirstSwap(t) => FirstSwapKeeps(s, t);
    case TailLoad(el) => TailLoadKeeps(s, el);
    case TailTest => HeadIsNewest(s);
    case TailSwap => TailSwapKeeps(s);
    case TailStep => TailStepKeeps(s);
  }

  /** dequeue returns nothing exactly when the queue is empty. */
  lemma HeadIsNewest(s: State)
    requires Inv(s)
    ensures s.head.Null? <==> s.fifo == []
    ensures s.fifo != [] ==> s.head == At(s.fifo[|s.fifo| - 1])
  {
  }

  ghost predicate Init(s: State) {
    s.head.Null? && s.loaded == map[] && s.holder.Free? && s.firsts == map[] && s.fifo == []
  }

  ghost predicate Run(ss: seq<State>, steps: seq<Step>) {
    |ss| == |steps| + 1 && Init(ss[0]) &&
    forall i :: 0 <= i < |steps| ==> Enabled(ss[i], steps[i]) && ss[i + 1] == Apply(ss[i], steps[i])
  }

  /** No call of dequeue_first overlaps another call that takes elements out. */
  ghost predicate AllAlone(ss: seq<State>, steps: seq<Step>)
    requires |ss| == |steps| + 1
  {
    forall i :: 0 <= i < |steps| ==> Alone(ss[i], steps[i])
  }

  /** In every reachable state of any number of threads that keep to the rule the list is
      the queue. */
  lemma {:induction false} RunInv(ss: seq<State>, steps: seq<Step>, i: nat)
    requires Run(ss, steps) && AllAlone(ss, steps) && i < |ss|
    ensures Inv(ss[i])
    ensures i < |steps| ==> Refines(ss[i], steps[i], ss[i + 1])
  {
    hide Enabled, Apply, Refines, ListOk, Alone;
    if i == 0 {
      assert ListOk(ss[0].head, ss[0].next, ss[0].fifo) by { EmptyList(ss[0]); }
    } else {
      RunInv(ss, steps, i - 1);
      StepRefines(ss[i - 1], steps[i - 1]);
    }
    if i < |steps| {
      StepRefines(ss[i], steps[i]);
    }
  }

  lemma EmptyList(s: State)
    requires Init(s)
    ensures ListOk(s.head, s.next, s.fifo)
  {
  }

  // ------------------------------------------------ two calls of dequeue_first at once

  /** Some run from the start, whatever its calls, ends in the state. */
  ghost predicate Reachable(s: State) { exists ss, steps :: Run(ss, steps) && ss[|steps|] == s }

  lemma Then(s: State, step: Step)
    requires Reachable(s) && Enabled(s, step)
    ensures Reachable(Apply(s, step))
  {
    hide Init, Enabled, Apply;
    var ss, steps :| Run(ss, steps) && ss[|steps|] == s;
    var ss', steps' := ss + [Apply(s, step)], steps + [step];
    assert Run(ss', steps') && ss'[|steps'|] == Apply(s, step);
  }

  lemma StartReachable(s: State)
    requires Init(s)
    ensures Reachable(s)
  {
    assert Run([s], []) && [s][0] == s;
  }

  /** A call of enqueue that nothing interrupts. */
  lemma Enqueued(s: State, th: nat, el: nat) returns (t: State)
    requires Reachable(s) && th !in s.loaded && el !in s.fifo && !Held(s, el)
    ensures Reachable(t) && t == s.(head := At(el), next := s.next[el := s.head], fifo := s.fifo + [el])
  {
    hide Reachable;
    Then(s, Load(th, el));
    t := Apply(s, Load(th, el));
    Then(t, EnqueueCas(th));
    t := Apply(t, EnqueueCas(th));
    assert t.loaded == s.loaded;
  }

  /** A call of dequeue_first that nothing interrupts. */
  lemma FirstTaken(s: State, th: nat) returns (t: State)
    requires Reachable(s) && th !in s.firsts && s.head.At? && s.head.el in s.next
    ensures Reachable(t) && t == s.(head := s.next[s.head.el], fifo := WithoutNewest(s.fifo))
  {
    hide Reachable;
    Then(s, FirstLoad(th));
    t := Apply(s, FirstLoad(th));
    Then(t, FirstSwap(th));
    t := Apply(t, FirstSwap(th));
    assert t.firsts == s.firsts;
  }

  /** Elements 2 and 1 are enqueued.  Thread 0 is in dequeue_first and has loaded element
      1 and its link to element 2.  Thread 1 takes both, and puts 1 back.  Thread 0 finds
      the head it has loaded, and makes element 2 the head: the queue is empty, but the
      next call returns element 2 once more. */
  lemma FirstNeedsLock() returns (s: State)
    ensures Reachable(s) && s.fifo == [] && s.head == At(2) && !ListOk(s.head, s.next, s.fifo)
    ensures Enabled(s, FirstLoad(1)) && Returns(Apply(s, FirstLoad(1)), FirstSwap(1), 2)
  {
    hide Reachable;
    s := State(Null, map[], map[], Free, map[], []);
    StartReachable(s);
    s := Enqueued(s, 0, 2);
    s := Enqueued(s, 0, 1);
    Then(s, FirstLoad(0));
    s := Apply(s, FirstLoad(0));
    s := FirstTaken(s, 1);
    s := FirstTaken(s, 1);
    s := Enqueued(s, 1, 1);
    Then(s, FirstSwap(0));
    s := Apply(s, FirstSwap(0));
  }
}

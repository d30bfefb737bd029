/**
 The block driver over whole runs: what MOL sees of the requests issued, and when they
 complete.
 */
module BlockOrder {
  import opened Options
  import opened BlockRequest
  import opened BlockRing

  /** The requests not yet sent completely, in the order in which they will be. */
  ghost function Waiting(drv: Driver, queue: seq<Pending>): seq<Pending> {
    match drv
    case Idle => queue
    case Wrote(next) => if next.Some? then [next.value] + queue else queue
    case Working(p) => [p] + queue
    case Checked(p) => [p] + queue
    case Claimed(p) => [p] + queue
    case Reserving(p) => [p] + queue
    case Reserved(p) => [p] + queue
  }

  ghost predicate AllSendable(ws: seq<Pending>) { forall i :: 0 <= i < |ws| ==> Sendable(ws[i]) }

  ghost predicate AllFormed(rs: seq<Req>) { forall i :: 0 <= i < |rs| ==> WellFormed(rs[i]) }

  /** The descriptors that are still to be written. */
  ghost function Rest(ws: seq<Pending>): seq<Desc>
    requires AllSendable(ws)
  {
    if ws == [] then [] else Descs(ws[0].req, ws[0].xfer) + Rest(ws[1..])
  }

  /** The descriptors of some requests, one request after the other. */
  ghost function All(rs: seq<Req>): seq<Desc>
    requires AllFormed(rs)
  {
    if rs == [] then [] else Descs(rs[0], -1) + All(rs[1..])
  }

  function Reqs(c: seq<Completion>): seq<Req> { seq(|c|, i requires 0 <= i < |c| => c[i].req) }

  function Requests(ws: seq<Pending>): seq<Req> { seq(|ws|, i requires 0 <= i < |ws| => ws[i].req) }

  lemma {:induction false} AllAppend(a: seq<Req>, b: seq<Req>)
    requires AllFormed(a) && AllFormed(b)
    ensures AllFormed(a + b) && All(a + b) == All(a) + All(b)
  {
    hide Descs, WellFormed;
    if a == [] {
      assert a + b == b;
    } else {
      AllAppend(a[1..], b);
      assert (a + b)[1..] == a[1..] + b;
    }
  }

  lemma {:induction false} RestAppend(ws: seq<Pending>, p: Pending)
    requires AllSendable(ws) && Sendable(p)
    ensures AllSendable(ws + [p]) && Rest(ws + [p]) == Rest(ws) + Descs(p.req, p.xfer)
  {
    hide Descs, Sendable;
    if ws == [] {
      assert ws + [p] == [p] && Rest([p][1..]) == [];
    } else {
      RestAppend(ws[1..], p);
      assert (ws + [p])[1..] == ws[1..] + [p];
    }
  }

  /** Requests of which nothing has been sent. */
  ghost predicate Unsent(ws: seq<Pending>) { forall i :: 0 <= i < |ws| ==> ws[i].xfer == -1 }

  lemma {:induction false} UnsentRest(ws: seq<Pending>)
    requires AllSendable(ws) && Unsent(ws)
    ensures AllFormed(Requests(ws)) && Rest(ws) == All(Requests(ws))
  {
    hide Descs;
    if ws != [] {
      UnsentRest(ws[1..]);
      assert Requests(ws)[1..] == Requests(ws[1..]);
    }
  }

  /** Everything written, and then everything still to be written, is the descriptors of
      the requests issued, request after request. */
  ghost predicate OrderInv(s: State) {
    var ws := Waiting(s.drv, s.queue);
    AllSendable(ws) && AllFormed(s.issued) && (ws != [] ==> Unsent(ws[1..])) &&
    s.issued == s.done + Reqs(s.compl) + Requests(ws) &&
    s.written + Rest(ws) == All(s.issued)
  }

  lemma EnqueueOrder(s: State, r: Req)
    requires OrderInv(s) && Enabled(s, Enqueue(r))
    ensures OrderInv(Apply(s, Enqueue(r)))
  {
    hide WellFormed, Descs;
    var ws, p := Waiting(s.drv, s.queue), Pending(r, -1);
    var t := Apply(s, Enqueue(r));
    assert Sendable(p);
    RestAppend(ws, p);
    assert Waiting(t.drv, t.queue) == ws + [p];
    AllAppend(s.issued, [r]);
    assert All([r]) == Descs(r, -1) + All([r][1..]);
    assert Requests(ws + [p]) == Requests(ws) + [r];
    if ws != [] {
      assert (ws + [p])[1..] == ws[1..] + [p];
    }
  }

  lemma WriteOrder(s: State)
    requires OrderInv(s) && Enabled(s, Write)
    ensures OrderInv(Apply(s, Write))
  {
    hide Position, DescOf, BlockRequest.Advance, NeedsObuf, WellFormed, Descs, OrderInv;
    if Finished(s.drv.p.req, BlockRequest.Advance(s.drv.p.req, s.drv.p.xfer)) {
      WriteLast(s, Apply(s, Write));
    } else {
      WriteMore(s, Apply(s, Write));
    }
  }

  /** The first waiting request comes first in what is still to be written. */
  lemma WriteFirst(p: Pending, queue: seq<Pending>, written: seq<Desc>)
    requires Sendable(p) && AllSendable([p] + queue)
    ensures AllSendable(queue)
    ensures var d, next := DescOf(p.req, p.xfer), BlockRequest.Advance(p.req, p.xfer);
            && written + Rest([p] + queue) == (written + [d]) + (Descs(p.req, next) + Rest(queue))
            && (Finished(p.req, next) ==> written + Rest([p] + queue) == (written + [d]) + Rest(queue))
  {
    hide Position, DescOf, BlockRequest.Advance, WellFormed;
    var d, next := DescOf(p.req, p.xfer), BlockRequest.Advance(p.req, p.xfer);
    var ws := [p] + queue;
    assert ws[1..] == queue && ws[0] == p;
    assert forall i :: 0 <= i < |queue| ==> queue[i] == ws[i + 1];
    assert Descs(p.req, p.xfer) == [d] + Descs(p.req, next);
    Sent(written, d, Descs(p.req, next), Rest(queue));
  }

  lemma WriteLast(s: State, t: State)
    requires OrderInv(s) && Enabled(s, Write) && t == Apply(s, Write) && t.drv == Wrote(None)
    ensures OrderInv(t)
  {
    hide Position, DescOf, BlockRequest.Advance, NeedsObuf, WellFormed, Descs, Finished;
    var p := s.drv.p;
    var ws := Waiting(s.drv, s.queue);
    WriteFirst(p, s.queue, s.written);
    assert ws == [p] + s.queue && ws[1..] == s.queue;
    assert Reqs(t.compl) == Reqs(s.compl) + [p.req];
    assert Requests(ws) == [p.req] + Requests(s.queue);
    assert s.issued == s.done + Reqs(t.compl) + Requests(s.queue);
    UnsentTail(s.queue);
  }

  lemma WriteMore(s: State, t: State)
    requires OrderInv(s) && Enabled(s, Write) && t == Apply(s, Write) && t.drv.Wrote? && t.drv.next.Some?
    ensures OrderInv(t)
  {
    hide Position, DescOf, BlockRequest.Advance, NeedsObuf, WellFormed, Descs;
    var p := s.drv.p;
    var ws, ws' := Waiting(s.drv, s.queue), Waiting(t.drv, t.queue);
    WriteFirst(p, s.queue, s.written);
    assert ws == [p] + s.queue && ws[1..] == s.queue;
    assert ws' == [t.drv.next.value] + s.queue && ws'[1..] == s.queue;
    assert Requests(ws') == Requests(ws);
  }

  lemma Sent(w: seq<Desc>, d: Desc, ds: seq<Desc>, rest: seq<Desc>)
    ensures w + (([d] + ds) + rest) == (w + [d]) + (ds + rest)
    ensures ds == [] ==> w + (([d] + ds) + rest) == (w + [d]) + rest
  {
  }

  lemma UnsentTail(ws: seq<Pending>)
    requires Unsent(ws)
    ensures ws != [] ==> Unsent(ws[1..])
  {
  }

  lemma CompleteOrder(s: State)
    requires OrderInv(s) && Enabled(s, Complete)
    ensures OrderInv(Apply(s, Complete))
  {
    hide Descs, WellFormed;
    var t := Apply(s, Complete);
    assert s.done + Reqs(s.compl) == t.done + Reqs(t.compl);
  }

  /** Every step keeps the order of the descriptors. */
  lemma OrderKept(s: State, step: Step)
    requires OrderInv(s) && Enabled(s, step)
    ensures OrderInv(Apply(s, step))
  {
    hide Descs, WellFormed, Position, Finished, DescOf, BlockRequest.Advance, NeedsObuf;
    match step
    case Enqueue(r) => EnqueueOrder(s, r);
    case Write => WriteOrder(s);
    case Complete => CompleteOrder(s);
    case Dequeue =>
      assert [s.queue[0]] + s.queue[1..] == s.queue;
    case _ =>
      assert Waiting(Apply(s, step).drv, Apply(s, step).queue) == Waiting(s.drv, s.queue);
  }

  // ------------------------------------------------------------------------ completion

  /** A completion's number is that of the last descriptor of its request. */
  ghost predicate NumbersOk(done: seq<Req>, compl: seq<Completion>) {
    AllFormed(done + Reqs(compl)) && forall i :: 0 <= i < |compl| ==> NumberOk(done, compl, i)
  }

  ghost predicate NumberOk(done: seq<Req>, compl: seq<Completion>, i: nat)
    requires i < |compl|
  {
    AllFormed(done + Reqs(compl[..i + 1])) && compl[i].num == |All(done + Reqs(compl[..i + 1]))|
  }

  /** MOL has counted every descriptor of the requests done, and has taken every one that
      it has counted. */
  ghost predicate CountInv(s: State) {
    NumbersOk(s.done, s.compl) && AllFormed(s.done) && |All(s.done)| <= s.ack <= s.nRequests &&
    s.nRequests + s.batch == |s.taken|
  }

  lemma WriteCounts(s: State)
    requires RingInv(s) && OrderInv(s) && CountInv(s) && Enabled(s, Write)
    ensures CountInv(Apply(s, Write))
  {
    hide Position, DescOf, BlockRequest.Advance, Descs, SlotsHold, ProceedOk, NeedsObuf, WellFormed;
    var t := Apply(s, Write);
    if t.drv.next.None? {
      WriteOrder(s);
      FinishedNumber(t);
      NumbersGrow(s.done, s.compl, t.compl[|s.compl|]);
    }
  }

  lemma NumbersGrow(done: seq<Req>, compl: seq<Completion>, c: Completion)
    requires NumbersOk(done, compl) && AllFormed(done + Reqs(compl + [c])) && c.num == |All(done + Reqs(compl + [c]))|
    ensures NumbersOk(done, compl + [c])
  {
    hide Descs, WellFormed;
    var t := compl + [c];
    forall i | 0 <= i < |t|
      ensures NumberOk(done, t, i)
    {
      if i < |compl| {
        assert NumberOk(done, compl, i);
        assert t[i] == compl[i] && t[..i + 1] == compl[..i + 1];
      } else {
        assert t[..i + 1] == t;
      }
    }
  }

  /** When no request is partly sent, what is written is the requests done and those
      waiting for completion. */
  lemma FinishedNumber(t: State)
    requires OrderInv(t) && t.drv == Wrote(None) && Unsent(t.queue)
    ensures AllFormed(t.done + Reqs(t.compl)) && |All(t.done + Reqs(t.compl))| == |t.written|
  {
    hide Descs, WellFormed;
    var a := t.done + Reqs(t.compl);
    assert forall i :: 0 <= i < |a| ==> a[i] == t.issued[i];
    UnsentRest(t.queue);
    AllAppend(a, Requests(t.queue));
  }

  lemma CompleteCounts(s: State)
    requires CountInv(s) && Enabled(s, Complete)
    ensures CountInv(Apply(s, Complete))
  {
    hide Descs, WellFormed;
    var t := Apply(s, Complete);
    forall i | 0 <= i <= |t.compl|
      ensures t.done + Reqs(t.compl[..i]) == s.done + Reqs(s.compl[..i + 1])
    {
      assert s.compl[..i + 1] == [s.compl[0]] + t.compl[..i];
    }
    forall i | 0 <= i < |t.compl|
      ensures NumberOk(t.done, t.compl, i)
    {
      assert NumberOk(s.done, s.compl, i + 1);
    }
    assert NumberOk(s.done, s.compl, 0);
    assert t.done + Reqs(t.compl[..0]) == t.done;
    assert t.compl[..|t.compl|] == t.compl && s.compl[..|s.compl|] == s.compl;
  }

  lemma CountKept(s: State, step: Step)
    requires RingInv(s) && OrderInv(s) && CountInv(s) && Enabled(s, step)
    ensures CountInv(Apply(s, step))
  {
    hide Descs, WellFormed, Position, Finished, DescOf, BlockRequest.Advance, NeedsObuf, SlotsHold, ProceedOk, OrderInv;
    match step
    case Write => WriteCounts(s);
    case Complete => CompleteCounts(s);
    case _ =>
  }

  // ------------------------------------------------------------------ overflow buffer

  predicate UsesObuf(d: Desc) { d.Sg? && d.seg.Overflow? }

  /** The descriptor with a number uses the overflow buffer. */
  predicate User(written: seq<Desc>, k: nat) { 0 < k <= |written| && UsesObuf(written[k - 1]) }

  /** No descriptor that MOL has not acknowledged does. */
  ghost predicate NoUser(ack: nat, written: seq<Desc>) { forall k: nat :: User(written, k) ==> k <= ack }

  /** A descriptor that uses the overflow buffer and has not been acknowledged is the one
      the buffer is reserved for.  While the buffer is free, or only its count has been
      stored, the number left from its last use has been acknowledged. */
  ghost predicate ObufInv(s: State) {
    && (s.drv.Reserving? || s.drv.Reserved? ==> s.obufBusy && NoUser(s.ack, s.written))
    && (s.drv.Reserved? ==> s.obufNum == s.reqCount)
    && (forall k: nat :: User(s.written, k) && s.ack < k ==> s.obufBusy && s.obufNum == k)
    && (!s.obufBusy || s.drv.Reserving? ==> s.obufNum <= s.ack)
  }

  /** An interrupt between the two stores that reserve the buffer. */
  ghost predicate InGap(s: State, step: Step) { step.Ack? && s.drv.Reserving? }

  lemma ObufKept(s: State, step: Step)
    requires RingInv(s) && CountInv(s) && ObufInv(s) && Enabled(s, step) && !InGap(s, step)
    ensures ObufInv(Apply(s, step))
  {
    hide Descs, WellFormed, Position, Finished, DescOf, BlockRequest.Advance, SlotsHold, ProceedOk, NumbersOk, User;
    if step.Write? {
      WriteUsers(s);
    }
  }

  /** Writing a descriptor adds a user at most, and then the one the buffer is kept for. */
  lemma WriteUsers(s: State)
    requires RingInv(s) && Enabled(s, Write)
    ensures var t := Apply(s, Write); forall k: nat :: User(t.written, k) ==>
              User(s.written, k) || (k == s.reqCount && s.drv.Reserved?)
  {
    hide Descs, WellFormed, Position, Finished, DescOf, BlockRequest.Advance, SlotsHold, ProceedOk;
    var t := Apply(s, Write);
    forall k: nat | User(t.written, k)
      ensures User(s.written, k) || (k == s.reqCount && s.drv.Reserved?)
    {
      assert k <= |s.written| ==> t.written[k - 1] == s.written[k - 1];
    }
  }

  // ----------------------------------------------------------------------- whole runs

  ghost predicate Inv(s: State) {
    RingInv(s) && OrderInv(s) && CountInv(s)
  }

  ghost predicate Run(ss: seq<State>, steps: seq<Step>) {
    |ss| == |steps| + 1 && Init(ss[0]) &&
    forall i :: 0 <= i < |steps| ==> Enabled(ss[i], steps[i]) && ss[i + 1] == Apply(ss[i], steps[i])
  }

  lemma InitInv(s: State)
    requires Init(s)
    ensures Inv(s)
  {
    assert SlotOf(0) == 0;
    assert All(s.issued) == [] && Rest(Waiting(s.drv, s.queue)) == [];
  }

  lemma StepInv(s: State, step: Step)
    requires Inv(s) && Enabled(s, step)
    ensures Inv(Apply(s, step))
  {
    hide RingInv, OrderInv, CountInv, Enabled, Apply;
    RingKept(s, step);
    OrderKept(s, step);
    CountKept(s, step);
  }

  lemma {:induction false} RunInv(ss: seq<State>, steps: seq<Step>, i: nat)
    requires Run(ss, steps) && i < |ss|
    ensures Inv(ss[i])
  {
    hide Inv, Init, Enabled, Apply;
    if i == 0 {
      InitInv(ss[0]);
    } else {
      RunInv(ss, steps, i - 1);
      StepInv(ss[i - 1], steps[i - 1]);
    }
  }

  /** The descriptor with a number is in its slot, whole and not yet reusable. */
  ghost predicate InSlot(s: State, k: nat)
    requires |s.ring| == RING_NUM_EL && 0 < k <= |s.written|
  {
    s.ring[SlotOf(k)].busy && s.ring[SlotOf(k)].desc == s.written[k - 1]
  }

  /** In every reachable state: no descriptor is overwritten before MOL has moved on from
      it; what MOL has taken is the descriptors written, in order; what is written is the
      descriptors of the requests issued, one whole request after the other. */
  lemma NothingLostOrMixed(ss: seq<State>, steps: seq<Step>, i: nat)
    requires Run(ss, steps) && i < |ss|
    ensures var s := ss[i];
            |s.ring| == RING_NUM_EL && AllFormed(s.issued) &&
            (forall k: nat :: |s.taken| < k <= |s.written| ==> InSlot(s, k)) &&
            s.taken <= s.written <= All(s.issued)
  {
    hide CountInv, Init, Enabled, Apply, Run, ProceedOk, Descs, SlotOf;
    RunInv(ss, steps, i);
    assert ss[i].written <= ss[i].written + Rest(Waiting(ss[i].drv, ss[i].queue));
  }

  /** In every reachable state: what is written after the descriptors of the requests before
      the k-th is the k-th request's own, a head with its operation, unit and first block
      and then its buffers. */
  lemma EachRequestAsIssued(ss: seq<State>, steps: seq<Step>, i: nat, k: nat, j: nat)
    requires Run(ss, steps) && i < |ss| && k < |ss[i].issued|
    ensures AllFormed(ss[i].issued[..k]) && WellFormed(ss[i].issued[k])
    ensures var s := ss[i];
            var r, at := s.issued[k], |All(s.issued[..k])| + j;
            at < |s.written| && j < |Descs(r, -1)| ==>
              && s.written[at] == Descs(r, -1)[j]
              && (s.written[at].Head? <==> j == 0)
              && (j == 0 ==> s.written[at] == Head(r.op, r.unit, r.param, r.total == 0))
  {
    hide Init, Enabled, Apply, Run, Descs, WellFormed, InSlot;
    NothingLostOrMixed(ss, steps, i);
    var s := ss[i];
    var r, before, later := s.issued[k], s.issued[..k], s.issued[k..];
    assert s.issued == before + later;
    AllAppend(before, later);
    HeadThenBuffers(r);
  }

  /** In every reachable state: the requests completed are the first ones issued, each
      once and in order, and MOL has counted all their descriptors. */
  lemma CompletedInOrder(ss: seq<State>, steps: seq<Step>, i: nat)
    requires Run(ss, steps) && i < |ss|
    ensures var s := ss[i];
            && s.done <= s.issued && AllFormed(s.done) && All(s.done) <= s.taken
            && |All(s.done)| <= s.nRequests <= |s.taken|
  {
    hide Init, Enabled, Apply, Run, CountsOk, ProceedOk, Descs, SlotsHold, WellFormed, NumbersOk;
    RunInv(ss, steps, i);
    NothingLostOrMixed(ss, steps, i);
    var s := ss[i];
    var later := s.issued[|s.done|..];
    assert s.issued == s.done + later;
    AllAppend(s.done, later);
  }

  // ------------------------------------------------------ the overflow buffer over runs

  /** In no step of the run before a state does an interrupt fall between the two stores. */
  ghost predicate NoGapAck(ss: seq<State>, steps: seq<Step>, n: nat)
    requires |ss| == |steps| + 1
  {
    forall i :: 0 <= i < n && i < |steps| ==> !InGap(ss[i], steps[i])
  }

  lemma {:induction false} RunObuf(ss: seq<State>, steps: seq<Step>, i: nat)
    requires Run(ss, steps) && i < |ss| && NoGapAck(ss, steps, i)
    ensures ObufInv(ss[i])
  {
    hide Init, Enabled, Apply, Inv, ObufInv;
    if i == 0 {
      InitObuf(ss[0]);
    } else {
      RunObuf(ss, steps, i - 1);
      RunInv(ss, steps, i - 1);
      InvParts(ss[i - 1]);
      ObufKept(ss[i - 1], steps[i - 1]);
    }
  }

  lemma InitObuf(s: State)
    requires Init(s)
    ensures ObufInv(s)
  {
  }

  lemma InvParts(s: State)
    requires Inv(s)
    ensures RingInv(s) && CountInv(s)
  {
  }

  /** Of the descriptors that MOL has not acknowledged, one at most uses the overflow
      buffer, provided that no interrupt has come between the two stores that reserve it. */
  lemma OneOverflow(ss: seq<State>, steps: seq<Step>, i: nat, j: nat, k: nat)
    requires Run(ss, steps) && i < |ss| && NoGapAck(ss, steps, i)
    requires User(ss[i].written, j) && User(ss[i].written, k) && ss[i].ack < j && ss[i].ack < k
    ensures j == k
  {
    hide RingInv, OrderInv, CountInv, Init, Enabled, Apply, Run, InGap, User;
    RunObuf(ss, steps, i);
    OneReserved(ss[i], j, k);
  }

  lemma OneReserved(s: State, j: nat, k: nat)
    requires ObufInv(s) && User(s.written, j) && User(s.written, k) && s.ack < j && s.ack < k
    ensures j == k
  {
  }

  /** The buffer is in use, or about to be: its count must not be 0. */
  ghost predicate KeptReserved(s: State) {
    s.drv.Reserving? || s.drv.Reserved? || !NoUser(s.ack, s.written) ==> s.obufBusy
  }

  /** An interrupt in the gap compares with the number of the buffer's last use, which
      has been acknowledged, so it always releases the buffer. */
  lemma GapAckReleases(s: State)
    requires CountInv(s) && ObufInv(s) && s.drv.Reserving? && Enabled(s, Ack)
    ensures s.nRequests >= s.obufNum && !KeptReserved(Apply(s, Ack))
  {
    hide NumbersOk, Descs, NoUser;
  }

  /** The buffer keeps its reservation throughout a run if and only if no interrupt comes
      between the two stores. */
  lemma {:induction false} ReservedIff(ss: seq<State>, steps: seq<Step>)
    requires Run(ss, steps)
    ensures (forall i :: 0 <= i < |ss| ==> KeptReserved(ss[i])) <==> NoGapAck(ss, steps, |steps|)
  {
    if NoGapAck(ss, steps, |steps|) {
      forall i | 0 <= i < |ss|
        ensures KeptReserved(ss[i])
      {
        assert NoGapAck(ss, steps, i);
        ReservedBefore(ss, steps, i);
      }
    } else {
      var i := FirstGap(ss, steps, |steps|);
      GapBreaks(ss, steps, i);
    }
  }

  lemma ReservedBefore(ss: seq<State>, steps: seq<Step>, i: nat)
    requires Run(ss, steps) && i < |ss| && NoGapAck(ss, steps, i)
    ensures KeptReserved(ss[i])
  {
    hide Run, InGap, User;
    RunObuf(ss, steps, i);
    ObufIsKept(ss[i]);
  }

  lemma ObufIsKept(s: State)
    requires ObufInv(s)
    ensures KeptReserved(s)
  {
  }

  lemma {:induction false} FirstGap(ss: seq<State>, steps: seq<Step>, n: nat) returns (i: nat)
    requires |ss| == |steps| + 1 && n <= |steps| && !NoGapAck(ss, steps, n)
    ensures i < n && InGap(ss[i], steps[i]) && NoGapAck(ss, steps, i)
  {
    hide InGap;
    if NoGapAck(ss, steps, n - 1) {
      i := n - 1;
    } else {
      i := FirstGap(ss, steps, n - 1);
    }
  }

  lemma GapBreaks(ss: seq<State>, steps: seq<Step>, i: nat)
    requires Run(ss, steps) && i < |steps| && InGap(ss[i], steps[i]) && NoGapAck(ss, steps, i)
    ensures !KeptReserved(ss[i + 1])
  {
    hide Init, Inv, ObufInv, KeptReserved;
    RunObuf(ss, steps, i);
    RunInv(ss, steps, i);
    InvParts(ss[i]);
    GapAckReleases(ss[i]);
  }

  /** What follows from it: the descriptor is sent, not acknowledged, and its buffer free. */
  lemma GapAckFrees(s: State)
    requires RingInv(s) && CountInv(s) && ObufInv(s) && s.drv.Reserving? && Enabled(s, Ack)
    requires Sendable(s.drv.p) && NeedsObuf(s.drv.p)
    ensures var t := Apply(Apply(s, Ack), StoreNumber);
            Enabled(t, Write) && var u := Apply(t, Write);
            u.written == s.written + [DescOf(s.drv.p.req, s.drv.p.xfer)] && User(u.written, |u.written|) &&
            u.ack < |u.written| && !u.obufBusy
  {
    hide NumbersOk, Descs, NoUser, DescOf, Position, BlockRequest.Advance, SlotsHold, ProceedOk;
  }

  // ------------------------------------------------- a run that shares the buffer

  /** A write of two blocks' worth of pages of which none is prepared: a head, and two
      descriptors that need the overflow buffer. */
  const SHARER := Req(1, 0, 0, 0x2000, 0, [])

  /** Some run from the start ends in the state. */
  ghost predicate Reachable(s: State) { exists ss, steps :: Run(ss, steps) && ss[|steps|] == s }

  lemma Then(s: State, step: Step)
    requires Reachable(s) && Enabled(s, step)
    ensures Reachable(Apply(s, step))
  {
    hide Init, Enabled, Apply;
    var ss, steps :| Run(ss, steps) && ss[|steps|] == s;
    var ss', steps' := ss + [Apply(s, step)], steps + [step];
    assert Run(ss', steps') && ss'[|steps'|] == Apply(s, step);
  }

  /** The driver is about to send the next descriptor of the request; nothing has been
      acknowledged, and no slot ahead is busy. */
  ghost predicate Sending(s: State, n: nat, xfer: int) {
    && |s.ring| == RING_NUM_EL && s.ri == n && s.reqCount == n < 4 && s.head == 0
    && s.drv == Working(Pending(SHARER, xfer)) && s.ack == 0 && s.nRequests == 0
    && |s.written| == n && !s.obufBusy && (n < 2 ==> s.obufNum == 0)
    && forall i :: n < i < RING_NUM_EL ==> !s.ring[i].busy
  }

  lemma SharerSteps(xfer: int)
    requires xfer == -1 || xfer == 0 || xfer == 0x1000
    ensures Sendable(Pending(SHARER, xfer))
    ensures BlockRequest.Advance(SHARER, xfer) == if xfer == -1 then 0 else xfer + 0x1000
    ensures NeedsObuf(Pending(SHARER, xfer)) <==> xfer >= 0
  {
  }

  lemma SendNothing() returns (s: State)
    ensures Reachable(s) && Sending(s, 0, -1)
  {
    hide Reachable;
    s := State(seq(RING_NUM_EL, i => Slot(i == 0, false, Head(0, 0, 0, false))), 0, 0, Idle, [], [], 0, false, 0,
               0, Looking, 0, 0, [], [], [], []);
    StartReachable(s);
    Then(s, Enqueue(SHARER));
    s := Apply(s, Enqueue(SHARER));
    Then(s, Dequeue);
    s := Apply(s, Dequeue);
  }

  lemma SendHead() returns (s: State)
    ensures Reachable(s) && Sending(s, 1, 0)
  {
    hide DescOf, BlockRequest.Advance, Position, NeedsObuf, Reachable;
    SharerSteps(-1);
    s := SendNothing();
    Then(s, Check);
    s := Apply(s, Check);
    Then(s, Claim);
    s := Apply(s, Claim);
    Then(s, Write);
    s := Apply(s, Write);
    Then(s, Start);
    s := Apply(s, Start);
  }

  lemma StartReachable(s: State)
    requires Init(s)
    ensures Reachable(s)
  {
    assert Run([s], []) && [s][0] == s;
  }

  /** The first of the two: the interrupt comes between the two stores. */
  lemma SendInterrupted(s0: State) returns (s: State)
    requires Reachable(s0) && Sending(s0, 1, 0)
    ensures Reachable(s) && Sending(s, 2, 0x1000) && User(s.written, 2)
  {
    hide DescOf, BlockRequest.Advance, Position, NeedsObuf, Reachable, User;
    SharerSteps(0);
    Then(s0, Check);
    s := Apply(s0, Check);
    Then(s, Claim);
    s := Apply(s, Claim);
    Then(s, StoreCount);
    s := Apply(s, StoreCount);
    Then(s, Ack);
    s := Apply(s, Ack);
    Then(s, StoreNumber);
    s := Apply(s, StoreNumber);
    Then(s, Write);
    s := Apply(s, Write);
    SharerUses(s.written, 0);
    Then(s, Start);
    s := Apply(s, Start);
  }

  lemma SharerUses(written: seq<Desc>, xfer: int)
    requires Sendable(Pending(SHARER, xfer)) && NeedsObuf(Pending(SHARER, xfer))
    requires written != [] && written[|written| - 1] == DescOf(SHARER, xfer)
    ensures User(written, |written|)
  {
  }

  lemma StillUses(written: seq<Desc>, d: Desc, k: nat)
    requires User(written, k)
    ensures User(written + [d], k)
  {
  }

  /** With an interrupt between the two stores, two descriptors that MOL has not
      acknowledged come to use the overflow buffer. */
  lemma OverflowShared() returns (s: State)
    ensures Reachable(s) && User(s.written, 2) && User(s.written, 3) && s.ack < 2
  {
    hide DescOf, BlockRequest.Advance, Position, NeedsObuf, Reachable, User;
    s := SendHead();
    s := SendInterrupted(s);
    SharerSteps(0x1000);
    Then(s, Check);
    s := Apply(s, Check);
    Then(s, Claim);
    s := Apply(s, Claim);
    Then(s, StoreCount);
    s := Apply(s, StoreCount);
    Then(s, StoreNumber);
    s := Apply(s, StoreNumber);
    StillUses(s.written, DescOf(SHARER, 0x1000), 2);
    Then(s, Write);
    s := Apply(s, Write);
    SharerUses(s.written, 0x1000);
  }

  /** The driver compares request numbers through the sign of a 32-bit difference. */
  function Difference32(a: int, b: int): int {
    var d := (a - b) % 0x1_0000_0000; if d >= 0x8000_0000 then d - 0x1_0000_0000 else d
  }

  /** On counters that have wrapped, that is the comparison of the numbers they stand for
      whenever those are less than 2^31 apart, and at no other distance up to 2^32. */
  lemma WrappedComparison(num: nat, ack: nat)
    requires -0x1_0000_0000 < num - ack < 0x1_0000_0000
    ensures (Difference32(num % 0x1_0000_0000, ack % 0x1_0000_0000) > 0 <==> num > ack) <==>
              -0x8000_0000 <= num - ack < 0x8000_0000
  {
  }
}

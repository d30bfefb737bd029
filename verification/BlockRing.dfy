/**
 The ring through which the block driver and MOL's I/O thread talk, as a state machine
 over their accesses to shared memory.

 The driver's side is process_request and hard_irq, the other side is do_work.  A
 descriptor is numbered by the value that req_count has when its slot is claimed; number
 0 is the slot that is busy when the ring is started.
 */
module BlockRing {
  import opened Options
  import opened BlockRequest

  const RING_NUM_EL := 128
  const MAX_IOVEC := 32

  /** A slot: whether its flags are nonzero, its proceed field, the descriptor in it. */
  datatype Slot = Slot(busy: bool, proceed: bool, desc: Desc)

  /** A request in the request queue, and how far it has come. */
  datatype Pending = Pending(req: Req, xfer: int)

  /** A request in the completion queue, and the number of its last descriptor. */
  datatype Completion = Completion(req: Req, num: nat)

  /** Where process_request is: looking at a slot, having found it free, having claimed
      it, having stored the overflow buffer's count, and then its completion number,
      having filled the slot in but not yet let MOL proceed to it. */
  datatype Driver =
    | Idle
    | Working(p: Pending)
    | Checked(p: Pending)
    | Claimed(p: Pending)
    | Reserving(p: Pending)
    | Reserved(p: Pending)
    | Wrote(next: Option<Pending>)

  /** Where do_work is: at the head's proceed field, having seen it set, having cleared
      the head's flags, having cleared its proceed field. */
  datatype Thread = Looking | Seen | Cleared | Advancing

  datatype State = State(
    ring: seq<Slot>,
    // the driver
    ri: nat, reqCount: nat, drv: Driver, queue: seq<Pending>, compl: seq<Completion>, ack: nat,
    obufBusy: bool, obufNum: nat,          // obuf_cnt is not 0; obuf_completion
    // the I/O thread
    head: nat, thread: Thread, batch: nat, nRequests: nat,
    // history: requests issued and completed, descriptors written and taken
    issued: seq<Req>, done: seq<Req>, written: seq<Desc>, taken: seq<Desc>)

  datatype Step =
    | Enqueue(r: Req) | Dequeue | Saturate | Check | Claim | BackOff | StoreCount | StoreNumber | Write | Start
    | Ack | Complete
    | Stall | See | ClearFlags | ClearProceed | Advance

  function SlotOf(k: nat): (i: nat)
    ensures i < RING_NUM_EL
  {
    k % RING_NUM_EL
  }

  function Next(i: nat): nat { (i + 1) % RING_NUM_EL }

  /** The next descriptor of a request goes through the overflow buffer. */
  predicate NeedsObuf(p: Pending)
    requires Position(p.req, p.xfer) && !Finished(p.req, p.xfer)
  {
    var d := DescOf(p.req, p.xfer); d.Sg? && d.seg.Overflow?
  }

  ghost predicate Sendable(p: Pending) { Position(p.req, p.xfer) && !Finished(p.req, p.xfer) }

  ghost predicate Enabled(s: State, step: Step) {
    |s.ring| == RING_NUM_EL && s.ri < RING_NUM_EL && s.head < RING_NUM_EL &&
    match step
    case Enqueue(r) => WellFormed(r)
    case Dequeue => s.drv.Idle? && s.queue != []
    case Saturate => s.drv.Working? && s.ring[Next(s.ri)].busy
    case Check => s.drv.Working? && !s.ring[Next(s.ri)].busy
    case Claim => s.drv.Checked?
    case BackOff => s.drv.Claimed? && Sendable(s.drv.p) && NeedsObuf(s.drv.p) && s.obufBusy && s.reqCount > 0
    case StoreCount => s.drv.Claimed? && Sendable(s.drv.p) && NeedsObuf(s.drv.p) && !s.obufBusy
    case StoreNumber => s.drv.Reserving?
    case Write => (s.drv.Claimed? || s.drv.Reserved?) && Sendable(s.drv.p) && (NeedsObuf(s.drv.p) ==> s.drv.Reserved?)
    case Start => s.drv.Wrote?
    case Ack => true
    case Complete => s.compl != [] && s.compl[0].num <= s.ack
    case Stall => s.thread.Looking? && !s.ring[s.head].proceed
    case See => s.thread.Looking? && s.ring[s.head].proceed
    case ClearFlags => s.thread.Seen?
    case ClearProceed => s.thread.Cleared?
    case Advance => s.thread.Advancing?
  }

  ghost function Apply(s: State, step: Step): State
    requires Enabled(s, step)
  {
    match step
    case Enqueue(r) => s.(queue := s.queue + [Pending(r, -1)], issued := s.issued + [r])
    case Dequeue => s.(drv := Working(s.queue[0]), queue := s.queue[1..])
    case Saturate => s.(drv := Idle, queue := [s.drv.p] + s.queue)
    case Check => s.(drv := Checked(s.drv.p))
    case Claim =>
      var next := Next(s.ri);
      s.(drv := Claimed(s.drv.p), ri := next, reqCount := s.reqCount + 1,
         ring := s.ring[next := s.ring[next].(proceed := false)])
    case BackOff =>
      s.(drv := Idle, queue := [s.drv.p] + s.queue, reqCount := s.reqCount - 1,
         ri := (s.ri + RING_NUM_EL - 1) % RING_NUM_EL)
    case StoreCount => s.(drv := Reserving(s.drv.p), obufBusy := true)
    case StoreNumber => s.(drv := Reserved(s.drv.p), obufNum := s.reqCount)
    case Write => Written(s)
    case Start =>
      var prev := (s.ri + RING_NUM_EL - 1) % RING_NUM_EL;
      s.(drv := if s.drv.next.Some? then Working(s.drv.next.value) else Idle,
         ring := s.ring[prev := s.ring[prev].(proceed := true)])
    case Ack =>
      s.(ack := s.nRequests, obufBusy := s.obufBusy && s.nRequests < s.obufNum)
    case Complete => s.(compl := s.compl[1..], done := s.done + [s.compl[0].req])
    case Stall => s.(batch := 0, nRequests := s.nRequests + s.batch)
    case See =>
      if s.batch > 0 && (s.batch == MAX_IOVEC || !s.ring[Next(s.head)].desc.Sg?)
      then s.(thread := Seen, batch := 0, nRequests := s.nRequests + s.batch)
      else s.(thread := Seen)
    case ClearFlags => s.(thread := Cleared, ring := s.ring[s.head := s.ring[s.head].(busy := false)])
    case ClearProceed => s.(thread := Advancing, ring := s.ring[s.head := s.ring[s.head].(proceed := false)])
    case Advance =>
      var d := s.ring[Next(s.head)].desc;
      var t := s.(thread := Looking, head := Next(s.head), taken := s.taken + [d]);
      if d.Sg? then t.(batch := t.batch + 1) else t.(nRequests := t.nRequests + 1)
  }

  /** The slot is filled in; a request whose last descriptor this is joins the
      completion queue. */
  ghost function Written(s: State): State
    requires |s.ring| == RING_NUM_EL && s.ri < RING_NUM_EL && (s.drv.Claimed? || s.drv.Reserved?) && Sendable(s.drv.p)
  {
    var r, xfer := s.drv.p.req, s.drv.p.xfer;
    var d, next := DescOf(r, xfer), BlockRequest.Advance(r, xfer);
    var t := s.(ring := s.ring[s.ri := Slot(true, s.ring[s.ri].proceed, d)], written := s.written + [d]);
    if Finished(r, next) then t.(drv := Wrote(None), compl := s.compl + [Completion(r, s.reqCount)])
    else t.(drv := Wrote(Some(Pending(r, next))))
  }

  /** A channel just started: element 0 is busy, nothing has been sent. */
  ghost predicate Init(s: State) {
    |s.ring| == RING_NUM_EL && s.ri == 0 && s.reqCount == 0 && s.drv == Idle && s.queue == [] && s.compl == [] &&
    !s.obufBusy && s.obufNum == 0 && s.ack == 0 && s.head == 0 && s.thread == Looking &&
    s.batch == 0 && s.nRequests == 0 &&
    s.issued == [] && s.done == [] && s.written == [] && s.taken == [] &&
    s.ring[0].busy && forall i :: 0 <= i < RING_NUM_EL ==> !s.ring[i].proceed
  }

  // ------------------------------------------------------------------------ the ring

  /** A slot has been claimed and not yet filled in. */
  predicate Claiming(drv: Driver) { drv.Claimed? || drv.Reserving? || drv.Reserved? }

  /** Descriptors that MOL has been let proceed to. */
  function Started(drv: Driver, reqCount: nat): int { if Claiming(drv) || drv.Wrote? then reqCount - 1 else reqCount }

  /** The lowest number whose slot is not released. */
  function Lowest(thread: Thread, taken: nat): nat { if thread.Cleared? || thread.Advancing? then taken + 1 else taken }

  ghost predicate CountsOk(ri: nat, reqCount: nat, drv: Driver, head: nat, thread: Thread, taken: nat, written: nat) {
    ri == SlotOf(reqCount) && head == SlotOf(taken) &&
    written == (if Claiming(drv) then reqCount - 1 else reqCount) &&
    taken <= Started(drv, reqCount) && (!thread.Looking? ==> taken < Started(drv, reqCount)) &&
    reqCount - Lowest(thread, taken) < RING_NUM_EL &&
    (drv.Checked? ==> reqCount + 1 - Lowest(thread, taken) < RING_NUM_EL)
  }

  /** Every descriptor that is not released is in its slot. */
  ghost predicate SlotsHold(ring: seq<Slot>, lo: nat, written: seq<Desc>) {
    |ring| == RING_NUM_EL &&
    forall k: nat :: lo <= k <= |written| ==> ring[SlotOf(k)].busy && (k > 0 ==> ring[SlotOf(k)].desc == written[k - 1])
  }

  /** A slot's proceed field is set exactly when the next descriptor has been started. */
  ghost predicate ProceedOk(ring: seq<Slot>, lo: nat, hi: nat, started: int) {
    |ring| == RING_NUM_EL && forall k: nat :: lo <= k <= hi ==> (ring[SlotOf(k)].proceed <==> k < started)
  }

  ghost predicate RingInv(s: State) {
    CountsOk(s.ri, s.reqCount, s.drv, s.head, s.thread, |s.taken|, |s.written|) &&
    SlotsHold(s.ring, Lowest(s.thread, |s.taken|), s.written) &&
    ProceedOk(s.ring, Lowest(s.thread, |s.taken|), s.reqCount, Started(s.drv, s.reqCount)) &&
    s.taken == s.written[..|s.taken|]
  }

  lemma SlotsDiffer(a: nat, b: nat)
    requires a < b < a + RING_NUM_EL
    ensures SlotOf(a) != SlotOf(b)
  {
  }

  lemma NextSlot(k: nat)
    ensures Next(SlotOf(k)) == SlotOf(k + 1)
  {
  }

  lemma PrevSlot(k: nat)
    requires k > 0
    ensures (SlotOf(k) + RING_NUM_EL - 1) % RING_NUM_EL == SlotOf(k - 1)
  {
  }

  /** Writing the slot of a number leaves the slots of the others in a window alone. */
  lemma WindowKept(ring: seq<Slot>, lo: nat, k: nat, x: Slot)
    requires |ring| == RING_NUM_EL
    ensures forall j: nat :: j != k && lo <= j < lo + RING_NUM_EL && lo <= k < lo + RING_NUM_EL ==>
              ring[SlotOf(k) := x][SlotOf(j)] == ring[SlotOf(j)]
  {
    hide SlotOf;
    forall j: nat | j != k && lo <= j < lo + RING_NUM_EL && lo <= k < lo + RING_NUM_EL
      ensures SlotOf(j) != SlotOf(k)
    {
      SlotsDiffer(if j < k then j else k, if j < k then k else j);
    }
  }

  /** While the descriptor a ring's length before the next one is not released, the slot
      they share is busy. */
  lemma SharedSlotBusy(ring: seq<Slot>, lo: nat, written: seq<Desc>)
    requires SlotsHold(ring, lo, written)
    ensures |written| + 1 - lo >= RING_NUM_EL ==> ring[SlotOf(|written| + 1)].busy
  {
    if |written| + 1 - lo >= RING_NUM_EL {
      var k := |written| + 1 - RING_NUM_EL;
      assert SlotOf(k) == SlotOf(|written| + 1);
    }
  }

  lemma CheckKeeps(s: State)
    requires RingInv(s) && Enabled(s, Check)
    ensures RingInv(Apply(s, Check))
  {
    hide SlotsHold, ProceedOk, SlotOf;
    NextSlot(s.reqCount);
    SharedSlotBusy(s.ring, Lowest(s.thread, |s.taken|), s.written);
  }

  lemma SeeKeeps(s: State)
    requires RingInv(s) && Enabled(s, See)
    ensures RingInv(Apply(s, See))
  {
    hide SlotsHold, SlotOf;
    assert s.ring[SlotOf(|s.taken|)].proceed;
  }

  lemma ClaimKeeps(s: State)
    requires RingInv(s) && Enabled(s, Claim)
    ensures RingInv(Apply(s, Claim))
  {
    hide SlotOf, SlotsHold, ProceedOk;
    NextSlot(s.reqCount);
    var k, lo := s.reqCount + 1, Lowest(s.thread, |s.taken|);
    SlotsHoldProceed(s.ring, lo, s.written, k, false);
    ProceedAhead(s.ring, lo, s.reqCount, s.ring[SlotOf(k) := s.ring[SlotOf(k)].(proceed := false)]);
  }

  /** The proceed field of the number after the last. */
  lemma ProceedAhead(ring: seq<Slot>, lo: nat, hi: nat, ring': seq<Slot>)
    requires ProceedOk(ring, lo, hi, hi) && hi + 1 < lo + RING_NUM_EL
    requires ring' == ring[SlotOf(hi + 1) := ring[SlotOf(hi + 1)].(proceed := false)]
    ensures ProceedOk(ring', lo, hi + 1, hi)
  {
    hide SlotOf;
    WindowKept(ring, lo, hi + 1, ring[SlotOf(hi + 1)].(proceed := false));
  }

  lemma BackOffKeeps(s: State)
    requires RingInv(s) && Enabled(s, BackOff)
    ensures RingInv(Apply(s, BackOff))
  {
    hide SlotOf, DescOf, Position;
    PrevSlot(s.reqCount);
  }

  lemma WrittenParts(s: State)
    requires |s.ring| == RING_NUM_EL && s.ri < RING_NUM_EL && (s.drv.Claimed? || s.drv.Reserved?) && Sendable(s.drv.p)
    ensures var t, d := Written(s), DescOf(s.drv.p.req, s.drv.p.xfer);
            && t.ring == s.ring[s.ri := Slot(true, s.ring[s.ri].proceed, d)]
            && t.written == s.written + [d] && t.drv.Wrote? && t.ri == s.ri && t.reqCount == s.reqCount
            && t.head == s.head && t.thread == s.thread && t.taken == s.taken
  {
    hide DescOf, Position;
  }

  lemma WriteKeeps(s: State)
    requires RingInv(s) && Enabled(s, Write)
    ensures RingInv(Apply(s, Write))
  {
    hide SlotOf, DescOf, Position, Finished, BlockRequest.Advance, NeedsObuf, Written;
    var k := s.reqCount;
    WrittenParts(s);
    WindowKept(s.ring, Lowest(s.thread, |s.taken|), k,
               Slot(true, s.ring[SlotOf(k)].proceed, DescOf(s.drv.p.req, s.drv.p.xfer)));
  }

  lemma StartKeeps(s: State)
    requires RingInv(s) && Enabled(s, Start)
    ensures RingInv(Apply(s, Start))
  {
    hide SlotOf, SlotsHold, ProceedOk;
    PrevSlot(s.reqCount);
    var k, lo := s.reqCount - 1, Lowest(s.thread, |s.taken|);
    SlotsHoldProceed(s.ring, lo, s.written, k, true);
    ProceedSet(s.ring, lo, s.reqCount, s.ring[SlotOf(k) := s.ring[SlotOf(k)].(proceed := true)]);
  }

  /** The proceed field of the number before the last, which is started by it. */
  lemma ProceedSet(ring: seq<Slot>, lo: nat, hi: nat, ring': seq<Slot>)
    requires lo < hi && ProceedOk(ring, lo, hi, hi - 1) && hi < lo + RING_NUM_EL
    requires ring' == ring[SlotOf(hi - 1) := ring[SlotOf(hi - 1)].(proceed := true)]
    ensures ProceedOk(ring', lo, hi, hi)
  {
    hide SlotOf;
    WindowKept(ring, lo, hi - 1, ring[SlotOf(hi - 1)].(proceed := true));
  }

  lemma ClearFlagsKeeps(s: State)
    requires RingInv(s) && Enabled(s, ClearFlags)
    ensures RingInv(Apply(s, ClearFlags))
  {
    hide SlotOf;
    WindowKept(s.ring, |s.taken|, |s.taken|, s.ring[s.head].(busy := false));
  }

  lemma ClearProceedKeeps(s: State)
    requires RingInv(s) && Enabled(s, ClearProceed)
    ensures RingInv(Apply(s, ClearProceed))
  {
    hide SlotOf, SlotsHold, ProceedOk;
    var h := |s.taken|;
    var ring := s.ring[SlotOf(h) := s.ring[SlotOf(h)].(proceed := false)];
    SlotsHoldProceed(s.ring, h + 1, s.written, h, false);
    ProceedCleared(s.ring, h, s.reqCount, Started(s.drv, s.reqCount), ring);
  }

  /** Descriptors stay in their slots when a proceed field changes. */
  lemma SlotsHoldProceed(ring: seq<Slot>, lo: nat, written: seq<Desc>, k: nat, proceed: bool)
    requires SlotsHold(ring, lo, written)
    ensures SlotsHold(ring[SlotOf(k) := ring[SlotOf(k)].(proceed := proceed)], lo, written)
  {
    hide SlotOf;
  }

  /** The proceed field of a number before the window, or of the number a ring's length
      on, which is not started. */
  lemma ProceedCleared(ring: seq<Slot>, h: nat, hi: nat, started: int, ring': seq<Slot>)
    requires ProceedOk(ring, h + 1, hi, started) && ring' == ring[SlotOf(h) := ring[SlotOf(h)].(proceed := false)]
    requires hi <= h + RING_NUM_EL && started <= hi
    ensures ProceedOk(ring', h + 1, hi, started)
  {
    hide SlotOf;
    forall k: nat | h + 1 <= k <= hi
      ensures ring'[SlotOf(k)].proceed <==> k < started
    {
      if k < h + RING_NUM_EL {
        SlotsDiffer(h, k);
      } else {
        Wraps(h);
      }
    }
  }

  lemma Wraps(k: nat)
    ensures SlotOf(k + RING_NUM_EL) == SlotOf(k)
  {
  }

  lemma AdvanceKeeps(s: State)
    requires RingInv(s) && Enabled(s, Advance)
    ensures RingInv(Apply(s, Advance))
    ensures Apply(s, Advance).taken == s.taken + [s.written[|s.taken|]]
  {
    hide SlotOf;
    var h := |s.taken|;
    NextSlot(h);
    assert s.ring[SlotOf(h + 1)].desc == s.written[h];
    assert s.taken + [s.written[h]] == s.written[..h + 1];
  }

  /** Every step of either side keeps the ring in order. */
  lemma RingKept(s: State, step: Step)
    requires RingInv(s) && Enabled(s, step)
    ensures RingInv(Apply(s, step))
  {
    hide SlotsHold, ProceedOk, SlotOf, DescOf, Position, BlockRequest.Advance;
    match step
    case Check => CheckKeeps(s);
    case See => SeeKeeps(s);
    case Claim => ClaimKeeps(s);
    case BackOff => BackOffKeeps(s);
    case Write => WriteKeeps(s);
    case Start => StartKeeps(s);
    case ClearFlags => ClearFlagsKeeps(s);
    case ClearProceed => ClearProceedKeeps(s);
    case Advance => AdvanceKeeps(s);
    case _ =>
  }
}

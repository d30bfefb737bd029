/**
 A request of the block driver, and the descriptors it is sent as: a head, then
 scatter and gather buffers that cover the transfer.
 */
module BlockRequest {

  const PAGE := 0x1000
  const OBUF_SIZE := 0x1000

  /** What to do, on which unit, the first block, the number of bytes; how many of them
      are prepared for I/O, and the physical address of each page of those. */
  datatype Req = Req(op: nat, unit: int, param: nat, total: nat, prepared: nat, phystab: seq<nat>)

  /** A buffer: its physical address, unless it is the overflow buffer, and its length. */
  datatype Segment = Physical(base: nat, count: nat) | Overflow(count: nat)

  datatype Desc = Head(op: nat, unit: int, param: nat, irq: bool) | Sg(seg: Segment, irq: bool)

  /** Bytes of the first page of the buffer. */
  function FirstCount(r: Req): (n: nat)
    ensures r.phystab != [] ==> 1 <= n <= PAGE
  {
    if r.phystab == [] then 0 else PAGE - r.phystab[0] % PAGE
  }

  /** The table covers what is prepared. */
  ghost predicate WellFormed(r: Req) {
    r.op != 0 && (r.prepared > 0 ==> r.phystab != [] && r.prepared <= Mapped(r))
  }

  /** Where a segment can start: at the start, at a page of the buffer, or beyond what is
      prepared. */
  ghost predicate AtPage(r: Req, offs: nat) {
    offs == 0 || r.prepared <= offs || (offs >= FirstCount(r) && (offs - FirstCount(r)) % PAGE == 0)
  }

  /** Bytes of the buffer that the table has a page for. */
  function Mapped(r: Req): int { FirstCount(r) + (|r.phystab| - 1) * PAGE }

  /** The physical address of a byte of the buffer. */
  ghost function Address(r: Req, b: nat): nat
    requires r.phystab != [] && b < Mapped(r)
  {
    if b < FirstCount(r) then r.phystab[0] + b
    else r.phystab[1 + (b - FirstCount(r)) / PAGE] + (b - FirstCount(r)) % PAGE
  }

  function Min(a: nat, b: nat): nat { if a < b then a else b }

  /** The segment at an offset, 0 standing for no address: the page there, and the next
      one too when it follows it in memory. */
  function SegmentAt(r: Req, offs: nat): Segment
    requires WellFormed(r) && AtPage(r, offs) && offs < r.total
  {
    if r.prepared <= offs then Overflow(Min(r.total - offs, OBUF_SIZE))
    else
      var i := if offs == 0 then 1 else 2 + (offs - FirstCount(r)) / PAGE;
      var base := r.phystab[i - 1];
      var one := if offs == 0 then FirstCount(r) else PAGE;
      var cnt := if offs + one < r.prepared && r.phystab[i] == base + one then one + PAGE else one;
      if base == 0 then Overflow(Min(r.total - offs, OBUF_SIZE)) else Physical(base, Min(r.total - offs, cnt))
  }

  /** get_physical_segment: the loop does not advance along the table, so it takes in one
      page more at most. */
  method GetPhysicalSegment(r: Req, offs: nat) returns (base: nat, cnt: nat)
    requires WellFormed(r) && AtPage(r, offs) && offs < r.total
    ensures r.prepared <= offs ==> base == 0
    ensures base != 0 ==> SegmentAt(r, offs) == Physical(base, cnt)
    ensures base == 0 ==> SegmentAt(r, offs) == Overflow(Min(r.total - offs, OBUF_SIZE))
  {
    if r.prepared <= offs {
      return 0, 0;
    }
    var first := PAGE - r.phystab[0] % PAGE;
    var i: nat;
    if offs == 0 {
      base, cnt, i := r.phystab[0], first, 1;
    } else {
      i := 1 + (offs - first) / PAGE;
      base, cnt, i := r.phystab[i], PAGE, i + 1;
    }
    ghost var one := cnt;
    while offs + cnt < r.prepared && r.phystab[i] == base + cnt
      invariant cnt == one || (cnt == one + PAGE && offs + one < r.prepared && r.phystab[i] == base + one)
      decreases one + PAGE - cnt
    {
      cnt := cnt + PAGE;
    }
    if offs + cnt > r.total {
      cnt := r.total - offs;
    }
  }

  /** A segment is not empty, stays in the transfer, and ends where the next can start. */
  lemma SegmentFits(r: Req, offs: nat)
    requires WellFormed(r) && AtPage(r, offs) && offs < r.total
    ensures var n := SegmentAt(r, offs).count; 0 < n <= r.total - offs && (offs + n == r.total || AtPage(r, offs + n))
  {
  }

  /** Every byte of a physical segment is where the buffer has it. */
  lemma SegmentAddress(r: Req, offs: nat, b: nat)
    requires WellFormed(r) && AtPage(r, offs) && offs < r.total && SegmentAt(r, offs).Physical?
    requires b < SegmentAt(r, offs).count
    ensures r.phystab != [] && offs + b < Mapped(r) && SegmentAt(r, offs).base + b == Address(r, offs + b)
  {
  }

  /** A segment is physical exactly where the buffer is prepared and has an address; it then
      goes to the end of its page at least, or of the transfer. */
  lemma SegmentKind(r: Req, offs: nat)
    requires WellFormed(r) && AtPage(r, offs) && offs < r.total
    ensures SegmentAt(r, offs).Physical? <==> offs < r.prepared && Address(r, offs) != 0
    ensures SegmentAt(r, offs).Overflow? ==> SegmentAt(r, offs).count == Min(r.total - offs, OBUF_SIZE)
    ensures SegmentAt(r, offs).Physical? ==>
              var left := if offs == 0 then FirstCount(r) else PAGE;
              Min(r.total - offs, left) <= SegmentAt(r, offs).count <= left + PAGE
  {
  }

  // --------------------------------------------------------------- the descriptors sent

  /** How far a transfer can have come: -1 before the head is sent. */
  ghost predicate Position(r: Req, xfer: int) {
    WellFormed(r) && (xfer == -1 || xfer == r.total || (0 <= xfer < r.total && AtPage(r, xfer)))
  }

  predicate Finished(r: Req, xfer: int) { xfer == r.total }

  /** The next descriptor of a transfer; the last one asks for an interrupt. */
  function DescOf(r: Req, xfer: int): Desc
    requires Position(r, xfer) && !Finished(r, xfer)
  {
    if xfer < 0 then Head(r.op, r.unit, r.param, r.total == 0)
    else Sg(SegmentAt(r, xfer), xfer + SegmentAt(r, xfer).count == r.total)
  }

  function Advance(r: Req, xfer: int): (next: int)
    requires Position(r, xfer) && !Finished(r, xfer)
    ensures Position(r, next) && xfer < next
    ensures Finished(r, next) <==> DescOf(r, xfer).irq
  {
    if xfer >= 0 then SegmentFits(r, xfer); xfer + SegmentAt(r, xfer).count else 0
  }

  /** The descriptors still to be sent. */
  function Descs(r: Req, xfer: int): seq<Desc>
    requires Position(r, xfer)
    decreases r.total - xfer
  {
    if Finished(r, xfer) then [] else [DescOf(r, xfer)] + Descs(r, Advance(r, xfer))
  }

  /** The bytes that some buffers hold. */
  function Bytes(ds: seq<Desc>): nat {
    if ds == [] then 0 else Bytes(ds[..|ds| - 1]) + if ds[|ds| - 1].Sg? then ds[|ds| - 1].seg.count else 0
  }

  lemma {:induction false} BytesCons(d: Desc, ds: seq<Desc>)
    ensures Bytes([d] + ds) == Bytes([d]) + Bytes(ds)
  {
    if ds == [] {
      assert [d] + ds == [d];
    } else {
      var init := ds[..|ds| - 1];
      assert ([d] + ds)[..|ds|] == [d] + init;
      BytesCons(d, init);
    }
  }

  lemma StepOf(r: Req, xfer: int)
    requires Position(r, xfer) && xfer >= 0 && !Finished(r, xfer)
    ensures var n := SegmentAt(r, xfer).count; Advance(r, xfer) == xfer + n && Bytes([DescOf(r, xfer)]) == n
    ensures DescOf(r, xfer) == Sg(SegmentAt(r, xfer), Finished(r, Advance(r, xfer)))
    ensures Descs(r, xfer) == [DescOf(r, xfer)] + Descs(r, Advance(r, xfer))
    ensures Finished(r, Advance(r, xfer)) <==> Descs(r, Advance(r, xfer)) == []
  {
    hide SegmentAt, WellFormed, AtPage;
    assert [DescOf(r, xfer)][..0] == [];
  }

  lemma {:induction false} DescsTotal(r: Req, xfer: int)
    requires Position(r, xfer) && xfer >= 0
    ensures xfer + Bytes(Descs(r, xfer)) == r.total
    decreases r.total - xfer
  {
    hide SegmentAt, WellFormed, AtPage, DescOf;
    if !Finished(r, xfer) {
      StepOf(r, xfer);
      BytesCons(DescOf(r, xfer), Descs(r, Advance(r, xfer)));
      DescsTotal(r, Advance(r, xfer));
    }
  }

  /** The buffers of a transfer cover what is left of it exactly: each starts where the
      ones before it end, they end at its total, and only the last asks for an interrupt. */
  lemma {:induction false} DescsTile(r: Req, xfer: int, k: nat)
    requires Position(r, xfer) && xfer >= 0 && k < |Descs(r, xfer)|
    ensures var ds := Descs(r, xfer); xfer + Bytes(ds) == r.total
    ensures var ds := Descs(r, xfer); var offs := xfer + Bytes(ds[..k]);
            0 <= offs < r.total && AtPage(r, offs) && ds[k] == Sg(SegmentAt(r, offs), k == |ds| - 1)
    decreases r.total - xfer
  {
    hide SegmentAt, WellFormed, AtPage, DescOf, Bytes, Advance;
    var d, next := DescOf(r, xfer), Advance(r, xfer);
    var ds, rest := Descs(r, xfer), Descs(r, next);
    StepOf(r, xfer);
    DescsTotal(r, xfer);
    if k > 0 {
      DescsTile(r, next, k - 1);
      BytesCons(d, rest[..k - 1]);
      assert ds[..k] == [d] + rest[..k - 1];
    } else {
      NoBytes(ds);
    }
  }

  /** A request is sent as a head, with its operation, unit and first block, and then as
      buffers that hold its bytes; the last descriptor, and no other, asks for an
      interrupt. */
  lemma HeadThenBuffers(r: Req)
    requires WellFormed(r)
    ensures var ds := Descs(r, -1);
            && ds != [] && ds[0].Head? && ds[0].op == r.op && ds[0].unit == r.unit && ds[0].param == r.param
            && (ds[0].irq <==> r.total == 0)
            && (forall k :: 0 < k < |ds| ==> ds[k].Sg? && (ds[k].irq <==> k == |ds| - 1))
            && Bytes(ds) == r.total
  {
    hide SegmentAt, WellFormed, AtPage, Bytes;
    var ds, rest := Descs(r, -1), Descs(r, 0);
    var d := ds[0];
    assert ds == [d] + rest;
    HeadHoldsNone(d);
    BytesCons(d, rest);
    DescsTotal(r, 0);
    forall k | 0 < k < |ds|
      ensures ds[k].Sg? && (ds[k].irq <==> k == |ds| - 1)
    {
      DescsTile(r, 0, k - 1);
    }
  }

  lemma HeadHoldsNone(d: Desc)
    requires d.Head?
    ensures Bytes([d]) == 0
  {
    assert [d][..0] == [];
  }

  lemma NoBytes(ds: seq<Desc>)
    ensures Bytes(ds[..0]) == 0
  {
  }
}

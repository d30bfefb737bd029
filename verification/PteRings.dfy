/**
 The reverse map as the kernel module keeps it: rings of records edited in place.

 Every method promises the effect on the plain map of module ReverseMap and keeps
 the shape described by module PteMem.
 */
module PteRings {
  import opened Options
  import opened PteRingShapes
  import opened ReverseMap
  import opened PteMem
  import opened PteTables

  /** The ranges have names of their own, and their pages are exactly the lv heads. */
  ghost predicate RangesOk(ranges: seq<LvRange>, heads: set<Node>) {
    && NamesApart(ranges)
    && (forall i :: 0 <= i < |ranges| ==> ranges[i].size % 0x1000 == 0)
    && (forall i, x :: 0 <= i < |ranges| && 0 <= x < ranges[i].size / 0x1000 ==> Head(ranges[i].rng, x) in heads)
    && (forall h :: h in heads ==>
          h.Head? && exists i :: 0 <= i < |ranges| && ranges[i].rng == h.rng && h.idx < ranges[i].size / 0x1000)
  }

  // -------------------------------------------------------------- reading the rings

  lemma EaAt(next: Links, pent: Pents, h: Node, r: seq<Node>, j: nat)
    requires EaRing(next, pent, h, r) && j < |r|
    ensures r[j] in next && r[j] in pent && (pent[r[j]].eaLast <==> j == |r| - 1)
    ensures next[r[j]] == if j + 1 < |r| then r[j + 1] else h
  {
    assert j + 1 < |r| ==> next[r[j]] == r[j + 1];
  }

  lemma EaBeforeAt(next: Links, pent: Pents, h: Node, r: seq<Node>, i: nat)
    requires EaRing(next, pent, h, r) && i < |r|
    ensures Before(h, r, i) in next && next[Before(h, r, i)] == r[i]
  {
    if i > 0 {
      EaAt(next, pent, h, r, i - 1);
    }
  }

  lemma LvAt(next: Links, h: Node, r: seq<Node>, j: nat)
    requires LvRing(next, h, r) && j < |r|
    ensures r[j] in next && next[r[j]] == if j + 1 < |r| then r[j + 1] else h
    ensures Before(h, r, j) in next && next[Before(h, r, j)] == r[j]
  {
    assert j + 1 < |r| ==> next[r[j]] == r[j + 1];
    assert j > 0 ==> next[r[j - 1]] == r[j];
  }

  /** Dropping one record, zeroing its slot and invalidating its address is a flush. */
  lemma FlushOne(v: View, key: Key, v': View)
    requires key in v.tab
    requires v' == View(v.tab - {key}, v.hash - {v.tab[key].slot}, Tlbie(v.tlb, TlbBits(key.page)))
    ensures v' == FlushKeys(v, {key})
  {
    assert SlotsOf(v.tab, {key}) == {v.tab[key].slot};
    forall t | t in v.tlb
      ensures HitBits(v.tab, {key}, TlbBits(t.page)) <==> TlbBits(t.page) == TlbBits(key.page)
    {
      assert key in {key};
    }
  }

  /** Links the nodes of a chunk to one another, and the last to what comes after. */
  method Chain(next: Links, r: seq<Node>, end: Node) returns (next': Links)
    requires r != [] && NoDup(r) && forall i :: 0 <= i < |r| ==> r[i] in next
    ensures next'.Keys == next.Keys && Path(next', r, end)
    ensures forall x :: x in next && x !in r ==> next'[x] == next[x]
  {
    next' := next;
    var i := 0;
    while i < |r| - 1
      invariant 0 <= i <= |r| - 1 && next'.Keys == next.Keys
      invariant forall x :: x in next && x !in r ==> next'[x] == next[x]
      invariant forall a, b :: 0 <= a < b <= i && b == a + 1 ==> next'[r[a]] == r[b]
    {
      next' := next'[r[i] := r[i + 1]];
      i := i + 1;
    }
    next' := next'[r[i] := end];
  }

  function RecsOf(ids: seq<nat>): (rs: seq<Node>)
    ensures |rs| == |ids| && forall i :: 0 <= i < |ids| ==> rs[i] == Rec(ids[i])
  {
    seq(|ids|, i requires 0 <= i < |ids| => Rec(ids[i]))
  }

  function FirstSlots(ts: seq<nat>): (rs: seq<Node>)
    ensures |rs| == |ts| && forall i :: 0 <= i < |ts| ==> rs[i] == Slot(ts[i], 0)
  {
    seq(|ts|, i requires 0 <= i < |ts| => Slot(ts[i], 0))
  }

  /** lev2_alloc: zeroed tables, chained through their first slots. */
  method ChainTables(next: Links, ts: seq<nat>, start: Node) returns (next': Links)
    requires ts != [] && Distinct(ts) && forall h :: h in next && h.Slot? ==> h.tab !in ts
    ensures forall x :: x in next ==> x in next' && next'[x] == next[x]
    ensures forall t, j :: t in ts && 0 < j < 32 ==> Slot(t, j) in next' && next'[Slot(t, j)] == Null
    ensures Path(next', FirstSlots(ts), start)
    ensures forall h :: h in next' && h.Rec? ==> h in next
  {
    hide TableSlots, Path;
    TableSlotsMembers(ts);
    var firsts := FirstSlots(ts);
    assert forall x :: x in firsts ==> x.Slot? && x.ind == 0 && x.tab in ts;
    next' := Chain(next + (map h | h in TableSlots(ts) :: Null), firsts, start);
  }

  function TableSlots(ts: seq<nat>): set<Node> {
    set i, j | 0 <= i < |ts| && 0 <= j < 32 :: Slot(ts[i], j)
  }

  lemma TableSlotsMembers(ts: seq<nat>)
    ensures forall h :: h in TableSlots(ts) <==> h.Slot? && h.tab in ts && h.ind < 32
  {
    forall h: Node | h.Slot? && h.tab in ts && h.ind < 32
      ensures h in TableSlots(ts)
    {
      var i :| 0 <= i < |ts| && ts[i] == h.tab;
      assert Slot(ts[i], h.ind) in TableSlots(ts);
    }
  }

  /** pent_alloc: zeroed records, chained through their lv links. */
  method ChainRecords(next: Links, lvNext: Links, pent: Pents, ids: seq<nat>, start: Node)
    returns (next': Links, lvNext': Links, pent': Pents)
    requires ids != [] && Distinct(ids) && forall x :: x in RecsOf(ids) ==> x !in lvNext && x !in next
    ensures next'.Keys == next.Keys + Members(RecsOf(ids)) && forall x :: x in next ==> next'[x] == next[x]
    ensures lvNext'.Keys == lvNext.Keys + Members(RecsOf(ids)) && forall x :: x in lvNext ==> lvNext'[x] == lvNext[x]
    ensures Path(lvNext', RecsOf(ids), start) && pent' == Extend(pent, Members(RecsOf(ids)), ZEROED)
  {
    hide Path, Extend, RecsOf, Distinct, NoDup, Members;
    var rs := RecsOf(ids);
    RecsDiffer(ids);
    next' := NullLinks(next, rs);
    pent' := ZeroedPents(pent, rs);
    var longer := NullLinks(lvNext, rs);
    lvNext' := Chain(longer, rs, start);
  }

  lemma RecsDiffer(ids: seq<nat>)
    requires Distinct(ids)
    ensures NoDup(RecsOf(ids))
  {
  }

  method NullLinks(next: Links, rs: seq<Node>) returns (next': Links)
    requires forall x :: x in rs ==> x !in next
    ensures next'.Keys == next.Keys + Members(rs) && (forall x :: x in next ==> next'[x] == next[x]) &&
            forall x :: x in rs ==> x in next'
  {
    var news := set x | x in rs;
    next' := next + map x | x in news :: Null;
  }

  method ZeroedPents(pent: Pents, rs: seq<Node>) returns (pent': Pents)
    ensures pent' == Extend(pent, Members(rs), ZEROED)
  {
    var news := set x | x in rs;
    pent' := pent + map x | x in news :: ZEROED;
  }

  class PteTable {
    var mem: Mem
    var lvranges: seq<LvRange>
    var hash: map<nat, Trans>
    var tlb: set<Trans>
    var reservation: Option<nat>
    var lost: bool
    var ents: map<nat, Ids>

    ghost function V(): View
      reads this
    {
      View(Tab(mem), hash, tlb)
    }

    ghost predicate Ok()
      reads this
    {
      Valid(mem, {}) && RangesOk(lvranges, mem.lvRing.Keys) && ents.Keys == mem.lev2.Keys
    }

    /** Walks the ea ring of a record once round: on to the record marked last, whose
        link is the slot, and from there to the node that links to the record. */
    method EaNeighbours(pr: Node) returns (head: Node, prev: Node, ghost k: nat)
      requires EaSide(mem) && pr in mem.own && mem.own[pr] != Null
      ensures head == mem.own[pr] && head in mem.eaRing && k < |mem.eaRing[head]| && mem.eaRing[head][k] == pr
      ensures prev == Before(head, mem.eaRing[head], k)
      ensures head in mem.eaNext && prev in mem.eaNext && pr in mem.eaNext && pr in mem.pent && head.Slot?
      ensures prev != head ==> prev in mem.pent
    {
      hide EaRings, EaRing, NoDup, Keyed, Lev2Tables, FreeTables;
      ghost var h := mem.own[pr];
      EaRingsMembers(mem.eaNext, mem.pent, mem.eaRing, mem.own);
      EaRingShape(mem.eaNext, mem.pent, mem.eaRing, mem.own, h);
      ghost var r := mem.eaRing[h];
      k :| 0 <= k < |r| && r[k] == pr;

      prev := pr;
      ghost var j := k;
      EaAt(mem.eaNext, mem.pent, h, r, j);
      while !mem.pent[prev].eaLast
        invariant k <= j < |r| && prev == r[j] && prev in mem.pent
        invariant mem.pent[prev].eaLast <==> j == |r| - 1
        invariant prev in mem.eaNext && mem.eaNext[prev] == if j + 1 < |r| then r[j + 1] else h
        decreases |r| - j
      {
        prev := mem.eaNext[prev];
        j := j + 1;
        EaAt(mem.eaNext, mem.pent, h, r, j);
      }
      head := mem.eaNext[prev];

      ghost var i := -1;
      EaBeforeAt(mem.eaNext, mem.pent, h, r, 0);
      while mem.eaNext[prev] != pr
        invariant -1 <= i <= k && prev == if i < 0 then r[|r| - 1] else Before(h, r, i)
        invariant prev in mem.eaNext && mem.eaNext[prev] == if i < 0 then h else r[i]
        decreases k - i
      {
        prev := mem.eaNext[prev];
        i := i + 1;
        EaBeforeAt(mem.eaNext, mem.pent, h, r, i);
      }
      DistinctAt(r, i, k);
      assert i > 0 ==> r[i - 1] in r;
    }

    /** Walks the ea ring on from a record to the node that links to it. */
    method EaPrev(pr: Node) returns (p: Node, ghost h: Node, ghost k: nat)
      requires EaSide(mem) && pr in mem.own && mem.own[pr] != Null
      ensures h == mem.own[pr] && h in mem.eaRing && k < |mem.eaRing[h]| && mem.eaRing[h][k] == pr
      ensures p == Before(h, mem.eaRing[h], k) && p in mem.eaNext && pr in mem.eaNext
    {
      hide EaRings, EaRing, NoDup, Keyed, Lev2Tables, FreeTables;
      h := mem.own[pr];
      EaRingsMembers(mem.eaNext, mem.pent, mem.eaRing, mem.own);
      EaRingShape(mem.eaNext, mem.pent, mem.eaRing, mem.own, h);
      ghost var r := mem.eaRing[h];
      k :| 0 <= k < |r| && r[k] == pr;
      EaAt(mem.eaNext, mem.pent, h, r, k);
      p := mem.eaNext[pr];
      // negative until the walk has come round to the slot
      ghost var i := k + 1 - |r|;
      EaWalk(mem.eaNext, mem.pent, h, r, i);
      while mem.eaNext[p] != pr
        invariant k + 1 - |r| <= i <= k && p == LvNode(h, r, i)
        invariant p in mem.eaNext && mem.eaNext[p] == if i < 0 then LvNode(h, r, i + 1) else r[i]
        decreases k - i
      {
        p := mem.eaNext[p];
        i := i + 1;
        EaWalk(mem.eaNext, mem.pent, h, r, i);
      }
      LvWalkEnd(h, r, i, k);
    }

    /** Walks the lv ring on from a record to its head. */
    method LvHeadOf(pr: Node) returns (p: Node)
      requires Valid(mem, {}) && pr in mem.lvOwn && mem.lvOwn[pr] != Null
      ensures p == mem.lvOwn[pr] && p in mem.lvRing && p in mem.lvNext && p.Head?
    {
      hide Valid;
      ghost var h := mem.lvOwn[pr];
      ghost var k := OnLvRing(mem, pr);
      ghost var r := mem.lvRing[h];
      LvNext(mem, h, k);
      p := mem.lvNext[pr];
      ghost var j := k + 1;
      while !mem.pent[p].lvHead
        invariant k < j <= |r| && p == (if j < |r| then r[j] else h)
        invariant p in mem.pent && (mem.pent[p].lvHead <==> j == |r|)
        decreases |r| - j
      {
        LvNext(mem, h, j);
        p := mem.lvNext[p];
        j := j + 1;
      }
    }

    /** Walks an lv ring from its head to the node that links to a record. */
    method LvPrevFrom(head: Node, pr: Node) returns (p: Node, ghost k: nat)
      requires Valid(mem, {}) && pr in mem.lvOwn && mem.lvOwn[pr] == head && head != Null
      ensures head in mem.lvRing && k < |mem.lvRing[head]| && mem.lvRing[head][k] == pr
      ensures p == Before(head, mem.lvRing[head], k) && p in mem.lvNext && pr in mem.lvNext
    {
      hide Valid, LvRings, LvRing, NoDup, EaRings, EaSide, LvSide;
      ValidParts(mem, {});
      LvRingsMembers(mem.lvNext, mem.lvRing, mem.lvOwn);
      ghost var r := mem.lvRing[head];
      k :| 0 <= k < |r| && r[k] == pr;
      LvStep(mem, {}, head, k);
      p := head;
      ghost var i := 0;
      LvStep(mem, {}, head, 0);
      while mem.lvNext[p] != pr
        invariant 0 <= i <= k && p == Before(head, r, i) && p in mem.lvNext && mem.lvNext[p] == r[i]
        decreases k - i
      {
        p := mem.lvNext[p];
        i := i + 1;
        LvStep(mem, {}, head, i);
      }
      LvStep(mem, {}, head, k);
    }

    /** A record for a new PTE: the idle head of the page, or one off the free list,
        which joins the page's lv ring right after the head. */
    method GetFreePent(lv: Option<LvId>) returns (pr: Node)
      requires Valid(mem, {}) && mem.freePents != Null
      requires lv.Some? ==> HeadOf(lv.value) in mem.lvRing
      modifies this`mem
      ensures Valid(mem, {pr}) && Tab(mem) == Tab(old(mem)) && Fresh(mem, pr, lv) && Took(old(mem), pr, mem)
    {
      hide Valid, Tab, HasKey, KeyOf;
      ghost var m0 := mem;
      if lv.Some? {
        var pr2 := HeadOf(lv.value);
        HeadState(mem, {}, lv.value);
        if mem.pent[pr2].unused {
          pr := pr2;
          mem := mem.(pent := mem.pent[pr := ZEROED.(lvHead := true)]);
          HeadTaken(m0, {}, pr, ZEROED.(lvHead := true), mem);
          assert {} + {pr} == {pr};
        } else {
          pr := PopFree();
          ghost var m1 := mem;
          LvStep(mem, {pr}, pr2, 0);
          mem := mem.(lvNext := mem.lvNext[pr := mem.lvNext[pr2]][pr2 := pr],
                      lvRing := mem.lvRing[pr2 := [pr] + mem.lvRing[pr2]], lvOwn := mem.lvOwn[pr := pr2]);
          LvAdded(m1, {pr}, pr2, pr, mem);
        }
      } else {
        pr := PopFree();
        ghost var m1 := mem;
        mem := mem.(lvNext := mem.lvNext[pr := Null]);
        LvCleared(m1, {pr}, pr, mem);
      }
    }

    /** pte_inserted: records a PTE that has just been stored in a slot, unless the
        reservation of its page was lost meanwhile, in which case the PTE goes. */
    method PteInserted(e: nat, page: nat, lvr: Option<LvRange>, lvptr: nat, slot: nat, vsid: int)
      requires Ok() && e in mem.lev2 && page < 0x10000
      requires lvr.Some? ==> lvr.value in lvranges && InRange(lvr.value, lvptr)
      requires mem.freePents != Null && mem.freeTables != Null
      modifies this`mem, this`hash, this`tlb
      ensures Ok()
      ensures lvr.Some? && lost ==>
                V() == View(old(V()).tab, old(hash) - {slot}, Tlbie(old(tlb), TlbBits(page)))
      ensures !(lvr.Some? && lost) ==>
                var key := Key(e, page, vsid == ents[e].sv);
                V() == View(Committed(old(V()).tab, key, slot, LvPage(lvr, lvptr)), old(hash), old(tlb))
    {
      hide Valid, RangesOk, Tab, Committed, Tlbie, TlbBits;
      if lvr.Some? && lost {
        hash := hash - {slot};
        tlb := Tlbie(tlb, TlbBits(page));
        return;
      }
      PageSplits(page);
      Lev2Row(mem, {}, e);
      var sv := vsid == ents[e].sv;
      if mem.lev2[e][Lev2Ind(page)] == Null {
        TakeTable(e, Lev2Ind(page));
      }
      if lvr.Some? {
        var i :| 0 <= i < |lvranges| && lvranges[i] == lvr.value;
        RangeHead(lvranges, mem.lvRing.Keys, i, lvptr);
      }
      Record(e, page, sv, slot, LvPage(lvr, lvptr));
    }

    /** The first free level-2 table is attached to an entry. */
    method TakeTable(e: nat, l2: nat)
      requires Ok() && e in mem.lev2 && l2 < |mem.lev2[e]| && mem.lev2[e][l2] == Null && mem.freeTables != Null
      modifies this`mem
      ensures Ok() && V() == old(V()) && mem.lvRing == old(mem).lvRing && mem.freePents == old(mem).freePents
      ensures mem.lev2 == old(mem).lev2[e := mem.lev2[e]] && |mem.lev2[e]| == |old(mem).lev2[e]| &&
              mem.lev2[e][l2] != Null
    {
      hide Valid, RangesOk, Tab, EmptyRings;
      ghost var m0 := mem;
      FreeTable0(mem, {});
      var t := mem.freeTables;
      mem := mem.(freeTables := mem.eaNext[t], freeTabs := mem.freeTabs[1..], eaNext := mem.eaNext[t := Null],
                  lev2 := mem.lev2[e := mem.lev2[e][l2 := t]],
                  place := mem.place[t.tab := Place(e, l2)], eaRing := mem.eaRing + EmptyRings(t.tab));
      TableTakenKeeps(m0, {}, e, l2, mem);
    }

    /** Looks for the record of an address on its ea ring. */
    method FindRecord(ghost e: nat, page: nat, headp: Node, sv: bool) returns (pr: Node, ghost k: nat)
      requires Valid(mem, {}) && page < 0x10000 && AtEa(mem, e, page, headp) && headp in mem.eaRing
      requires headp in mem.eaNext
      ensures pr != Null <==> Key(e, page, sv) in Tab(mem)
      ensures pr != Null ==>
                && k < |mem.eaRing[headp]| && pr == mem.eaRing[headp][k]
                && HasKey(pr, mem.own, mem.pent, mem.place)
                && KeyOf(pr, mem.own, mem.pent, mem.place) == Key(e, page, sv)
    {
      hide Valid, Tab, HasKey, KeyOf, TopEa, AtEa;
      var topea := TopEa(page);
      ghost var r := mem.eaRing[headp];
      k := 0;
      pr := mem.eaNext[headp];
      EmptySlot(mem, {}, headp);
      if pr == Null {
        NotRecorded(mem, e, page, sv, headp);
        return;
      }
      EaFirst(mem, {}, headp);
      var last := false;
      while !last
        invariant k <= |r| && (!last ==> k < |r| && pr == r[k]) && (last ==> k == |r|)
        invariant forall i :: 0 <= i < k ==>
                    r[i] in mem.pent && !(mem.pent[r[i]].topea == topea && mem.pent[r[i]].sv == sv)
        decreases |r| - k, !last
      {
        EaStep(mem, {}, headp, k);
        var word := mem.pent[pr];
        if word.topea == topea && word.sv == sv {
          EaNotNull(mem, {}, headp, k);
          EaKeyHere(mem, {}, e, page, headp, k);
          KeyIsRecorded(mem, headp, k);
          return;
        }
        pr := mem.eaNext[pr];
        k := k + 1;
        last := word.eaLast;
      }
      pr := Null;
      NotRecorded(mem, e, page, sv, headp);
    }

    /** Reuses the record of the address, or puts a new one first on the ring. */
    method Record(e: nat, page: nat, sv: bool, slot: nat, lv: Option<LvId>)
      requires Ok() && e in mem.lev2 && page < 0x10000 && Lev2Ind(page) < |mem.lev2[e]| &&
               mem.lev2[e][Lev2Ind(page)] != Null
      requires mem.freePents != Null && (lv.Some? ==> HeadOf(lv.value) in mem.lvRing)
      modifies this`mem
      ensures Ok() && Tab(mem) == Committed(Tab(old(mem)), Key(e, page, sv), slot, lv)
    {
      hide Valid, RangesOk, Tab, HasKey, KeyOf, EaSide, LvOf, TopEa, Lev2Ind, PelistInd, EaBit14;
      EaTable(mem, {}, e, page);
      PageSplits(page);
      ghost var m0, key := mem, Key(e, page, sv);
      var headp := Slot(mem.lev2[e][Lev2Ind(page)].tab, PelistInd(page));
      ghost var k;
      var pr;
      pr, k := FindRecord(e, page, headp, sv);
      if pr != Null {
        EaStep(mem, {}, headp, k);
        mem := mem.(pent := mem.pent[pr := mem.pent[pr].(index := slot)]);
        IndexSet(m0, {}, pr, slot, mem);
        if lv.Some? {
          IndexKey(m0, mem, pr, slot);
          RelinkLv(pr, lv.value, key);
        }
      } else {
        AddRecord(e, page, sv, slot, lv, headp);
      }
    }

    /** A new record goes first on the ea ring of its address. */
    method AddRecord(e: nat, page: nat, sv: bool, slot: nat, lv: Option<LvId>, headp: Node)
      requires Ok() && page < 0x10000 && AtEa(mem, e, page, headp) && headp in mem.eaRing
      requires mem.freePents != Null && (lv.Some? ==> HeadOf(lv.value) in mem.lvRing) && Key(e, page, sv) !in Tab(mem)
      modifies this`mem
      ensures Ok() && Tab(mem) == Tab(old(mem))[Key(e, page, sv) := Entry(slot, lv)]
    {
      hide Valid, RangesOk, Tab, LvOf, Fresh, TopEa, Lev2Ind, PelistInd, EaBit14, FitsRing, RingKey;
      EmptySlot(mem, {}, headp);
      if mem.eaRing[headp] != [] {
        EaFirst(mem, {}, headp);
      }
      var pr := GetFreePent(lv);
      FreshFacts(mem, pr, lv);
      ghost var m1 := mem;
      var first := mem.eaNext[headp];
      var word := mem.pent[pr].(index := slot, topea := TopEa(page), sv := sv, bit14 := EaBit14(page),
                                eaLast := first == Null);
      FitsHere(mem, {pr}, e, page, sv, headp, pr, word);
      mem := mem.(eaNext := mem.eaNext[pr := if first == Null then headp else first][headp := pr],
                  pent := mem.pent[pr := word],
                  eaRing := mem.eaRing[headp := [pr] + mem.eaRing[headp]],
                  own := mem.own[pr := headp], rec := mem.rec[Key(e, page, sv) := pr]);
      LinkedKeeps(m1, {pr}, pr, headp, word, mem);
      assert {pr} - {pr} == {};
    }

    /** Moves a record of the ea rings to the lv ring of another page.  The resident
        head of a page cannot move: a new record takes its place on the ea ring. */
    method RelinkLv(pr: Node, id: LvId, ghost key: Key)
      requires Valid(mem, {}) && mem.freePents != Null && HeadOf(id) in mem.lvRing
      requires pr in mem.own && mem.own[pr] != Null
      requires HasKey(pr, mem.own, mem.pent, mem.place) && key == KeyOf(pr, mem.own, mem.pent, mem.place)
      modifies this`mem
      ensures Valid(mem, {}) && SameShape(old(mem), mem)
      ensures key in Tab(old(mem)) && Tab(mem) == Tab(old(mem))[key := Entry(Tab(old(mem))[key].slot, Some(id))]
    {
      hide Valid, Tab, HasKey, KeyOf, Without;
      var lvHead := HeadOf(id);
      ghost var m0 := mem;
      LvLinkNull(mem, {}, pr);
      LvStep(mem, {}, lvHead, 0);
      TabEntry(mem, {}, pr);
      if mem.lvNext[pr] == Null {
        LvHeadLinked(mem, {}, pr);
        mem := mem.(lvNext := mem.lvNext[pr := mem.lvNext[lvHead]][lvHead := pr],
                    lvRing := mem.lvRing[lvHead := [pr] + mem.lvRing[lvHead]], lvOwn := mem.lvOwn[pr := lvHead]);
        LvJoined(m0, {}, lvHead, pr, mem);
        return;
      }
      if mem.pent[pr].lvHead {
        if pr == lvHead {
          SameEntry(Tab(mem), key, Some(id));
          return;
        }
        ReplaceHead(pr, id, key);
      } else {
        var p := LvHeadOf(pr);
        if p == lvHead {
          SameEntry(Tab(mem), key, Some(id));
          return;
        }
        ghost var k;
        var q;
        q, k := LvPrevFrom(p, pr);
        mem := mem.(lvNext := mem.lvNext[q := mem.lvNext[pr]][pr := mem.lvNext[lvHead]][lvHead := pr],
                    lvRing := mem.lvRing[p := Without(mem.lvRing[p], k)][lvHead := [pr] + mem.lvRing[lvHead]],
                    lvOwn := mem.lvOwn[pr := lvHead]);
        LvMoved(m0, {}, p, k, lvHead, mem);
      }
    }

    /** A new record of the page takes the place of a resident head of another page. */
    method ReplaceHead(pr: Node, id: LvId, ghost key: Key)
      requires Valid(mem, {}) && mem.freePents != Null && HeadOf(id) in mem.lvRing && pr.Head? && pr != HeadOf(id)
      requires pr in mem.own && mem.own[pr] != Null
      requires HasKey(pr, mem.own, mem.pent, mem.place) && key == KeyOf(pr, mem.own, mem.pent, mem.place)
      requires key in Tab(mem) && pr in mem.pent && Tab(mem)[key].slot == mem.pent[pr].index
      modifies this`mem
      ensures Valid(mem, {}) && SameShape(old(mem), mem)
      ensures Tab(mem) == Tab(old(mem))[key := Entry(Tab(old(mem))[key].slot, Some(id))]
    {
      hide Valid, Tab, EaSide, HasKey, KeyOf, Without, LvOf;
      ghost var h, k;
      var p;
      ValidEa(mem, {});
      p, h, k := EaPrev(pr);
      UnlinkFacts(mem, h, k);
      ghost var m0 := mem;
      var pnew := GetFreePent(Some(id));
      KeyCarries(m0, mem, pr, pnew);
      ghost var m1 := mem;
      var word := mem.pent[pr].(lvHead := mem.pent[pnew].lvHead, unused := false);
      LvLinkNull(m0, {}, pr);
      OnRingInUse(m0, {}, pr);
      mem := mem.(eaNext := mem.eaNext[pnew := mem.eaNext[pr]][p := pnew], pent := mem.pent[pnew := word],
                  eaRing := mem.eaRing[h := mem.eaRing[h][k := pnew]], own := mem.own[pr := Null][pnew := h],
                  rec := mem.rec[key := pnew]);
      ReplacedKeeps(m1, {pnew}, h, k, pnew, word, mem);
      assert {pnew} - {pnew} + {pr} == {pr};
      ghost var m2 := mem;
      mem := mem.(pent := mem.pent[pr := IDLE]);
      PentSet(m2, {pr}, pr, IDLE, mem);
      assert {pr} - {pr} == {};
    }

    /** Takes the first record of the free list and clears its word. */
    method PopFree() returns (pr: Node)
      requires Valid(mem, {}) && mem.freePents != Null
      modifies this`mem
      ensures Valid(mem, {pr}) && Tab(mem) == Tab(old(mem)) && Took(old(mem), pr, mem)
      ensures mem.lvRing == old(mem).lvRing && mem.lvOwn == old(mem).lvOwn
      ensures pr.Rec? && pr in mem.own && mem.own[pr] == Null && pr in mem.lvOwn && mem.lvOwn[pr] == Null
      ensures pr in mem.pent && mem.pent[pr] == ZEROED && pr in mem.lvNext
    {
      hide Valid, Tab;
      ghost var m0 := mem;
      FreeFirst(mem, {});
      FreeMembers(mem, {});
      pr := mem.freePents;
      assert pr in mem.free;
      mem := mem.(freePents := mem.lvNext[pr], free := mem.free[1..]);
      Popped(m0, {}, mem);
      ghost var m1 := mem;
      mem := mem.(pent := mem.pent[pr := ZEROED]);
      assert {} + {pr} == {pr};
      PentSet(m1, {pr}, pr, ZEROED, mem);
    }

    /** Takes a record off its ea ring, zeroes its slot, and rebuilds bits 14-19 of
        its address from where it was to invalidate the TLB. */
    method PentFlushUnlinkEa(pr: Node) returns (ghost h: Node, ghost k: nat)
      requires EaSide(mem) && pr in mem.own && mem.own[pr] != Null
      modifies this`mem, this`hash, this`tlb
      ensures Unlinked(old(mem), h, k, mem)
      ensures h in old(mem).eaRing && k < |old(mem).eaRing[h]| && old(mem).eaRing[h][k] == pr
      ensures hash == old(hash) - {old(mem).pent[pr].index}
      ensures tlb == Tlbie(old(tlb), TlbBits(KeyOf(pr, old(mem).own, old(mem).pent, old(mem).place).page))
    {
      hide EaSide, Unlinked, HasKey, KeyOf, TlbBits, Without, Tlbie;
      var head, prev;
      head, prev, k := EaNeighbours(pr);
      h := head;
      UnlinkFacts(mem, h, k);
      UnlinkStep(mem, h, k);

      var next, pent := mem.eaNext, mem.pent;
      if pent[pr].eaLast {
        if prev == head {
          next := next[pr := Null];
        } else {
          pent := pent[prev := pent[prev].(eaLast := true)];
        }
      }
      next := next[prev := next[pr]];
      mem := mem.(eaNext := next, pent := pent, eaRing := mem.eaRing[h := Without(mem.eaRing[h], k)],
                  own := mem.own[pr := Null], rec := mem.rec - {KeyOf(pr, mem.own, mem.pent, mem.place)});

      hash := hash - {pent[pr].index};
      tlb := Tlbie(tlb, head.ind + if pent[pr].bit14 then 32 else 0);
    }

    /** Walks the lv ring of a record to the node that links to it. */
    method LvPrev(pr: Node) returns (lvp: Node, ghost h: Node, ghost k: nat)
      requires LvRings(mem.lvNext, mem.lvRing, mem.lvOwn) && pr in mem.lvOwn && mem.lvOwn[pr] != Null
      ensures h == mem.lvOwn[pr] && h in mem.lvRing && k < |mem.lvRing[h]| && mem.lvRing[h][k] == pr
      ensures lvp == Before(h, mem.lvRing[h], k) && lvp in mem.lvNext && pr in mem.lvNext && pr != lvp
    {
      hide LvRings, LvRing, NoDup;
      h := mem.lvOwn[pr];
      LvRingsMembers(mem.lvNext, mem.lvRing, mem.lvOwn);
      LvRingShape(mem.lvNext, mem.lvRing, mem.lvOwn, h);
      ghost var r := mem.lvRing[h];
      k :| 0 <= k < |r| && r[k] == pr;
      LvAt(mem.lvNext, h, r, k);
      lvp := mem.lvNext[pr];
      // negative until the walk has come round to the head
      ghost var i := k + 1 - |r|;
      LvWalk(mem.lvNext, h, r, i);
      while mem.lvNext[lvp] != pr
        invariant k + 1 - |r| <= i <= k && lvp == LvNode(h, r, i)
        invariant lvp in mem.lvNext && mem.lvNext[lvp] == if i < 0 then LvNode(h, r, i + 1) else r[i]
        decreases k - i
      {
        lvp := mem.lvNext[lvp];
        i := i + 1;
        LvWalk(mem.lvNext, h, r, i);
      }
      LvWalkEnd(h, r, i, k);
      DistinctBefore(r, k);
    }

    /** Takes a record off its ea ring, given the node before it, and zeroes its slot. */
    method UnlinkAfter(headp: Node, pp: Node, pr: Node, ghost k: nat)
      requires EaSide(mem) && headp in mem.eaRing && k < |mem.eaRing[headp]|
      requires pr == mem.eaRing[headp][k] && pp == Before(headp, mem.eaRing[headp], k)
      modifies this`mem, this`hash
      ensures Unlinked(old(mem), headp, k, mem) && hash == old(hash) - {old(mem).pent[pr].index}
    {
      hide Unlinked, EaSide, HasKey, KeyOf, Without, TlbBits;
      UnlinkFacts(mem, headp, k);
      UnlinkStepHead(mem, headp, k);
      var word := mem.pent[pr];
      var next, pent := mem.eaNext[pp := mem.eaNext[pr]], mem.pent;
      if word.eaLast {
        if pp == headp {
          next := next[headp := Null];
        } else {
          pent := pent[pp := pent[pp].(eaLast := true)];
        }
      }
      mem := mem.(eaNext := next, pent := pent, eaRing := mem.eaRing[headp := Without(mem.eaRing[headp], k)],
                  own := mem.own[pr := Null], rec := mem.rec - {KeyOf(pr, mem.own, mem.pent, mem.place)});
      hash := hash - {word.index};
    }

    /** The body of flush_vsid_ea_ for one record: off its ea ring, off its lv ring,
        on the free list, and its slot zeroed. */
    method FlushRecord(headp: Node, pp: Node, pr: Node, ghost k: nat)
      requires Valid(mem, {}) && headp in mem.eaRing && k < |mem.eaRing[headp]|
      requires pr == mem.eaRing[headp][k] && pp == Before(headp, mem.eaRing[headp], k)
      modifies this`mem, this`hash
      ensures Valid(mem, {}) && mem.eaRing == old(mem).eaRing[headp := Without(old(mem).eaRing[headp], k)]
      ensures HasKey(pr, old(mem).own, old(mem).pent, old(mem).place) && pr in old(mem).pent
      ensures var key := KeyOf(pr, old(mem).own, old(mem).pent, old(mem).place);
              && key in Tab(old(mem)) && Tab(old(mem))[key].slot == old(mem).pent[pr].index
              && Tab(mem) == Tab(old(mem)) - {key}
      ensures hash == old(hash) - {old(mem).pent[pr].index}
      ensures SameShape(old(mem), mem)
      ensures forall x :: x in old(mem).pent && x != pr ==> x in mem.pent && mem.pent[x].topea == old(mem).pent[x].topea
    {
      hide Valid, Unlinked, EaSide, LvSide, HasKey, KeyOf, Tab, Without, LvOf, Flags, EaRings, LvRings, IsRecord;
      hide TlbBits;
      ghost var m0 := mem;
      ValidParts(mem, {});
      UnlinkFacts(mem, headp, k);
      LvLinkNull(mem, {}, pr);
      var word := mem.pent[pr];
      UnlinkAfter(headp, pp, pr, k);
      UnlinkedEaSide(m0, headp, k, mem);
      UnlinkedKeeps(m0, {}, headp, k, mem);
      UnlinkedFrame(m0, headp, k, mem);
      assert {} + {pr} == {pr};
      ReleaseRecord(pr, word);
    }

    /** Drops every record of an address, under both Linux VSIDs of the entry. */
    method FlushVsidEa(e: nat, page: nat)
      requires Ok() && e in mem.lev2 && page < 0x10000
      modifies this`mem, this`hash, this`tlb
      ensures Ok() && V() == FlushKeys(old(V()), KeysOfEa(old(V()).tab, e, page))
      ensures SameShape(old(mem), mem)
    {
      hide Valid, RangesOk, KeysOfEa, FlushKeys, Tab;
      PageSplits(page);
      Lev2Row(mem, {}, e);
      var t := mem.lev2[e][Lev2Ind(page)];
      EaTable(mem, {}, e, page);
      if t == Null {
        FlushNone(V());
        return;
      }
      var headp := Slot(t.tab, PelistInd(page));
      if mem.eaNext[headp] == Null {
        FlushNone(V());
        return;
      }
      var worked := FlushEaRing(e, page, headp);
      if worked {
        tlb := Tlbie(tlb, TlbBits(page));
      }
      FlushedEa(old(V()), e, page, worked, V());
    }

    /** The walk of flush_vsid_ea_ round a ring that is not empty. */
    method FlushEaRing(e: nat, page: nat, headp: Node) returns (worked: bool)
      requires Valid(mem, {}) && e in mem.lev2 && page < 0x10000
      requires AtEa(mem, e, page, headp) && headp in mem.eaRing && mem.eaRing[headp] != []
      modifies this`mem, this`hash
      ensures Valid(mem, {}) && SameShape(old(mem), mem)
      ensures Tab(mem) == Tab(old(mem)) - KeysOfEa(Tab(old(mem)), e, page)
      ensures hash == old(hash) - SlotsOf(Tab(old(mem)), KeysOfEa(Tab(old(mem)), e, page))
      ensures worked <==> KeysOfEa(Tab(old(mem)), e, page) != {}
    {
      hide Valid, Tab, EaRing, KeyOf, HasKey, Without, KeysOfEa, SlotsOf;
      var topea := TopEa(page);
      worked := false;
      ghost var tab, done, k := Tab(mem), {}, 0;
      ghost var r := mem.eaRing[headp];
      EaFirst(mem, {}, headp);
      SlotsOfNone(tab);
      var pp, pr, last := headp, mem.eaNext[headp], false;
      while !last
        invariant Valid(mem, {}) && SameShape(old(mem), mem) && AtEa(mem, e, page, headp)
        invariant headp in mem.eaRing && r == mem.eaRing[headp]
        invariant k <= |r| && pp == Before(headp, r, k)
        invariant !last ==> k < |r| && pr == r[k]
        invariant last ==> k == |r|
        invariant forall i :: 0 <= i < k ==> r[i] in mem.pent && mem.pent[r[i]].topea != topea
        invariant Tab(mem) == tab - done && done <= KeysOfEa(tab, e, page)
        invariant hash == old(hash) - SlotsOf(tab, done)
        invariant worked <==> done != {}
        decreases |r| - k, !last
      {
        EaStep(mem, {}, headp, k);
        var word, next := mem.pent[pr], mem.eaNext[pr];
        if word.topea == topea {
          worked := true;
          EaKeyHere(mem, {}, e, page, headp, k);
          FlushRecord(headp, pp, pr, k);
          ghost var key := Key(e, page, word.sv);
          FlushMore(tab, old(hash), done, key, e, page);
          done := done + {key};
          WithoutAt(r, k);
          r := mem.eaRing[headp];
        } else {
          pp := pr;
          k := k + 1;
        }
        pr := next;
        last := word.eaLast;
      }
      EaDone(mem, tab, done, e, page, headp);
    }

    /** The loop of flush_lvptr_ over the members of a page's lv ring other than its
        head: each leaves its ea ring, and the last one is returned. */
    method FlushLvMembers(head: Node, ghost id: LvId) returns (last: Node)
      requires Valid(mem, {}) && head == HeadOf(id) && head in mem.lvRing && mem.lvRing[head] != []
      modifies this`mem, this`hash, this`tlb
      ensures var r := old(mem).lvRing[head];
              && mem.lvRing == old(mem).lvRing && mem.free == old(mem).free
              && last == r[|r| - 1] && Valid(mem, Front(r, |r|))
      ensures SameShape(old(mem), mem)
      ensures exists done :: done <= KeysOfLv(old(V()).tab, id) && V() == FlushKeys(old(V()), done)
    {
      hide Valid, EaSide, Unlinked, HasKey, KeyOf, Tab, LvOf, FlushKeys, Tlbie, TlbBits, KeysOfLv, Front;
      ghost var r := mem.lvRing[head];
      ghost var v, done, i := V(), {}, 0;
      last := head;
      FlushNone(v);
      FrontNone(r);
      LvStep(mem, {}, head, 0);
      ghost var limbo := Front(r, 0);
      while true
        invariant mem.lvRing == old(mem).lvRing && mem.free == old(mem).free && SameShape(old(mem), mem)
        invariant 0 <= i < |r| && r == mem.lvRing[head] && limbo == Front(r, i) && Valid(mem, limbo)
        invariant last == Before(head, r, i)
        invariant v == old(V()) && V() == FlushKeys(v, done) && done <= KeysOfLv(v.tab, id)
        decreases |r| - i
      {
        LvStep(mem, limbo, head, i);
        last := mem.lvNext[last];
        FrontNot(r, i);
        LvMember(mem, limbo, id, i);
        ValidEa(mem, limbo);
        ghost var m0, v0, key := mem, V(), KeyOf(last, mem.own, mem.pent, mem.place);
        ghost var h, k;
        h, k := PentFlushUnlinkEa(last);
        UnlinkedFlush(m0, limbo, h, k, mem, v0, V());
        FlushLvMore(v, done, key, v0, V(), id);
        done := done + {key};
        FrontMore(r, i);
        i := i + 1;
        limbo := Front(r, i);
        LvStep(mem, limbo, head, i);
        if mem.lvNext[last] == head {
          break;
        }
      }
    }

    /** flush_lvptr_ on the head record of the page: drops every record of the page. */
    method FlushLvHead(head: Node, ghost id: LvId)
      requires Valid(mem, {}) && head == HeadOf(id) && head in mem.lvRing && head in mem.lvNext
      modifies this`mem, this`hash, this`tlb
      ensures Valid(mem, {}) && SameShape(old(mem), mem) && |old(mem).free| <= |mem.free|
      ensures V() == FlushKeys(old(V()), KeysOfLv(old(V()).tab, id))
      ensures head in mem.lvRing && mem.lvRing[head] == [] && head in mem.own && mem.own[head] == Null
    {
      hide Valid, EaSide, Unlinked, HasKey, KeyOf, Tab, LvOf, FlushKeys, Tlbie, TlbBits, KeysOfLv, Front, Without;
      ghost var v, done, limbo := V(), {}, {};
      ghost var r := mem.lvRing[head];
      LvStep(mem, {}, head, 0);
      FlushNone(v);
      var first := mem.lvNext[head];
      var last := head;
      if first != head {
        last := FlushLvMembers(head, id);
        done :| done <= KeysOfLv(v.tab, id) && V() == FlushKeys(v, done);
        limbo := Front(r, |r|);
      } else {
        FrontNone(r);
      }
      FrontHeadless(mem, limbo, r, id);
      LvStep(mem, limbo, head, 0);
      done := FlushLvTail(head, id, first, last, limbo, r, v, done);
      LvDone(mem, id, v, done, V());
    }

    /** The end of flush_lvptr_: the members go on the free list in one piece, the
        head leaves its ea ring if it is on one, and becomes idle. */
    method FlushLvTail(head: Node, ghost id: LvId, first: Node, last: Node,
                       ghost limbo: set<Node>, ghost r: seq<Node>, ghost v: View, ghost was: set<Key>)
      returns (ghost done: set<Key>)
      requires Valid(mem, limbo) && head == HeadOf(id) && head in mem.lvRing && head in mem.lvNext &&
               r == mem.lvRing[head]
      requires head !in limbo && forall x :: x in limbo <==> x in r
      requires first == (if r == [] then head else r[0]) && last == (if r == [] then head else r[|r| - 1])
      requires r != [] ==> first != head
      requires V() == FlushKeys(v, was) && was <= KeysOfLv(v.tab, id)
      modifies this`mem, this`hash, this`tlb
      ensures Valid(mem, {}) && SameShape(old(mem), mem) && mem.free == r + old(mem).free
      ensures V() == FlushKeys(v, done) && done <= KeysOfLv(v.tab, id)
      ensures head in mem.lvRing && mem.lvRing[head] == [] && head in mem.own && mem.own[head] == Null
    {
      hide Valid, EaSide, HasKey, KeyOf, Tab, LvOf, FlushKeys, KeysOfLv, Unlist;
      ghost var m1, m2, lim2 := mem, mem, limbo;
      ValidEa(mem, limbo);
      var lvNext, free := mem.lvNext, mem.freePents;
      if first != head {
        lvNext, free := lvNext[last := free], first;
      }
      EaSideLvLinks(mem, lvNext, free);
      mem := mem.(lvNext := lvNext, freePents := free);
      m2, lim2, done := UnlinkLvHead(head, id, m1, limbo, v, was);
      mem := mem.(lvNext := lvNext[head := head], pent := mem.pent[head := IDLE],
                  lvRing := mem.lvRing[head := []], lvOwn := Unlist(mem.lvOwn, r), free := r + mem.free);
      SettleHead(m2, lim2, id, mem);
    }

    /** The head of a page leaves its ea ring, if it is on one.  The lv links differ from
        those of a valid state m1 meanwhile. */
    method UnlinkLvHead(head: Node, ghost id: LvId, ghost m1: Mem, ghost limbo: set<Node>,
                        ghost v: View, ghost was: set<Key>)
      returns (ghost m2: Mem, ghost lim2: set<Node>, ghost done: set<Key>)
      requires Valid(m1, limbo) && mem == m1.(lvNext := mem.lvNext, freePents := mem.freePents) && EaSide(mem)
      requires head == HeadOf(id) && head in m1.lvRing && head !in limbo
      requires V() == FlushKeys(v, was) && was <= KeysOfLv(v.tab, id) && Tab(mem) == Tab(m1)
      modifies this`mem, this`hash, this`tlb
      ensures mem == m2.(lvNext := old(mem).lvNext, freePents := old(mem).freePents)
      ensures Valid(m2, lim2) && lim2 - {head} == limbo && SameShape(m1, m2) && m2.lvRing == m1.lvRing
      ensures m2.free == m1.free
      ensures m2.lvNext == m1.lvNext && m2.freePents == m1.freePents && m2.lvOwn == m1.lvOwn && Tab(m2) == Tab(mem)
      ensures head in m2.own && m2.own[head] == Null && head in m2.pent
      ensures V() == FlushKeys(v, done) && done <= KeysOfLv(v.tab, id)
    {
      hide Valid, EaSide, Unlinked, HasKey, KeyOf, Tab, LvOf, FlushKeys, Tlbie, TlbBits, KeysOfLv, Without;
      HeadState(m1, limbo, id);
      m2, lim2, done := m1, limbo, was;
      if mem.pent[head].unused {
        return;
      }
      ghost var m0, v0, h, k := mem, V(), Null, 0;
      h, k := PentFlushUnlinkEa(head);
      UnlinkedFrame(m0, h, k, mem);
      UnlinkedLvLinks(m0, h, k, mem, m1.lvNext, m1.freePents);
      m2 := mem.(lvNext := m1.lvNext, freePents := m1.freePents);
      ghost var key := KeyOf(head, m1.own, m1.pent, m1.place);
      UnlinkedFlush(m1, limbo, h, k, m2, v0, V());
      FlushLvMore(v, was, key, v0, V(), id);
      lim2, done := limbo + {head}, was + {key};
    }

    /** flush_lvptr_: finds the first range that holds the address, and drops every
        record of the page. */
    method FlushLvptrLocked(lvptr: nat)
      requires Ok()
      modifies this`mem, this`hash, this`tlb
      ensures Ok() && SameShape(old(mem), mem)
      ensures old(mem).freePents != Null ==> mem.freePents != Null
      ensures V() == FlushedAt(old(V()), lvranges, lvptr)
    {
      hide Valid, RangesOk, KeysOfLv, FlushKeys, Tab;
      var i := 0;
      assert lvranges[0..] == lvranges;
      while i < |lvranges| && !InRange(lvranges[i], lvptr)
        invariant i <= |lvranges| && Locate(lvranges, lvptr) == Locate(lvranges[i..], lvptr)
      {
        i := i + 1;
      }
      if i == |lvranges| {
        return;
      }
      var lvr := lvranges[i];
      var id := LvId(lvr.rng, (lvptr - lvr.base) / 0x1000);
      RangeHead(lvranges, mem.lvRing.Keys, i, lvptr);
      var head := Head(id.rng, id.idx);
      LvStep(mem, {}, head, 0);
      ghost var m0 := mem;
      FlushLvHead(head, id);
      FreeKept(m0, mem);
    }

    /** The asynchronous entry point: also breaks a reservation of the very address.  No
        record of the page is left if at most one registered range holds the address. */
    method FlushLvptr(lvptr: nat)
      requires Ok()
      modifies this`mem, this`hash, this`tlb, this`lost
      ensures Ok() && SameShape(old(mem), mem) && lost == (old(lost) || reservation == Some(lvptr))
      ensures old(mem).freePents != Null ==> mem.freePents != Null
      ensures V() == FlushedAt(old(V()), lvranges, lvptr)
      ensures HeldOnce(lvranges, lvptr) ==> forall k :: k in V().tab ==> !OfPage(lvranges, V().tab[k], lvptr)
    {
      hide Valid, RangesOk, FlushedAt, Tab, OfPage, HeldOnce;
      if Some(lvptr) == reservation {
        lost := true;
      }
      FlushLvptrLocked(lvptr);
      if HeldOnce(lvranges, lvptr) {
        RangeNames(lvranges, mem.lvRing.Keys);
        HeldOnceLeavesNone(lvranges, old(V()), lvptr);
      }
    }

    /** The loop of flush_vsid and flush_ea_range over the pages of an entry: an
        absent level-2 table is skipped whole, a NULL slot is passed over. */
    method FlushPages(e: nat, start: nat, end: nat)
      requires Ok() && e in mem.lev2 && end <= 0x10000
      modifies this`mem, this`hash, this`tlb
      ensures Ok() && SameShape(old(mem), mem)
      ensures V() == FlushKeys(old(V()), KeysBetween(old(V()).tab, e, start, end))
    {
      hide Valid, RangesOk, KeysOfEa, FlushKeys, Tab, KeysBetween;
      var p := start;
      ghost var v := V();
      KeysBetweenNone(v, e, start, end);
      while p < end
        invariant Ok() && SameShape(old(mem), mem) && e in mem.lev2 && start <= p
        invariant V() == FlushKeys(v, KeysBetween(v.tab, e, start, if p < end then p else end))
        invariant v == old(V())
        decreases 0x10000 - p
      {
        ghost var w := V();
        EaTable(mem, {}, e, p);
        var t := mem.lev2[e][Lev2Ind(p)];
        if t == Null {
          var q := p / 32 * 32 + 32;
          NoTableNoKeys(mem, e, p, if q < end then q else end);
          SkipPages(v, e, start, p, if q < end then q else end, w);
          p := q;
        } else {
          if mem.eaNext[Slot(t.tab, PelistInd(p))] != Null {
            FlushVsidEa(e, p);
          } else {
            FlushNone(w);
          }
          PageFlushed(v, e, start, p, w, V());
          p := p + 1;
        }
      }
    }

    /** Drops every record of an entry and gives its level-2 tables back, all of whose
        slots are NULL by then. */
    method FlushVsid(e: nat)
      requires Ok() && e in mem.lev2
      modifies this`mem, this`hash, this`tlb
      ensures Ok() && mem.lvRing.Keys == old(mem).lvRing.Keys && mem.lev2 == old(mem).lev2[e := NoTables()]
      ensures V() == FlushKeys(old(V()), KeysOfEnt(old(V()).tab, e))
    {
      hide Valid, RangesOk, FlushKeys, Tab, KeysBetween, KeysOfEnt;
      FlushPages(e, 0, 0x10000);
      AllPages(old(mem), e);
      EntFlushed(old(V()), e, V());
      var i := 0;
      ghost var v := V();
      Lev2Row(mem, {}, e);
      assert mem.lev2 == old(mem).lev2[e := mem.lev2[e]];
      while i < 64
        invariant Ok() && i <= 64 && V() == v && mem.lvRing.Keys == old(mem).lvRing.Keys
        invariant e in mem.lev2 && |mem.lev2[e]| == 64 && mem.lev2 == old(mem).lev2[e := mem.lev2[e]]
        invariant forall j :: 0 <= j < i ==> mem.lev2[e][j] == Null
        invariant KeysOfEnt(Tab(mem), e) == {}
      {
        var t := mem.lev2[e][i];
        if t != Null {
          EmptyTable(mem, e, i);
          FreeTable(e, i);
        }
        i := i + 1;
      }
      assert mem.lev2[e] == NoTables();
    }

    /** A level-2 table with 32 NULL slots leaves its entry for the free tables. */
    method FreeTable(e: nat, i: nat)
      requires Ok() && e in mem.lev2 && i < |mem.lev2[e]| && mem.lev2[e][i].Slot?
      requires forall j :: 0 <= j < 32 ==>
                 Slot(mem.lev2[e][i].tab, j) in mem.eaRing && mem.eaRing[Slot(mem.lev2[e][i].tab, j)] == []
      modifies this`mem
      ensures Ok() && V() == old(V()) && mem.lvRing == old(mem).lvRing
      ensures mem.lev2 == old(mem).lev2[e := old(mem).lev2[e][i := Null]]
      ensures mem.freeTables != Null
    {
      hide Valid, RangesOk, Tab, SlotsOfTable;
      var t := mem.lev2[e][i];
      SlotsOfTableMembers(t.tab);
      ghost var m0 := mem;
      mem := mem.(freeTables := t, freeTabs := [t.tab] + mem.freeTabs,
                  eaNext := mem.eaNext[Slot(t.tab, 0) := mem.freeTables],
                  lev2 := mem.lev2[e := mem.lev2[e][i := Null]],
                  place := mem.place - {t.tab}, eaRing := mem.eaRing - SlotsOfTable(t.tab));
      TableFreedKeeps(m0, {}, e, i, mem);
    }

    /** flush_lv_range: page by page. */
    method FlushLvRange(base: nat, size: nat)
      requires Ok()
      modifies this`mem, this`hash, this`tlb
      ensures Ok() && SameShape(old(mem), mem)
      ensures V() == FlushKeys(old(V()), KeysOfLvs(old(V()).tab, LvsBetween(lvranges, base, (size + 0xfff) / 0x1000)))
    {
      hide Valid, RangesOk, FlushKeys, FlushedAt, Tab, KeysOfLvs, LvsBetween;
      var left, lvbase := size as int, base;
      ghost var i, v := 0, V();
      NoLvs(v, lvranges, base);
      while left > 0
        invariant Ok() && SameShape(old(mem), mem) && left == size - i * 0x1000 && lvbase == base + i * 0x1000
        invariant i <= (size + 0xfff) / 0x1000
        invariant V() == FlushKeys(v, KeysOfLvs(v.tab, LvsBetween(lvranges, base, i)))
      {
        ghost var w := V();
        FlushLvptrLocked(lvbase);
        MoreLvs(v, lvranges, base, i, w, V());
        left, lvbase, i := left - 0x1000, lvbase + 0x1000, i + 1;
      }
    }

    /** register_lvrange: every page gets an idle record of its own. */
    method RegisterLvrange(rng: nat, base: nat, size: nat)
      requires Ok() && size % 0x1000 == 0
      requires forall h :: (h in mem.own || h in mem.eaNext) && h.Head? ==> h.rng != rng
      requires forall i :: 0 <= i < |lvranges| ==> lvranges[i].rng != rng
      modifies this`mem, this`lvranges
      ensures Ok() && V() == old(V()) && lvranges == [LvRange(rng, base, size)] + old(lvranges)
      ensures forall i :: 0 <= i < size / 0x1000 ==> IdleHead(mem, Head(rng, i))
    {
      hide Valid, RangesOk, Tab, Extend, ExtendSelf, HeadsOf;
      HeadsOfMembers(rng, size / 0x1000);
      ghost var m0 := mem;
      ghost var hs := HeadsOf(rng, size / 0x1000);
      var next, lv, pent := mem.eaNext, mem.lvNext, mem.pent;
      var i := 0;
      HeadsNone(mem, rng);
      HeadsAreRanges(mem);
      while i < size / 0x1000
        invariant i <= size / 0x1000 && mem == m0 && lvranges == old(lvranges)
        invariant next == Extend(mem.eaNext, HeadsOf(rng, i), Null)
        invariant lv == ExtendSelf(mem.lvNext, HeadsOf(rng, i))
        invariant pent == Extend(mem.pent, HeadsOf(rng, i), IDLE)
      {
        HeadsMore(mem, rng, i);
        var h := Head(rng, i);
        next, lv, pent := next[h := Null], lv[h := h], pent[h := IDLE];
        i := i + 1;
      }
      mem := mem.(eaNext := next, lvNext := lv, pent := pent, own := Extend(mem.own, hs, Null),
                  lvOwn := Extend(mem.lvOwn, hs, Null), lvRing := Extend(mem.lvRing, hs, []));
      HeadsAddedKeeps(m0, {}, hs, mem);
      ExtendFacts(m0.lvRing, hs, []);
      ExtendFacts(m0.own, hs, Null);
      RangeAdded(lvranges, m0.lvRing.Keys, LvRange(rng, base, size));
      lvranges := [LvRange(rng, base, size)] + lvranges;
    }

    /** free_lvrange, for a range whose addresses no earlier range holds: once its
        pages are flushed no record refers to its heads, which go. */
    method FreeLvrange(k: nat)
      requires Ok() && k < |lvranges|
      requires forall x :: 0 <= x < lvranges[k].size / 0x1000 ==>
                 Locate(lvranges, lvranges[k].base + x * 0x1000) == Some(LvId(lvranges[k].rng, x))
      modifies this`mem, this`hash, this`tlb, this`lvranges
      ensures Ok() && lvranges == old(lvranges)[..k] + old(lvranges)[k + 1..]
      ensures var r := old(lvranges)[k];
              V() == FlushKeys(old(V()), KeysOfLvs(old(V()).tab, LvsBetween(old(lvranges), r.base, r.size / 0x1000)))
      ensures forall h :: h in mem.own && h.Head? ==> h.rng != old(lvranges)[k].rng
    {
      hide Valid, RangesOk, FlushKeys, Tab, KeysOfLvs, LvsBetween, HeadsOf;
      var r := lvranges[k];
      RangeSize(lvranges, mem.lvRing.Keys, k);
      ghost var v := V();
      FlushLvRange(r.base, r.size);
      HeadsOfMembers(r.rng, r.size / 0x1000);
      RangeIdle(mem, v, lvranges, k, V());
      ghost var m0 := mem;
      var gone := set i | 0 <= i < r.size / 0x1000 :: Head(r.rng, i);
      assert gone == HeadsOf(r.rng, r.size / 0x1000);
      mem := mem.(eaNext := mem.eaNext - gone, lvNext := mem.lvNext - gone, pent := mem.pent - gone,
                  own := mem.own - gone, lvOwn := mem.lvOwn - gone, lvRing := mem.lvRing - gone);
      HeadsDroppedKeeps(m0, {}, gone, mem);
      RangeDropped(lvranges, m0.lvRing.Keys, k);
      assert mem.lvRing.Keys == m0.lvRing.Keys - gone;
      lvranges := lvranges[..k] + lvranges[k + 1..];
      HeadsAreRanges(mem);
    }

    constructor ()
      ensures Ok() && V() == View(map[], map[], {}) && ents == map[] && lvranges == [] && reservation == None && !lost
    {
      hide Valid, RangesOk, Tab;
      NothingYet();
      mem := NOTHING;
      lvranges, hash, tlb, reservation, lost, ents := [], map[], {}, None, false, map[];
    }

    /** make_lvptr_reservation */
    method MakeLvptrReservation(lvptr: nat)
      modifies this`reservation, this`lost
      ensures reservation == Some(lvptr) && !lost
    {
      reservation, lost := Some(lvptr), false;
    }

    /** alloc_vsid_ent.  When the skiplist has no element left, the context numbers may
        wrap around, which clears everything, and a chunk is asked for, which may fail. */
    method AllocVsidEnt(e: nat, ids: Ids, needAlloc: bool, wraps: bool, gotChunk: bool) returns (ok: bool)
      requires Ok() && e !in ents
      modifies this`mem, this`hash, this`tlb, this`ents
      ensures Ok() && (ok <==> !needAlloc || gotChunk)
      ensures V() == if needAlloc && wraps then FlushKeys(old(V()), old(V()).tab.Keys) else old(V())
      ensures var kept := if needAlloc && wraps then map[] else old(ents);
              ents == if ok then kept[e := ids] else kept
      ensures ok ==> e in mem.lev2 && mem.lev2[e] == NoTables() && KeysOfEnt(V().tab, e) == {}
    {
      hide Valid, RangesOk, Tab, FlushKeys;
      if needAlloc {
        if wraps {
          ClearAllVsids();
        }
        if !gotChunk {
          return false;
        }
      }
      ghost var m0 := mem;
      mem := mem.(lev2 := mem.lev2[e := NoTables()]);
      ents := ents[e := ids];
      EntAdded(m0, {}, e, mem);
      EntDropped(mem, {}, e, mem.(lev2 := mem.lev2 - {e}));
      return true;
    }

    /** flush_ea_range: the same pages of every entry. */
    method FlushEaRange(start: nat, end: nat)
      requires Ok() && end <= 0x10000
      modifies this`mem, this`hash, this`tlb
      ensures Ok() && SameShape(old(mem), mem)
      ensures V() == FlushKeys(old(V()), KeysOfPages(old(V()).tab, ents.Keys, start, end))
    {
      hide Valid, RangesOk, FlushKeys, Tab, KeysOfPages, KeysBetween;
      var todo := ents.Keys;
      ghost var v := V();
      KeysOfPagesNone(v, start, end);
      assert ents.Keys - todo == {};
      while todo != {}
        invariant Ok() && SameShape(old(mem), mem) && todo <= ents.Keys
        invariant V() == FlushKeys(v, KeysOfPages(v.tab, ents.Keys - todo, start, end))
        decreases |todo|
      {
        var e :| e in todo;
        ghost var w := V();
        FlushPages(e, start, end);
        KeysOfPagesMore(v, ents.Keys - todo, e, start, end, w, V());
        assert ents.Keys - (todo - {e}) == ents.Keys - todo + {e};
        todo := todo - {e};
      }
      assert ents.Keys - todo == ents.Keys;
    }

    /** clear_all_vsids: every record goes, the tables are given back, and the chunks
        they and the records lived in are freed.  Each lv ring is a lone idle head
        then, so nothing refers into a freed chunk. */
    method ClearAllVsids()
      requires Ok()
      modifies this`mem, this`hash, this`tlb, this`ents
      ensures Ok() && V() == FlushKeys(old(V()), old(V()).tab.Keys) && ents == map[]
      ensures mem.own.Keys == mem.lvRing.Keys && forall h :: h in mem.lvRing ==> IdleHead(mem, h)
      ensures mem.freePents == Null && mem.freeTables == Null
    {
      hide Valid, RangesOk, FlushKeys, Tab;
      FlushAllVsids();
      FreeChunks();
    }

    method FlushAllVsids()
      requires Ok()
      modifies this`mem, this`hash, this`tlb
      ensures Ok() && V() == FlushKeys(old(V()), old(V()).tab.Keys)
      ensures forall e :: e in mem.lev2 ==> mem.lev2[e] == NoTables()
    {
      hide Valid, RangesOk, FlushKeys, Tab, KeysOfEnt, KeysOfEnts, NoTables;
      var todo := ents.Keys;
      ghost var v := V();
      FlushNone(v);
      KeysOfEntsNone(v.tab);
      assert ents.Keys - todo == {};
      while todo != {}
        invariant Ok() && todo <= ents.Keys && mem.lvRing.Keys == old(mem).lvRing.Keys
        invariant V() == FlushKeys(v, KeysOfEnts(v.tab, ents.Keys - todo))
        invariant forall e :: e in ents && e !in todo ==> mem.lev2[e] == NoTables()
        decreases |todo|
      {
        var e :| e in todo;
        ghost var w := V();
        FlushVsid(e);
        KeysOfEntsMore(v, ents.Keys - todo, e, w, V());
        assert ents.Keys - (todo - {e}) == ents.Keys - todo + {e};
        todo := todo - {e};
      }
      assert ents.Keys - todo == ents.Keys;
      AllEnts(old(mem), ents.Keys);
    }

    /** do_kfree: all chunks go, and with them all but the resident records. */
    method FreeChunks()
      requires Ok() && forall e :: e in mem.lev2 ==> mem.lev2[e] == NoTables()
      modifies this`mem, this`ents
      ensures Ok() && V() == old(V()) && ents == map[]
      ensures mem.own.Keys == mem.lvRing.Keys && forall h :: h in mem.lvRing ==> IdleHead(mem, h)
      ensures mem.freePents == Null && mem.freeTables == Null
    {
      hide Valid, RangesOk, Tab, Keep, NoTables, IdleHead;
      ghost var m0 := mem;
      NoTablesAtAll(mem);
      var heads := set n | n in mem.pent && mem.pent[n].lvHead;
      HeadsByFlag(mem, heads);
      KeepIs(m0, heads);
      mem := Mem(map n | n in mem.eaNext && n in heads :: mem.eaNext[n],
                 map n | n in mem.lvNext && n in heads :: mem.lvNext[n],
                 map n | n in mem.pent && n in heads :: mem.pent[n], Null, Null, map[],
                 map[], Keep(mem.own, heads), mem.lvRing, Keep(mem.lvOwn, heads), [], [], map[], map[]);
      ents := map[];
      ChunksDroppedKeeps(m0, mem);
      NothingLeft(m0);
      HeadsAlone(mem);
    }

    /** mtable_memory_check, given the chunks the allocator would hand out, if any: on
        success both free lists are non-empty, which is all that the next insertion
        needs; on failure everything is cleared. */
    method MemoryCheck(tabs: seq<nat>, recs: seq<nat>) returns (failed: bool)
      requires Ok() && Distinct(tabs) && Distinct(recs)
      requires forall h :: h in mem.eaNext && h.Slot? ==> h.tab !in tabs
      requires forall h :: h in mem.eaNext && h.Rec? ==> h.id !in recs
      modifies this`mem, this`hash, this`tlb, this`ents
      ensures Ok()
      ensures !failed ==> mem.freePents != Null && mem.freeTables != Null && V() == old(V()) && ents == old(ents)
      ensures failed ==> V() == FlushKeys(old(V()), old(V()).tab.Keys) && ents == map[]
      ensures failed <==> (old(mem).freePents == Null && recs == []) || (old(mem).freeTables == Null && tabs == [])
    {
      hide Valid, RangesOk, Tab, FlushKeys;
      if mem.freePents != Null && mem.freeTables != Null {
        return false;
      }
      if mem.freeTables == Null && tabs != [] {
        Lev2Alloc(tabs);
      }
      if mem.freePents == Null && recs != [] {
        PentAlloc(recs);
      }
      if mem.freePents == Null || mem.freeTables == Null {
        ClearAllVsids();
        return true;
      }
      return false;
    }

    /** A zeroed chunk of level-2 tables is chained in front of the free ones. */
    method Lev2Alloc(ts: seq<nat>)
      requires Ok() && ts != [] && Distinct(ts)
      requires forall h :: h in mem.eaNext && h.Slot? ==> h.tab !in ts
      modifies this`mem
      ensures Ok() && V() == old(V()) && mem.freeTables != Null && mem.freePents == old(mem).freePents
      ensures forall h :: h in mem.eaNext && h.Rec? ==> h in old(mem).eaNext
    {
      hide Valid, RangesOk, Tab, TablesAdded;
      ghost var m0 := mem;
      var next := ChainTables(mem.eaNext, ts, mem.freeTables);
      Lev2Chained(mem, ts, next);
      mem := mem.(eaNext := next, freeTables := Slot(ts[0], 0), freeTabs := ts + mem.freeTabs);
      TablesAddedKeeps(m0, {}, ts, mem);
    }

    /** A zeroed chunk of records is chained in front of the free list. */
    method PentAlloc(ids: seq<nat>)
      requires Ok() && ids != [] && Distinct(ids)
      requires forall h :: h in mem.eaNext && h.Rec? ==> h.id !in ids
      modifies this`mem
      ensures Ok() && V() == old(V()) && mem.freePents != Null && mem.freeTables == old(mem).freeTables
    {
      hide Valid, RangesOk, Tab, RecordsAdded, Extend;
      ghost var m0 := mem;
      PentAllocFacts(mem, ids);
      var next, lv, pent := ChainRecords(mem.eaNext, mem.lvNext, mem.pent, ids, mem.freePents);
      PentChained(mem, ids, next, lv, pent);
      mem := mem.(eaNext := next, lvNext := lv, pent := pent, freePents := Rec(ids[0]),
                  own := Extend(mem.own, Members(RecsOf(ids)), Null),
                  lvOwn := Extend(mem.lvOwn, Members(RecsOf(ids)), Null),
                  free := RecsOf(ids) + mem.free);
      RecordsAddedKeeps(m0, {}, RecsOf(ids), mem);
    }

    /** mtable_reclaim: gives back empty level-2 tables, and drops exactly those
        entries that have no record and that nothing refers to. */
    method Reclaim(inUse: set<nat>)
      requires Ok()
      modifies this`mem, this`ents
      ensures Ok() && V() == old(V()) && ents.Keys <= old(ents).Keys
      ensures forall e :: e in old(ents) ==>
                (e !in ents <==> KeysOfEnt(V().tab, e) == {} && e !in inUse)
      ensures forall e :: e in ents ==> ents[e] == old(ents)[e]
    {
      hide Valid, RangesOk, Tab, KeysOfEnt;
      var todo := ents.Keys;
      ghost var v := V();
      while todo != {}
        invariant Ok() && V() == v && todo <= ents.Keys <= old(ents).Keys
        invariant forall e :: e in old(ents) && e !in todo ==>
                    (e !in ents <==> KeysOfEnt(v.tab, e) == {} && e !in inUse)
        invariant forall e :: e in ents ==> ents[e] == old(ents)[e]
        decreases |todo|
      {
        var e :| e in todo;
        var empty := ReclaimTables(e);
        if empty && e !in inUse {
          ghost var m0 := mem;
          mem := mem.(lev2 := mem.lev2 - {e});
          ents := ents - {e};
          EntDropped(m0, {}, e, mem);
        }
        todo := todo - {e};
      }
    }

    /** Frees the empty level-2 tables of an entry up to the first that is not. */
    method ReclaimTables(e: nat) returns (empty: bool)
      requires Ok() && e in mem.lev2
      modifies this`mem
      ensures Ok() && V() == old(V()) && mem.lev2.Keys == old(mem).lev2.Keys
      ensures empty <==> KeysOfEnt(V().tab, e) == {}
      ensures empty ==> |mem.lev2[e]| == 64 && forall j :: 0 <= j < 64 ==> mem.lev2[e][j] == Null
    {
      hide Valid, RangesOk, Tab, KeysOfEnt;
      var i := 0;
      ghost var v := V();
      while i < 64
        invariant Ok() && V() == v && i <= 64 && e in mem.lev2 && mem.lev2.Keys == old(mem).lev2.Keys
        invariant forall j :: 0 <= j < i && j < |mem.lev2[e]| ==> mem.lev2[e][j] == Null
      {
        Lev2Row(mem, {}, e);
        var t := mem.lev2[e][i];
        if t != Null {
          var full := SlotsAllNull(e, i);
          if !full {
            return false;
          }
          FreeTable(e, i);
        }
        i := i + 1;
      }
      Lev2Row(mem, {}, e);
      NoTablesNoKeys(mem, e);
      return true;
    }

    /** Are the 32 slots of a level-2 table NULL? */
    method SlotsAllNull(e: nat, i: nat) returns (all: bool)
      requires Ok() && e in mem.lev2 && i < |mem.lev2[e]| && mem.lev2[e][i] != Null
      ensures mem.lev2[e][i].Slot?
      ensures all ==>
                forall j :: 0 <= j < 32 ==>
                  Slot(mem.lev2[e][i].tab, j) in mem.eaRing && mem.eaRing[Slot(mem.lev2[e][i].tab, j)] == []
      ensures !all ==> KeysOfEnt(V().tab, e) != {}
    {
      hide Valid, RangesOk, Tab, KeysOfEnt;
      TableAt(mem, e, i);
      var t := mem.lev2[e][i].tab;
      var j := 0;
      while j < 32
        invariant j <= 32 && forall x :: 0 <= x < j ==> mem.eaRing[Slot(t, x)] == []
      {
        EmptySlot(mem, {}, Slot(t, j));
        if mem.eaNext[Slot(t, j)] != Null {
          SlotInUse(mem, e, i, j);
          return false;
        }
        j := j + 1;
      }
      return true;
    }

    /** A record that was on an ea ring becomes an idle lv head or goes on the free
        list, leaving its lv ring if it is on one. */
    method ReleaseRecord(pr: Node, word: Pent)
      requires Valid(mem, {pr}) && pr in mem.lvNext && pr in mem.lvOwn
      requires word.lvHead <==> pr.Head?
      requires pr.Rec? ==> (mem.lvNext[pr] == Null <==> mem.lvOwn[pr] == Null)
      modifies this`mem
      ensures Valid(mem, {}) && Tab(mem) == Tab(old(mem))
      ensures SameShape(old(mem), mem) && mem.eaRing == old(mem).eaRing
      ensures forall x :: x in old(mem).pent && x != pr ==> x in mem.pent && mem.pent[x] == old(mem).pent[x]
    {
      hide Valid, Tab, EaSide, LvSide, Flags, EaRings, LvRings, Without;
      ValidParts(mem, {pr});
      LimboMembers(mem, {pr});
      ghost var m0 := mem;
      assert {pr} - {pr} == {};
      if word.lvHead {
        mem := mem.(pent := mem.pent[pr := IDLE]);
        PentSet(m0, {pr}, pr, IDLE, mem);
      } else {
        if mem.lvNext[pr] != Null {
          ghost var h, k;
          var lvp;
          lvp, h, k := LvPrev(pr);
          mem := mem.(lvNext := mem.lvNext[lvp := mem.lvNext[pr]],
                      lvRing := mem.lvRing[h := Without(mem.lvRing[h], k)], lvOwn := mem.lvOwn[pr := Null]);
          LvDropped(m0, {pr}, h, k, mem);
        }
        ghost var m1 := mem;
        mem := mem.(lvNext := mem.lvNext[pr := mem.freePents], freePents := pr, free := [pr] + mem.free);
        Freed(m1, {pr}, pr, mem);
      }
    }
  }

  // --------------------------------------------------------- records of one page

  /** The head record of a page. */
  function HeadOf(id: LvId): Node {
    Head(id.rng, id.idx)
  }

  /** The records of a page are its head and the members of its lv ring. */
  lemma LvKeys(m: Mem, limbo: set<Node>, id: LvId)
    requires Valid(m, limbo) && HeadOf(id) in m.lvRing
    ensures forall k :: k in Tab(m) && Tab(m)[k].lv == Some(id) ==>
              k in m.rec && m.rec[k] in m.own && m.own[m.rec[k]] != Null
              && (m.rec[k] == HeadOf(id) || m.rec[k] in m.lvRing[HeadOf(id)])
  {
    hide EaRings, Keyed, FreeTables, Lev2Tables, LvRings, FreeList, Roles, Unlisted, Flags;
    KeyedMembers(m.own, m.pent, m.place, m.rec);
    LvRingsMembers(m.lvNext, m.lvRing, m.lvOwn);
  }

  /** A member of an lv ring that is not in limbo is on an ea ring, as a record of
      the page. */
  lemma LvMember(m: Mem, limbo: set<Node>, id: LvId, i: nat)
    requires Valid(m, limbo) && HeadOf(id) in m.lvRing && i < |m.lvRing[HeadOf(id)]|
    requires m.lvRing[HeadOf(id)][i] !in limbo
    ensures var n := m.lvRing[HeadOf(id)][i];
            && n in m.own && m.own[n] != Null && n in m.pent && HasKey(n, m.own, m.pent, m.place)
            && var key := KeyOf(n, m.own, m.pent, m.place);
            key in Tab(m) && Tab(m)[key] == Entry(m.pent[n].index, Some(id))
  {
    hide EaRings, Keyed, FreeTables, Lev2Tables, LvRings, LvRing, FreeList, Unlisted, Flags, TabOf, NoDup, KeyOf;
    hide HasKey;
    var n := m.lvRing[HeadOf(id)][i];
    LvRingShape(m.lvNext, m.lvRing, m.lvOwn, HeadOf(id));
    KeyedMembers(m.own, m.pent, m.place, m.rec);
    TabRemove(m.own, m.pent, m.place, m.rec, m.lvOwn, n, m.pent);
  }

  /** Links of an lv ring, read in order. */
  lemma LvStep(m: Mem, limbo: set<Node>, h: Node, i: nat)
    requires Valid(m, limbo) && h in m.lvRing && i <= |m.lvRing[h]|
    ensures h.Head? && h in m.lvNext && h in m.own && h in m.pent && h in m.lvOwn
    ensures var r := m.lvRing[h];
            && Before(h, r, i) in m.lvNext && m.lvNext[Before(h, r, i)] == (if i < |r| then r[i] else h)
            && (i < |r| ==> r[i] != h && r[i].Rec?)
    ensures forall j :: 0 <= j < |m.lvRing[h]| && i < |m.lvRing[h]| && j != i ==> m.lvRing[h][j] != m.lvRing[h][i]
  {
    hide EaRings, Keyed, FreeTables, Lev2Tables, LvRings, LvRing, FreeList, Unlisted;
    var r := m.lvRing[h];
    LvRingShape(m.lvNext, m.lvRing, m.lvOwn, h);
    if i < |r| {
      LvAt(m.lvNext, h, r, i);
    } else if r != [] {
      LvAt(m.lvNext, h, r, i - 1);
    } else {
      LvEmpty(m.lvNext, h, r);
    }
  }

  lemma LvEmpty(next: Links, h: Node, r: seq<Node>)
    requires LvRing(next, h, r) && r == []
    ensures h in next && next[h] == h
  {
  }

  /** The first i members of a ring. */
  ghost function Front(r: seq<Node>, i: nat): set<Node>
    requires i <= |r|
  {
    set x | x in r[..i]
  }

  lemma FrontNone(r: seq<Node>)
    ensures Front(r, 0) == {}
  {
  }

  lemma FrontNot(r: seq<Node>, i: nat)
    requires i < |r| && forall j :: 0 <= j < |r| && j != i ==> r[j] != r[i]
    ensures r[i] !in Front(r, i)
  {
  }

  lemma FlushLvMore(v: View, done: set<Key>, key: Key, w: View, w': View, id: LvId)
    requires w == FlushKeys(v, done) && done <= KeysOfLv(v.tab, id)
    requires key in w.tab && w.tab[key].lv == Some(id) && w' == FlushKeys(w, {key})
    ensures w' == FlushKeys(v, done + {key}) && done + {key} <= KeysOfLv(v.tab, id)
  {
    FlushTwice(v, done, {key});
  }

  lemma FrontMore(r: seq<Node>, i: nat)
    requires i < |r|
    ensures Front(r, i + 1) == Front(r, i) + {r[i]}
  {
    assert r[..i + 1] == r[..i] + [r[i]];
  }

  /** Unlinking a record is a flush of its key. */
  lemma UnlinkedFlush(m: Mem, limbo: set<Node>, h: Node, k: nat, m': Mem, v: View, v': View)
    requires Valid(m, limbo) && Unlinked(m, h, k, m') && v.tab == Tab(m)
    requires h in m.eaRing && k < |m.eaRing[h]|
    requires var n := m.eaRing[h][k];
             && n in m.pent && HasKey(n, m.own, m.pent, m.place)
             && v' == View(Tab(m'), v.hash - {m.pent[n].index},
                           Tlbie(v.tlb, TlbBits(KeyOf(n, m.own, m.pent, m.place).page)))
    ensures Valid(m', limbo + {m.eaRing[h][k]}) && SameShape(m, m') && m'.lvRing == m.lvRing && m'.free == m.free
    ensures v' == FlushKeys(v, {KeyOf(m.eaRing[h][k], m.own, m.pent, m.place)})
  {
    hide EaSide, LvSide, Flags, Unlinked, HasKey, KeyOf, Tab, LvOf, FlushKeys, Tlbie, TlbBits, Without;
    UnlinkedEaSide(m, h, k, m');
    UnlinkedKeeps(m, limbo, h, k, m');
    UnlinkedFrame(m, h, k, m');
    FlushOne(v, KeyOf(m.eaRing[h][k], m.own, m.pent, m.place), v');
  }

  /** The unlinking of a record does not look at lv links. */
  lemma UnlinkedLvLinks(m: Mem, h: Node, k: nat, m': Mem, lvNext: Links, freePents: Node)
    requires Unlinked(m, h, k, m')
    ensures Unlinked(m.(lvNext := lvNext, freePents := freePents), h, k, m'.(lvNext := lvNext, freePents := freePents))
    ensures Tab(m'.(lvNext := lvNext, freePents := freePents)) == Tab(m')
  {
  }

  lemma EaSideLvLinks(m: Mem, lvNext: Links, freePents: Node)
    requires EaSide(m)
    ensures EaSide(m.(lvNext := lvNext, freePents := freePents))
    ensures Tab(m.(lvNext := lvNext, freePents := freePents)) == Tab(m)
  {
  }

  /** The head of a page is idle exactly when it is on no ea ring. */
  lemma HeadState(m: Mem, limbo: set<Node>, id: LvId)
    requires Valid(m, limbo) && HeadOf(id) in m.lvRing && HeadOf(id) !in limbo
    ensures var h := HeadOf(id);
            && h in m.pent && h in m.own && h in m.lvNext
            && (m.pent[h].unused <==> m.own[h] == Null)
            && (m.own[h] != Null ==>
                  && HasKey(h, m.own, m.pent, m.place)
                  && var key := KeyOf(h, m.own, m.pent, m.place);
                  key in Tab(m) && Tab(m)[key] == Entry(m.pent[h].index, Some(id)))
  {
    hide EaRings, Keyed, FreeTables, Lev2Tables, LvRings, FreeList, Unlisted, TabOf, KeyOf, HasKey;
    var h := HeadOf(id);
    if m.own[h] != Null {
      TabRemove(m.own, m.pent, m.place, m.rec, m.lvOwn, h, m.pent);
    }
  }

  ghost function Unlist(lvOwn: Links, r: seq<Node>): Links {
    map n | n in lvOwn :: if n in r then Null else lvOwn[n]
  }

  /** The members are not the head. */
  lemma FrontHeadless(m: Mem, limbo: set<Node>, r: seq<Node>, id: LvId)
    requires Valid(m, limbo) && HeadOf(id) in m.lvRing && r == m.lvRing[HeadOf(id)]
    requires limbo == Front(r, |r|)
    ensures HeadOf(id) !in limbo
    ensures forall x :: x in limbo <==> x in r
  {
    hide EaSide, Flags, FreeList, Roles, Unlisted, LvRings, LvRing;
    LvRingShape(m.lvNext, m.lvRing, m.lvOwn, HeadOf(id));
    assert r[..|r|] == r;
  }

  /** The last writes of flush_lvptr_: members on the free list, head idle and alone. */
  lemma SettleHead(m: Mem, limbo: set<Node>, id: LvId, m': Mem)
    requires Valid(m, limbo) && HeadOf(id) in m.lvRing && HeadOf(id) in m.own && m.own[HeadOf(id)] == Null
    requires var h := HeadOf(id); var r := m.lvRing[h];
             && (forall x :: x in limbo - {h} <==> x in r)
             && m' == m.(pent := m.pent[h := IDLE],
                         lvNext := (if r == [] then m.lvNext else m.lvNext[r[|r| - 1] := m.freePents])[h := h],
                         freePents := if r == [] then m.freePents else r[0],
                         lvRing := m.lvRing[h := []], lvOwn := Unlist(m.lvOwn, r), free := r + m.free)
    ensures Valid(m', {}) && Tab(m') == Tab(m) && SameShape(m, m')
    ensures HeadOf(id) in m'.lvRing && m'.lvRing[HeadOf(id)] == [] && HeadOf(id) in m'.own && m'.own[HeadOf(id)] == Null
  {
    hide Valid, Tab;
    var h := HeadOf(id);
    var r := m.lvRing[h];
    var ma := m.(pent := m.pent[h := IDLE]);
    HeadTaken(m, limbo, h, IDLE, ma);
    PentSet(ma, limbo + {h}, h, IDLE, ma.(pent := ma.pent[h := IDLE]));
    assert ma.pent[h := IDLE] == ma.pent;
    assert limbo + {h} - {h} == limbo - {h};
    if r == [] {
      LvStep(m, limbo, h, 0);
      assert m.lvNext[h := h] == m.lvNext;
      assert m.lvRing[h := []] == m.lvRing;
      assert Unlist(m.lvOwn, r) == m.lvOwn;
      assert m' == ma;
      assert limbo - {h} == {};
    } else {
      Spliced(ma, limbo - {h}, h, m');
      assert limbo - {h} - (set x | x in r) == {};
    }
  }

  /** With the head idle and alone, the page has no records. */
  lemma LvDone(m: Mem, id: LvId, v: View, done: set<Key>, w: View)
    requires Valid(m, {}) && HeadOf(id) in m.lvRing && m.lvRing[HeadOf(id)] == []
    requires HeadOf(id) in m.own && m.own[HeadOf(id)] == Null
    requires w == FlushKeys(v, done) && w.tab == Tab(m) && done <= KeysOfLv(v.tab, id)
    ensures done == KeysOfLv(v.tab, id)
  {
    hide Valid, Tab;
    LvKeys(m, {}, id);
    assert forall k :: k in Tab(m) ==> Tab(m)[k].lv != Some(id);
    assert forall k :: k in w.tab ==> w.tab[k] == v.tab[k];
    assert forall k :: k in v.tab ==> k in done || k in w.tab;
  }

  // ------------------------------------------------------- records of one address

  /** The slot that an address of an entry goes through. */
  ghost predicate AtEa(m: Mem, e: nat, page: nat, h: Node) {
    && e in m.lev2 && Lev2Ind(page) < |m.lev2[e]| && m.lev2[e][Lev2Ind(page)].Slot?
    && h == Slot(m.lev2[e][Lev2Ind(page)].tab, PelistInd(page))
  }

  lemma Lev2Row(m: Mem, limbo: set<Node>, e: nat)
    requires Valid(m, limbo) && e in m.lev2
    ensures |m.lev2[e]| == 64
  {
    hide EaRings, Keyed, FreeTables, LvSide, Flags;
  }

  /** The records of an address are on the ring of its slot. */
  lemma EaKeys(m: Mem, limbo: set<Node>, e: nat, page: nat)
    requires Valid(m, limbo) && e in m.lev2 && page < 0x10000
    ensures Lev2Ind(page) < |m.lev2[e]|
    ensures var t := m.lev2[e][Lev2Ind(page)];
            forall k :: k in Tab(m) && k.ent == e && k.page == page ==>
              && t.Slot? && k in m.rec
              && Slot(t.tab, PelistInd(page)) in m.eaRing
              && m.rec[k] in m.eaRing[Slot(t.tab, PelistInd(page))]
              && m.rec[k] in m.pent && m.pent[m.rec[k]].topea == TopEa(page)
  {
    hide EaRings, Keyed, FreeTables, LvSide, Flags, TlbBits, TopEa, Lev2Ind, PelistInd, PageOf;
    PageSplits(page);
    EaRingsMembers(m.eaNext, m.pent, m.eaRing, m.own);
    forall k | k in Tab(m) && k.ent == e && k.page == page
      ensures var t := m.lev2[e][Lev2Ind(page)];
              && t.Slot? && k in m.rec
              && Slot(t.tab, PelistInd(page)) in m.eaRing
              && m.rec[k] in m.eaRing[Slot(t.tab, PelistInd(page))]
              && m.rec[k] in m.pent && m.pent[m.rec[k]].topea == TopEa(page)
    {
      KeyedBack(m.own, m.pent, m.place, m.rec, k);
      var n := m.rec[k];
      KeyedOne(m.own, m.pent, m.place, m.rec, n);
      PageJoins(m.pent[n].topea, m.place[m.own[n].tab].l2, m.own[n].ind);
    }
  }

  /** The slot of an address, and what an empty one means. */
  lemma EaTable(m: Mem, limbo: set<Node>, e: nat, page: nat)
    requires Valid(m, limbo) && e in m.lev2 && page < 0x10000
    ensures Lev2Ind(page) < |m.lev2[e]|
    ensures var t := m.lev2[e][Lev2Ind(page)];
            && (t == Null ==> KeysOfEa(Tab(m), e, page) == {})
            && (t != Null ==>
                  && t.Slot? && AtEa(m, e, page, Slot(t.tab, PelistInd(page)))
                  && var h := Slot(t.tab, PelistInd(page));
                  && h in m.eaRing && h in m.eaNext && (m.eaNext[h] == Null <==> m.eaRing[h] == [])
                  && (m.eaRing[h] == [] ==> KeysOfEa(Tab(m), e, page) == {}))
  {
    hide EaRings, Keyed, FreeTables, LvSide, Flags, TlbBits, TopEa, Lev2Ind, PelistInd, PageOf, Tab;
    PageSplits(page);
    EaKeys(m, limbo, e, page);
    var t := m.lev2[e][Lev2Ind(page)];
    if t != Null {
      EaRingsEmptySlot(m.eaNext, m.pent, m.eaRing, m.own, Slot(t.tab, PelistInd(page)));
    }
  }

  lemma EaFirst(m: Mem, limbo: set<Node>, h: Node)
    requires Valid(m, limbo) && h in m.eaRing && m.eaRing[h] != []
    ensures h in m.eaNext && m.eaNext[h] == m.eaRing[h][0]
  {
    hide EaRings, EaRing;
    EaRingShape(m.eaNext, m.pent, m.eaRing, m.own, h);
    EaBeforeAt(m.eaNext, m.pent, h, m.eaRing[h], 0);
  }

  lemma EaStep(m: Mem, limbo: set<Node>, h: Node, k: nat)
    requires Valid(m, limbo) && h in m.eaRing && k < |m.eaRing[h]|
    ensures var r := m.eaRing[h];
            && r[k] in m.eaNext && r[k] in m.pent && (m.pent[r[k]].eaLast <==> k == |r| - 1)
            && m.eaNext[r[k]] == (if k + 1 < |r| then r[k + 1] else h)
            && r[k] in m.own && m.own[r[k]] == h
    ensures forall i :: 0 <= i < |m.eaRing[h]| && i != k ==> m.eaRing[h][i] != m.eaRing[h][k]
  {
    hide EaRings, EaRing, Keyed, Lev2Tables, FreeTables, LvSide, Flags;
    EaRingShape(m.eaNext, m.pent, m.eaRing, m.own, h);
    EaAt(m.eaNext, m.pent, h, m.eaRing[h], k);
  }

  lemma EaKeyHere(m: Mem, limbo: set<Node>, e: nat, page: nat, h: Node, k: nat)
    requires Valid(m, limbo) && page < 0x10000 && AtEa(m, e, page, h) && h in m.eaRing && k < |m.eaRing[h]|
    requires m.eaRing[h][k] in m.pent && m.pent[m.eaRing[h][k]].topea == TopEa(page)
    ensures var n := m.eaRing[h][k];
            HasKey(n, m.own, m.pent, m.place) && KeyOf(n, m.own, m.pent, m.place) == Key(e, page, m.pent[n].sv)
  {
    hide EaRings, EaRing, Keyed, FreeTables, LvSide, Flags, TlbBits, TopEa, Lev2Ind, PelistInd, PageOf;
    EaRingShape(m.eaNext, m.pent, m.eaRing, m.own, h);
    KeyedOne(m.own, m.pent, m.place, m.rec, m.eaRing[h][k]);
    PageSplits(page);
  }

  lemma SlotsOfNone(tab: map<Key, Entry>)
    ensures SlotsOf(tab, {}) == {}
  {
  }

  /** One more record of the address has gone. */
  lemma FlushMore(tab: map<Key, Entry>, hash: map<nat, Trans>, done: set<Key>, key: Key, e: nat, page: nat)
    requires key in tab && key.ent == e && key.page == page && done <= KeysOfEa(tab, e, page)
    ensures done + {key} <= KeysOfEa(tab, e, page)
    ensures tab - done - {key} == tab - (done + {key})
    ensures hash - SlotsOf(tab, done) - {tab[key].slot} == hash - SlotsOf(tab, done + {key})
  {
    assert SlotsOf(tab, done + {key}) == SlotsOf(tab, done) + {tab[key].slot} by {
      assert key in done + {key};
    }
  }

  lemma WithoutAt(r: seq<Node>, k: nat)
    requires k < |r|
    ensures |Without(r, k)| == |r| - 1
    ensures forall i :: 0 <= i < k ==> Without(r, k)[i] == r[i]
    ensures k + 1 < |r| ==> Without(r, k)[k] == r[k + 1]
  {
  }

  /** No record of the address is left once none on the ring carries its top bits. */
  lemma EaDone(m: Mem, tab: map<Key, Entry>, done: set<Key>, e: nat, page: nat, h: Node)
    requires Valid(m, {}) && e in m.lev2 && page < 0x10000 && AtEa(m, e, page, h) && h in m.eaRing
    requires Tab(m) == tab - done && done <= KeysOfEa(tab, e, page)
    requires forall i :: 0 <= i < |m.eaRing[h]| ==>
               m.eaRing[h][i] in m.pent && m.pent[m.eaRing[h][i]].topea != TopEa(page)
    ensures done == KeysOfEa(tab, e, page)
  {
    hide Valid, Tab, TopEa, Lev2Ind, PelistInd;
    EaKeys(m, {}, e, page);
    assert forall k :: k in Tab(m) ==> !(k.ent == e && k.page == page);
  }

  /** Putting it together: the walk and the tlbie at its end are one flush. */
  lemma FlushedEa(v: View, e: nat, page: nat, worked: bool, v': View)
    requires v'.tab == v.tab - KeysOfEa(v.tab, e, page)
    requires v'.hash == v.hash - SlotsOf(v.tab, KeysOfEa(v.tab, e, page))
    requires worked <==> KeysOfEa(v.tab, e, page) != {}
    requires v'.tlb == if worked then Tlbie(v.tlb, TlbBits(page)) else v.tlb
    ensures v' == FlushKeys(v, KeysOfEa(v.tab, e, page))
  {
    var ks := KeysOfEa(v.tab, e, page);
    if worked {
      var k :| k in ks;
      assert HitBits(v.tab, ks, TlbBits(page));
    }
    assert v'.tlb == FlushKeys(v, ks).tlb;
  }

  // ---------------------------------------------------------- ranges of addresses

  ghost function KeysBetween(tab: map<Key, Entry>, e: nat, start: nat, end: nat): set<Key> {
    set k | k in tab && k.ent == e && start <= k.page < end
  }

  lemma KeysBetweenNone(v: View, e: nat, start: nat, end: nat)
    ensures v == FlushKeys(v, KeysBetween(v.tab, e, start, if start < end then start else end))
  {
    FlushNone(v);
    assert KeysBetween(v.tab, e, start, if start < end then start else end) == {};
  }

  lemma PageFlushed(v: View, e: nat, start: nat, p: nat, w: View, w': View)
    requires start <= p && w == FlushKeys(v, KeysBetween(v.tab, e, start, p)) &&
             w' == FlushKeys(w, KeysOfEa(w.tab, e, p))
    ensures w' == FlushKeys(v, KeysBetween(v.tab, e, start, p + 1))
  {
    var a := KeysBetween(v.tab, e, start, p);
    var b := KeysOfEa(w.tab, e, p);
    FlushTwice(v, a, b);
    assert a + b == KeysBetween(v.tab, e, start, p + 1);
  }

  lemma SkipPages(v: View, e: nat, start: nat, p: nat, q: nat, w: View)
    requires start <= p <= q && w == FlushKeys(v, KeysBetween(v.tab, e, start, p))
    requires KeysBetween(w.tab, e, p, q) == {}
    ensures w == FlushKeys(v, KeysBetween(v.tab, e, start, q))
  {
    forall k | k in KeysBetween(v.tab, e, start, q)
      ensures k in KeysBetween(v.tab, e, start, p)
    {
      assert k !in KeysBetween(w.tab, e, p, q);
    }
    assert KeysBetween(v.tab, e, start, q) == KeysBetween(v.tab, e, start, p);
  }

  lemma NoTableNoKeys(m: Mem, e: nat, p: nat, q: nat)
    requires Valid(m, {}) && e in m.lev2 && p < 0x10000 && q <= p / 32 * 32 + 32
    requires Lev2Ind(p) < |m.lev2[e]| && m.lev2[e][Lev2Ind(p)] == Null
    ensures KeysBetween(Tab(m), e, p, q) == {}
  {
    hide Valid, Tab;
    forall k | k in Tab(m) && k.ent == e && p <= k.page < q
      ensures false
    {
      assert k.page / 32 == p / 32;
      EaKeys(m, {}, e, k.page);
    }
  }

  // -------------------------------------------------------------- ranges of pages

  lemma NoLvs(v: View, ranges: seq<LvRange>, base: nat)
    ensures v == FlushKeys(v, KeysOfLvs(v.tab, LvsBetween(ranges, base, 0)))
  {
    FlushNone(v);
    assert KeysOfLvs(v.tab, LvsBetween(ranges, base, 0)) == {};
  }

  lemma MoreLvs(v: View, ranges: seq<LvRange>, base: nat, i: nat, w: View, w': View)
    requires w == FlushKeys(v, KeysOfLvs(v.tab, LvsBetween(ranges, base, i)))
    requires w' == FlushedAt(w, ranges, base + i * 0x1000)
    ensures w' == FlushKeys(v, KeysOfLvs(v.tab, LvsBetween(ranges, base, i + 1)))
  {
    hide FlushKeys, Locate;
    var id := Locate(ranges, base + i * 0x1000);
    var a := KeysOfLvs(v.tab, LvsBetween(ranges, base, i));
    if id.Some? {
      assert LvsBetween(ranges, base, i + 1) == LvsBetween(ranges, base, i) + {id.value};
      FlushTwice(v, a, KeysOfLv(w.tab, id.value));
      FlushedTab(v, a);
      assert a + KeysOfLv(w.tab, id.value) == KeysOfLvs(v.tab, LvsBetween(ranges, base, i + 1));
    } else {
      assert LvsBetween(ranges, base, i + 1) == LvsBetween(ranges, base, i);
    }
  }

  lemma FlushedTab(v: View, ks: set<Key>)
    ensures FlushKeys(v, ks).tab == v.tab - ks
  {
  }

  lemma HeadsMore(m: Mem, rng: nat, i: nat)
    ensures Extend(m.eaNext, HeadsOf(rng, i), Null)[Head(rng, i) := Null] == Extend(m.eaNext, HeadsOf(rng, i + 1), Null)
    ensures ExtendSelf(m.lvNext, HeadsOf(rng, i))[Head(rng, i) := Head(rng, i)] ==
              ExtendSelf(m.lvNext, HeadsOf(rng, i + 1))
    ensures Extend(m.pent, HeadsOf(rng, i), IDLE)[Head(rng, i) := IDLE] == Extend(m.pent, HeadsOf(rng, i + 1), IDLE)
  {
    assert HeadsOf(rng, i + 1) == HeadsOf(rng, i) + {Head(rng, i)};
    hide HeadsOf, Extend, ExtendSelf;
    ExtendMore(m.eaNext, HeadsOf(rng, i), Head(rng, i), Null);
    ExtendMore(m.pent, HeadsOf(rng, i), Head(rng, i), IDLE);
    ExtendSelfMore(m.lvNext, HeadsOf(rng, i), Head(rng, i));
  }

  lemma HeadsNone(m: Mem, rng: nat)
    ensures Extend(m.eaNext, HeadsOf(rng, 0), Null) == m.eaNext
    ensures ExtendSelf(m.lvNext, HeadsOf(rng, 0)) == m.lvNext
    ensures Extend(m.pent, HeadsOf(rng, 0), IDLE) == m.pent
  {
    assert HeadsOf(rng, 0) == {};
  }

  lemma ExtendMore<V>(m: map<Node, V>, ks: set<Node>, k: Node, v: V)
    ensures Extend(m, ks, v)[k := v] == Extend(m, ks + {k}, v)
  {
  }

  lemma ExtendSelfMore(m: Links, ks: set<Node>, k: Node)
    ensures ExtendSelf(m, ks)[k := k] == ExtendSelf(m, ks + {k})
  {
  }

  lemma RangeAdded(ranges: seq<LvRange>, heads: set<Node>, r: LvRange)
    requires RangesOk(ranges, heads) && r.size % 0x1000 == 0
    requires forall h :: h in heads && h.Head? ==> h.rng != r.rng
    requires forall i :: 0 <= i < |ranges| ==> ranges[i].rng != r.rng
    ensures RangesOk([r] + ranges, heads + HeadsOf(r.rng, r.size / 0x1000))
  {
    hide HeadsOf;
    HeadsOfMembers(r.rng, r.size / 0x1000);
    var w := [r] + ranges;
    assert forall i :: 0 < i < |w| ==> w[i] == ranges[i - 1];
    forall h | h in heads
      ensures exists i :: 0 <= i < |w| && w[i].rng == h.rng && h.idx < w[i].size / 0x1000
    {
      var i :| 0 <= i < |ranges| && ranges[i].rng == h.rng && h.idx < ranges[i].size / 0x1000;
      assert w[i + 1].rng == h.rng;
    }
    assert w[0] == r;
  }

  lemma RangeNames(ranges: seq<LvRange>, heads: set<Node>)
    requires RangesOk(ranges, heads)
    ensures NamesApart(ranges)
  {
  }

  lemma RangeSize(ranges: seq<LvRange>, heads: set<Node>, k: nat)
    requires RangesOk(ranges, heads) && k < |ranges|
    ensures ranges[k].size % 0x1000 == 0
    ensures forall i :: 0 <= i < ranges[k].size / 0x1000 ==> Head(ranges[k].rng, i) in heads
  {
  }

  lemma RangeDropped(ranges: seq<LvRange>, heads: set<Node>, k: nat)
    requires RangesOk(ranges, heads) && k < |ranges|
    ensures RangesOk(ranges[..k] + ranges[k + 1..], heads - HeadsOf(ranges[k].rng, ranges[k].size / 0x1000))
    ensures forall h :: h in heads - HeadsOf(ranges[k].rng, ranges[k].size / 0x1000) ==>
              h.Head? && h.rng != ranges[k].rng
  {
    hide HeadsOf;
    HeadsOfMembers(ranges[k].rng, ranges[k].size / 0x1000);
    var w := ranges[..k] + ranges[k + 1..];
    assert forall i :: 0 <= i < |w| ==> w[i] == ranges[if i < k then i else i + 1];
    forall h | h in heads && h !in HeadsOf(ranges[k].rng, ranges[k].size / 0x1000)
      ensures exists i :: 0 <= i < |w| && w[i].rng == h.rng && h.idx < w[i].size / 0x1000
    {
      var i :| 0 <= i < |ranges| && ranges[i].rng == h.rng && h.idx < ranges[i].size / 0x1000;
      assert i != k;
      assert w[if i < k then i else i - 1] == ranges[i];
    }
  }

  /** After its flush a range located by its own addresses has only idle heads. */
  lemma RangeIdle(m: Mem, v: View, ranges: seq<LvRange>, k: nat, w: View)
    requires Valid(m, {}) && k < |ranges| && w.tab == Tab(m)
    requires forall x :: 0 <= x < ranges[k].size / 0x1000 ==> Head(ranges[k].rng, x) in m.lvRing
    requires forall x :: 0 <= x < ranges[k].size / 0x1000 ==>
               Locate(ranges, ranges[k].base + x * 0x1000) == Some(LvId(ranges[k].rng, x))
    requires w == FlushKeys(v, KeysOfLvs(v.tab, LvsBetween(ranges, ranges[k].base, ranges[k].size / 0x1000)))
    ensures forall x :: 0 <= x < ranges[k].size / 0x1000 ==> IdleHead(m, Head(ranges[k].rng, x))
  {
    hide Valid, Tab, Locate, IdleHead;
    var r := ranges[k];
    forall x | 0 <= x < r.size / 0x1000
      ensures IdleHead(m, Head(r.rng, x))
    {
      var id := LvId(r.rng, x);
      assert Locate(ranges, r.base + x * 0x1000).value == id;
      assert id in LvsBetween(ranges, r.base, r.size / 0x1000);
      assert KeysOfLv(w.tab, id) == {};
      IdleWithoutKeys(m, id);
    }
  }

  lemma HeadsAreRanges(m: Mem)
    requires Valid(m, {})
    ensures forall h :: h in m.own && h.Head? ==> h in m.lvRing
    ensures forall h :: h in m.lvRing ==> h in m.own
  {
    hide EaSide, LvRings, FreeList, Unlisted, Flags;
  }

  const NOTHING := Mem(map[], map[], map[], Null, Null, map[], map[], map[], map[], map[], [], [], map[], map[])

  lemma NothingYet()
    ensures Valid(NOTHING, {}) && Tab(NOTHING) == map[] && RangesOk([], {}) && NOTHING.lvRing.Keys == {} &&
            NOTHING.lev2.Keys == {}
  {
    hide EaRings, Keyed, Lev2Tables, FreeTables, FreeList, LvRings, Roles, Unlisted, Flags, RangesOk;
    NothingRecorded(map[], map[], map[]);
    FreeListNone(map[]);
    NoRoles();
    NoRanges();
    var m := NOTHING;
    assert m.eaRing.Keys == {};
    assert EaSide(m);
    assert LvSide(m, {});
  }

  lemma NoRanges()
    ensures RangesOk([], {})
  {
  }

  lemma NoRoles()
    ensures LvRings(map[], map[], map[]) && Roles(map[], map[], map[], [], {}) && Unlisted(map[], map[], map[]) &&
            Flags(map[], map[], {})
  {
  }

  lemma TableAt(m: Mem, e: nat, i: nat)
    requires Valid(m, {}) && e in m.lev2 && i < |m.lev2[e]| && m.lev2[e][i] != Null
    ensures m.lev2[e][i].Slot? && m.lev2[e][i].tab in m.place && m.place[m.lev2[e][i].tab].ent == e
    ensures forall j :: 0 <= j < 32 ==> Slot(m.lev2[e][i].tab, j) in m.eaRing
  {
    hide EaRings, Keyed, FreeTables, LvSide, Flags;
  }

  /** A slot that is not NULL leads to a record of the entry. */
  lemma SlotInUse(m: Mem, e: nat, i: nat, j: nat)
    requires Valid(m, {}) && e in m.lev2 && i < |m.lev2[e]| && m.lev2[e][i].Slot? && j < 32
    requires Slot(m.lev2[e][i].tab, j) in m.eaRing && m.eaRing[Slot(m.lev2[e][i].tab, j)] != []
    ensures KeysOfEnt(Tab(m), e) != {}
  {
    hide EaRings, EaRing, NoDup, Keyed, FreeTables, LvSide, Flags, TabOf, KeyOf, HasKey, KeysOfEnt, Lev2Tables;
    var h := Slot(m.lev2[e][i].tab, j);
    TableAt(m, e, i);
    EaRingShape(m.eaNext, m.pent, m.eaRing, m.own, h);
    var n := m.eaRing[h][0];
    RecordOfEnt(m.own, m.pent, m.place, m.rec, m.lvOwn, n);
  }

  lemma NoTablesNoKeys(m: Mem, e: nat)
    requires Valid(m, {}) && e in m.lev2 && forall i :: 0 <= i < |m.lev2[e]| ==> m.lev2[e][i] == Null
    ensures KeysOfEnt(Tab(m), e) == {}
  {
    hide Valid, Tab;
    EntDropped(m, {}, e, m.(lev2 := m.lev2 - {e}));
  }

  ghost predicate Distinct(s: seq<nat>) {
    forall i, j :: 0 <= i < j < |s| ==> s[i] != s[j]
  }

  lemma Lev2Chained(m: Mem, ts: seq<nat>, next: Links)
    requires ts != [] && Distinct(ts) && forall h :: h in m.eaNext && h.Slot? ==> h.tab !in ts
    requires forall x :: x in m.eaNext ==> x in next && next[x] == m.eaNext[x]
    requires forall t, j :: t in ts && 0 < j < 32 ==> Slot(t, j) in next && next[Slot(t, j)] == Null
    requires Path(next, FirstSlots(ts), m.freeTables)
    ensures TablesAdded(m, ts, m.(eaNext := next, freeTables := Slot(ts[0], 0), freeTabs := ts + m.freeTabs))
  {
    var firsts := FirstSlots(ts);
    assert forall i, j :: 0 <= i < j < |ts| && j == i + 1 ==>
             firsts[i] == Slot(ts[i], 0) && firsts[j] == Slot(ts[j], 0);
  }

  lemma PentAllocFacts(m: Mem, ids: seq<nat>)
    requires Valid(m, {}) && Distinct(ids)
    requires forall h :: h in m.eaNext && h.Rec? ==> h.id !in ids
    ensures NoDup(RecsOf(ids))
    ensures forall x :: x in RecsOf(ids) ==> x.Rec? && x !in m.own && x !in m.eaNext && x !in m.lvNext
    ensures m.own.Keys <= m.eaNext.Keys && m.own.Keys == m.lvNext.Keys && m.own.Keys == m.lvOwn.Keys
  {
    hide EaRings, Keyed, Lev2Tables, FreeTables, LvRings, FreeList, Unlisted, Flags;
  }

  lemma PentChained(m: Mem, ids: seq<nat>, next: Links, lv: Links, pent: Pents)
    requires ids != [] && NoDup(RecsOf(ids)) && forall x :: x in RecsOf(ids) ==> x.Rec? && x !in m.own
    requires m.own.Keys <= m.eaNext.Keys && m.own.Keys == m.lvNext.Keys && m.own.Keys == m.lvOwn.Keys
    requires next.Keys == m.eaNext.Keys + Members(RecsOf(ids)) && forall x :: x in m.eaNext ==> next[x] == m.eaNext[x]
    requires lv.Keys == m.lvNext.Keys + Members(RecsOf(ids)) && forall x :: x in m.lvNext ==> lv[x] == m.lvNext[x]
    requires Path(lv, RecsOf(ids), m.freePents) && pent == Extend(m.pent, Members(RecsOf(ids)), ZEROED)
    ensures RecordsAdded(m, RecsOf(ids), m.(eaNext := next, lvNext := lv, pent := pent, freePents := Rec(ids[0]),
                         own := Extend(m.own, Members(RecsOf(ids)), Null),
                         lvOwn := Extend(m.lvOwn, Members(RecsOf(ids)), Null),
                         free := RecsOf(ids) + m.free))
  {
    hide Extend, Path, NoDup;
    ExtendFacts(m.own, Members(RecsOf(ids)), Null);
  }

  // ------------------------------------------------------------- sets of entries

  ghost function KeysOfPages(tab: map<Key, Entry>, es: set<nat>, start: nat, end: nat): set<Key> {
    set k | k in tab && k.ent in es && start <= k.page < end
  }

  lemma KeysOfPagesNone(v: View, start: nat, end: nat)
    ensures v == FlushKeys(v, KeysOfPages(v.tab, {}, start, end))
  {
    FlushNone(v);
    assert KeysOfPages(v.tab, {}, start, end) == {};
  }

  lemma KeysOfPagesMore(v: View, es: set<nat>, e: nat, start: nat, end: nat, w: View, w': View)
    requires w == FlushKeys(v, KeysOfPages(v.tab, es, start, end)) &&
             w' == FlushKeys(w, KeysBetween(w.tab, e, start, end))
    ensures w' == FlushKeys(v, KeysOfPages(v.tab, es + {e}, start, end))
  {
    var a := KeysOfPages(v.tab, es, start, end);
    var b := KeysBetween(w.tab, e, start, end);
    FlushTwice(v, a, b);
    assert a + b == KeysOfPages(v.tab, es + {e}, start, end);
  }

  ghost function KeysOfEnts(tab: map<Key, Entry>, es: set<nat>): set<Key> {
    set k | k in tab && k.ent in es
  }

  lemma KeysOfEntsNone(tab: map<Key, Entry>)
    ensures KeysOfEnts(tab, {}) == {}
  {
  }

  lemma KeysOfEntsMore(v: View, es: set<nat>, e: nat, w: View, w': View)
    requires w == FlushKeys(v, KeysOfEnts(v.tab, es)) && w' == FlushKeys(w, KeysOfEnt(w.tab, e))
    ensures w' == FlushKeys(v, KeysOfEnts(v.tab, es + {e}))
  {
    var a := KeysOfEnts(v.tab, es);
    var b := KeysOfEnt(w.tab, e);
    FlushTwice(v, a, b);
    assert a + b == KeysOfEnts(v.tab, es + {e});
  }

  /** Every record belongs to an entry. */
  lemma AllEnts(m: Mem, es: set<nat>)
    requires Valid(m, {}) && es == m.lev2.Keys
    ensures KeysOfEnts(Tab(m), es) == Tab(m).Keys
  {
    hide EaRings, Keyed, FreeTables, LvSide, Flags, PageOf;
    forall k | k in Tab(m)
      ensures k.ent in es
    {
      KeyedBack(m.own, m.pent, m.place, m.rec, k);
    }
  }

  lemma NoTablesAtAll(m: Mem)
    requires Valid(m, {}) && forall e :: e in m.lev2 ==> m.lev2[e] == NoTables()
    ensures m.place == map[] && m.eaRing == map[]
  {
    hide EaRings, Keyed, FreeTables, LvSide, Flags;
    assert m.place.Keys == {};
    assert m.eaRing.Keys == {};
  }

  lemma HeadsByFlag(m: Mem, heads: set<Node>)
    requires Valid(m, {}) && heads == set n | n in m.pent && m.pent[n].lvHead
    ensures heads == m.lvRing.Keys
  {
    hide EaSide, LvRings, FreeList, Unlisted;
  }

  lemma KeepIs(m: Mem, ks: set<Node>)
    ensures Keep(m.eaNext, ks) == map n | n in m.eaNext && n in ks :: m.eaNext[n]
    ensures Keep(m.lvNext, ks) == map n | n in m.lvNext && n in ks :: m.lvNext[n]
    ensures Keep(m.pent, ks) == map n | n in m.pent && n in ks :: m.pent[n]
  {
  }

  lemma NothingLeft(m: Mem)
    requires Valid(m, {}) && m.eaRing == map[]
    ensures Tab(m) == map[]
  {
    hide Valid;
    NothingOnRings(m, {});
  }

  lemma HeadsAlone(m: Mem)
    requires Valid(m, {}) && m.eaRing == map[] && forall h :: h in m.lvRing ==> m.lvRing[h] == []
    ensures forall h :: h in m.lvRing ==> IdleHead(m, h)
  {
    hide Valid;
    NothingOnRings(m, {});
    HeadsAreRanges(m);
  }

  /** Every recorded address is a 16-bit page index. */
  lemma AllPages(m: Mem, e: nat)
    requires Valid(m, {})
    ensures KeysBetween(Tab(m), e, 0, 0x10000) == KeysOfEnt(Tab(m), e)
  {
    hide EaRings, Keyed, FreeTables, Lev2Tables, LvSide, Flags, PageOf, TopEa, Lev2Ind, PelistInd, TlbBits;
    forall k | k in Tab(m)
      ensures k.page < 0x10000
    {
      KeyedBack(m.own, m.pent, m.place, m.rec, k);
      var n := m.rec[k];
      KeyedOne(m.own, m.pent, m.place, m.rec, n);
      PageJoins(m.pent[n].topea, m.place[m.own[n].tab].l2, m.own[n].ind);
    }
  }

  /** With no records of its entry, a level-2 table has only empty rings. */
  lemma EmptyTable(m: Mem, e: nat, i: nat)
    requires Valid(m, {}) && KeysOfEnt(Tab(m), e) == {} && e in m.lev2 && i < |m.lev2[e]| && m.lev2[e][i] != Null
    ensures m.lev2[e][i].Slot?
    ensures forall j :: 0 <= j < 32 ==>
              Slot(m.lev2[e][i].tab, j) in m.eaRing && m.eaRing[Slot(m.lev2[e][i].tab, j)] == []
  {
    hide EaRings, Keyed, FreeTables, LvSide, Flags, TabOf, KeyOf, HasKey;
    EaRingsMembers(m.eaNext, m.pent, m.eaRing, m.own);
    var t := m.lev2[e][i].tab;
    forall j | 0 <= j < 32
      ensures Slot(t, j) in m.eaRing && m.eaRing[Slot(t, j)] == []
    {
      forall n | n in m.eaRing[Slot(t, j)]
        ensures false
      {
        RecordOfEnt(m.own, m.pent, m.place, m.rec, m.lvOwn, n);
      }
      EmptyIfNoMember(m.eaRing[Slot(t, j)]);
    }
  }

  lemma RecordOfEnt(own: Links, pent: Pents, place: map<nat, Place>, rec: map<Key, Node>, lvOwn: Links, n: Node)
    requires Keyed(own, pent, place, rec) && n in own && own[n] != Null
    ensures HasKey(n, own, pent, place) &&
            KeyOf(n, own, pent, place) in KeysOfEnt(TabOf(rec, pent, lvOwn), place[own[n].tab].ent)
  {
  }

  lemma EntFlushed(v: View, e: nat, w: View)
    requires w == FlushKeys(v, KeysOfEnt(v.tab, e))
    ensures KeysOfEnt(w.tab, e) == {}
  {
  }

  /** An address in a range belongs to one of its heads. */
  lemma RangeHead(ranges: seq<LvRange>, heads: set<Node>, i: nat, lvptr: nat)
    requires RangesOk(ranges, heads) && i < |ranges| && InRange(ranges[i], lvptr)
    ensures Head(ranges[i].rng, (lvptr - ranges[i].base) / 0x1000) in heads
  {
    var r := ranges[i];
    assert (lvptr - r.base) / 0x1000 < r.size / 0x1000;
  }

  /** Tables, entries and lv heads are where they were. */
  ghost predicate SameShape(m: Mem, m': Mem) {
    && m'.lev2 == m.lev2 && m'.place == m.place && m'.lvRing.Keys == m.lvRing.Keys
    && m'.freeTables == m.freeTables && m'.freeTabs == m.freeTabs
  }

  lemma ValidEa(m: Mem, limbo: set<Node>)
    requires Valid(m, limbo)
    ensures EaSide(m)
  {
  }

  /** A record with an lv ring is on it. */
  lemma OnLvRing(m: Mem, pr: Node) returns (k: nat)
    requires Valid(m, {}) && pr in m.lvOwn && m.lvOwn[pr] != Null
    ensures m.lvOwn[pr] in m.lvRing && k < |m.lvRing[m.lvOwn[pr]]| && m.lvRing[m.lvOwn[pr]][k] == pr
  {
    hide Valid, LvRings, EaRings, EaSide, LvSide, Flags;
    ValidParts(m, {});
    LvRingsMembers(m.lvNext, m.lvRing, m.lvOwn);
    k :| 0 <= k < |m.lvRing[m.lvOwn[pr]]| && m.lvRing[m.lvOwn[pr]][k] == pr;
  }

  /** The link of a record on an lv ring leads to the next record, or, from the last one,
      to the head, which alone is marked as one. */
  lemma LvNext(m: Mem, h: Node, j: nat)
    requires Valid(m, {}) && h in m.lvRing && j < |m.lvRing[h]|
    ensures h.Head? && h in m.lvNext && m.lvRing[h][j] in m.lvNext
    ensures var r := m.lvRing[h]; var n := m.lvNext[r[j]];
            n == (if j + 1 < |r| then r[j + 1] else h) && n in m.pent && (m.pent[n].lvHead <==> j + 1 == |r|)
  {
    hide Valid;
    LvStep(m, {}, h, j + 1);
    MarkedHeads(m, h, j);
  }

  lemma MarkedHeads(m: Mem, h: Node, j: nat)
    requires Valid(m, {}) && h in m.lvRing && h.Head? && h in m.lvNext
    ensures h in m.pent && m.pent[h].lvHead
    ensures j + 1 < |m.lvRing[h]| ==>
              var n := m.lvRing[h][j + 1]; n in m.pent && !m.pent[n].lvHead
  {
    hide EaSide, LvRings, FreeList, Roles, Unlisted;
    LvRingsMembers(m.lvNext, m.lvRing, m.lvOwn);
    if j + 1 < |m.lvRing[h]| {
      assert m.lvRing[h][j + 1] in m.lvRing[h];
    }
  }

  lemma ValidParts(m: Mem, limbo: set<Node>)
    requires Valid(m, limbo)
    ensures EaSide(m) && LvSide(m, limbo) && Flags(m.own, m.pent, limbo)
    ensures EaRings(m.eaNext, m.pent, m.eaRing, m.own) && LvRings(m.lvNext, m.lvRing, m.lvOwn)
  {
  }

  lemma FreeFirst(m: Mem, limbo: set<Node>)
    requires Valid(m, limbo) && m.freePents != Null
    ensures m.free != [] && m.freePents == m.free[0] && m.freePents in m.lvNext
  {
    hide EaSide, LvRings, Roles, Unlisted, Flags;
  }

  lemma FreeTable0(m: Mem, limbo: set<Node>)
    requires Valid(m, limbo) && m.freeTables != Null
    ensures m.freeTabs != [] && m.freeTables == Slot(m.freeTabs[0], 0) && m.freeTables in m.eaNext
  {
    hide EaRings, Keyed, Lev2Tables, LvSide, Flags;
  }

  lemma EmptySlot(m: Mem, limbo: set<Node>, h: Node)
    requires Valid(m, limbo) && h in m.eaRing
    ensures h in m.eaNext && (m.eaNext[h] == Null <==> m.eaRing[h] == [])
  {
    hide EaRings, Keyed, Lev2Tables, FreeTables, LvSide, Flags;
    EaRingsEmptySlot(m.eaNext, m.pent, m.eaRing, m.own, h);
  }

  lemma EaNotNull(m: Mem, limbo: set<Node>, h: Node, k: nat)
    requires Valid(m, limbo) && h in m.eaRing && k < |m.eaRing[h]|
    ensures m.eaRing[h][k] != Null
  {
    hide EaRing, EaRings;
    EaRingShape(m.eaNext, m.pent, m.eaRing, m.own, h);
  }

  lemma IndexKey(m: Mem, m': Mem, n: Node, slot: nat)
    requires HasKey(n, m.own, m.pent, m.place) && m' == m.(pent := m.pent[n := m.pent[n].(index := slot)])
    ensures HasKey(n, m'.own, m'.pent, m'.place) &&
            KeyOf(n, m'.own, m'.pent, m'.place) == KeyOf(n, m.own, m.pent, m.place)
  {
  }

  /** An address without a record on its ring is not in the map. */
  lemma NotRecorded(m: Mem, e: nat, page: nat, sv: bool, h: Node)
    requires Valid(m, {}) && page < 0x10000 && AtEa(m, e, page, h) && h in m.eaRing
    requires forall i :: 0 <= i < |m.eaRing[h]| ==>
               var n := m.eaRing[h][i]; n in m.pent && !(m.pent[n].topea == TopEa(page) && m.pent[n].sv == sv)
    ensures Key(e, page, sv) !in Tab(m)
  {
    hide Valid, Tab, TopEa, Lev2Ind, PelistInd;
    EaKeys(m, {}, e, page);
    var key := Key(e, page, sv);
    if key in Tab(m) {
      RecordedKey(m, key);
    }
  }

  lemma KeyIsRecorded(m: Mem, h: Node, k: nat)
    requires Valid(m, {}) && h in m.eaRing && k < |m.eaRing[h]|
    requires HasKey(m.eaRing[h][k], m.own, m.pent, m.place)
    ensures KeyOf(m.eaRing[h][k], m.own, m.pent, m.place) in Tab(m)
  {
    hide EaRings, EaRing, HasKey, KeyOf, FreeTables, Lev2Tables, LvSide, Flags, PageOf;
    EaRingShape(m.eaNext, m.pent, m.eaRing, m.own, h);
  }

  lemma RecordedKey(m: Mem, key: Key)
    requires Valid(m, {}) && key in Tab(m)
    ensures key in m.rec && m.rec[key] in m.pent && m.pent[m.rec[key]].sv == key.sv
  {
    hide EaRings, FreeTables, Lev2Tables, LvSide, Flags, PageOf;
  }

  lemma FreshFacts(m: Mem, n: Node, lv: Option<LvId>)
    requires Fresh(m, n, lv)
    ensures n in m.own && m.own[n] == Null && n in m.pent && m.pent[n] == ZEROED.(lvHead := n.Head?)
    ensures LvOf(n, m.lvOwn) == lv
    ensures n.Rec? && n in m.lvOwn && m.lvOwn[n] == Null ==> n in m.lvNext && m.lvNext[n] == Null
  {
  }

  /** The packed word places the record on the ring of its address. */
  lemma FitsHere(m: Mem, limbo: set<Node>, e: nat, page: nat, sv: bool, h: Node, n: Node, p: Pent)
    requires Valid(m, limbo) && page < 0x10000 && AtEa(m, e, page, h) && h in m.eaRing
    requires p.topea == TopEa(page) && p.sv == sv && (p.bit14 <==> EaBit14(page)) && (p.lvHead <==> n.Head?) &&
             !p.unused
    requires Key(e, page, sv) !in Tab(m)
    ensures FitsRing(m, n, h, p) && RingKey(m, h, p) == Key(e, page, sv) && RingKey(m, h, p) !in m.rec
  {
    hide EaRings, Keyed, FreeTables, LvSide, Flags, PageOf, TopEa, Lev2Ind, PelistInd, EaBit14;
    PageSplits(page);
    KeyedMembers(m.own, m.pent, m.place, m.rec);
  }

  /** The head of a page that has no records. */
  ghost predicate IdleHead(m: Mem, h: Node) {
    h in m.lvRing && m.lvRing[h] == [] && h in m.own && m.own[h] == Null
  }

  lemma IdleWithoutKeys(m: Mem, id: LvId)
    requires Valid(m, {}) && HeadOf(id) in m.lvRing
    ensures IdleHead(m, HeadOf(id)) <==> KeysOfLv(Tab(m), id) == {}
  {
    hide Valid, Tab, HasKey, KeyOf;
    LvKeys(m, {}, id);
    HeadState(m, {}, id);
    var h := HeadOf(id);
    if m.lvRing[h] != [] {
      LvMember(m, {}, id, 0);
      assert KeyOf(m.lvRing[h][0], m.own, m.pent, m.place) in KeysOfLv(Tab(m), id);
    } else if m.own[h] != Null {
      assert KeyOf(h, m.own, m.pent, m.place) in KeysOfLv(Tab(m), id);
    }
  }

  lemma FreeKept(m: Mem, m': Mem)
    requires Valid(m, {}) && Valid(m', {}) && |m.free| <= |m'.free|
    ensures m.freePents != Null ==> m'.freePents != Null
  {
    hide EaSide, LvRings, Roles, Unlisted, Flags;
  }

  /** The key of a record survives the taking of another. */
  lemma KeyCarries(m: Mem, m': Mem, n: Node, x: Node)
    requires HasKey(n, m.own, m.pent, m.place) && Took(m, x, m') && n != x
    ensures HasKey(n, m'.own, m'.pent, m'.place) && n in m.pent && m'.pent[n] == m.pent[n]
    ensures KeyOf(n, m'.own, m'.pent, m'.place) == KeyOf(n, m.own, m.pent, m.place)
  {
  }

  lemma OnRingInUse(m: Mem, limbo: set<Node>, n: Node)
    requires Valid(m, limbo) && n in m.own && m.own[n] != Null
    ensures n in m.pent && !m.pent[n].unused
  {
    hide EaSide, LvSide;
  }

  /** The map's entry for a record on a ring. */
  lemma TabEntry(m: Mem, limbo: set<Node>, n: Node)
    requires Valid(m, limbo) && n in m.own && m.own[n] != Null
    ensures HasKey(n, m.own, m.pent, m.place) && n in m.pent
    ensures var key := KeyOf(n, m.own, m.pent, m.place);
            key in Tab(m) && Tab(m)[key] == Entry(m.pent[n].index, LvOf(n, m.lvOwn))
  {
    hide EaRings, Keyed, FreeTables, Lev2Tables, LvSide, Flags, TabOf, LvOf, KeyOf, HasKey;
    KeyedMembers(m.own, m.pent, m.place, m.rec);
    TabRemove(m.own, m.pent, m.place, m.rec, m.lvOwn, n, m.pent);
  }

  lemma SameEntry(tab: map<Key, Entry>, key: Key, lv: Option<LvId>)
    requires key in tab && tab[key].lv == lv
    ensures tab == tab[key := Entry(tab[key].slot, lv)]
  {
  }

  /** Only records proper have a NULL lv link. */
  lemma LvHeadLinked(m: Mem, limbo: set<Node>, n: Node)
    requires Valid(m, limbo) && n in m.own && n in m.lvNext && m.lvNext[n] == Null
    ensures n.Rec?
  {
    hide EaSide, LvRings, FreeList, Unlisted, Flags;
    if n.Head? {
      LvStep(m, limbo, n, 0);
    }
  }

  /** A record was taken; the ea rings are as they were. */
  ghost predicate Took(m: Mem, n: Node, m': Mem) {
    && SameShape(m, m') && m'.eaRing == m.eaRing && m'.own == m.own && m'.eaNext == m.eaNext && m'.rec == m.rec
    && n in m.own && m.own[n] == Null
    && (forall x :: x in m.pent && x != n ==> x in m'.pent && m'.pent[x] == m.pent[x])
  }

  /** A record ready to be put on an ea ring for a page. */
  ghost predicate Fresh(m: Mem, n: Node, lv: Option<LvId>) {
    && n in m.own && m.own[n] == Null && n in m.pent && m.pent[n] == ZEROED.(lvHead := n.Head?)
    && LvOf(n, m.lvOwn) == lv
    && (n.Rec? && n in m.lvOwn && m.lvOwn[n] == Null ==> n in m.lvNext && m.lvNext[n] == Null)
  }

  lemma EaWalk(next: Links, pent: Pents, h: Node, r: seq<Node>, i: int)
    requires EaRing(next, pent, h, r) && -|r| <= i < |r|
    ensures LvNode(h, r, i) in next
    ensures next[LvNode(h, r, i)] == if i < 0 then LvNode(h, r, i + 1) else r[i]
  {
    if i < 0 {
      EaAt(next, pent, h, r, |r| + i);
    } else {
      EaBeforeAt(next, pent, h, r, i);
    }
  }

  /** The node before position i, for negative i counted back from the head. */
  ghost function LvNode(h: Node, r: seq<Node>, i: int): Node
    requires -|r| <= i <= |r|
  {
    if i < 0 then r[|r| + i] else Before(h, r, i)
  }

  lemma LvWalk(next: Links, h: Node, r: seq<Node>, i: int)
    requires LvRing(next, h, r) && -|r| <= i < |r|
    ensures LvNode(h, r, i) in next
    ensures next[LvNode(h, r, i)] == if i < 0 then LvNode(h, r, i + 1) else r[i]
  {
    LvAt(next, h, r, if i < 0 then |r| + i else i);
  }

  lemma LvWalkEnd(h: Node, r: seq<Node>, i: int, k: nat)
    requires NoDup(r) && k < |r| && k + 1 - |r| <= i <= k && h !in r
    ensures (if i < 0 then LvNode(h, r, i + 1) else r[i]) == r[k] <==> i == k
  {
    assert r[k] in r;
    if i < -1 {
      assert r[|r| + i + 1] != r[k];
    }
  }

  lemma UnlinkFacts(m: Mem, h: Node, k: nat)
    requires EaSide(m) && h in m.eaRing && k < |m.eaRing[h]|
    ensures var r := m.eaRing[h]; var pr := r[k]; var prev := Before(h, r, k);
            && h.Slot? && pr in m.own && m.own[pr] == h && HasKey(pr, m.own, m.pent, m.place)
            && pr in m.eaNext && pr in m.pent && prev in m.eaNext && pr != prev && pr != h
            && (k > 0 ==> prev in m.pent && prev != h)
            && (m.pent[pr].eaLast <==> k == |r| - 1)
            && TlbBits(KeyOf(pr, m.own, m.pent, m.place).page) == h.ind + (if m.pent[pr].bit14 then 32 else 0)
  {
    hide EaRings, EaRing, NoDup, Keyed, Lev2Tables, FreeTables, KeyOf, TlbBits, Without;
    var r := m.eaRing[h];
    EaRingShape(m.eaNext, m.pent, m.eaRing, m.own, h);
    EaAt(m.eaNext, m.pent, h, r, k);
    EaBeforeAt(m.eaNext, m.pent, h, r, k);
    assert r[k] in r && (k > 0 ==> r[k - 1] in r);
    KeyBits(m.own, m.pent, m.place, m.rec, r[k]);
    DistinctBefore(r, k);
  }

  /** The writes that unlink record k of ring h. */
  lemma UnlinkStep(m: Mem, h: Node, k: nat)
    requires EaSide(m) && h in m.eaRing && k < |m.eaRing[h]|
    ensures var r := m.eaRing[h]; var pr := r[k]; var prev := Before(h, r, k);
            && pr in m.pent && pr in m.eaNext && (prev != h ==> prev in m.pent) && HasKey(pr, m.own, m.pent, m.place)
            && var last := m.pent[pr].eaLast;
            var next := if last && prev == h then m.eaNext[pr := Null] else m.eaNext;
            var pent := if last && prev != h then m.pent[prev := m.pent[prev].(eaLast := true)] else m.pent;
            Unlinked(m, h, k, m.(eaNext := next[prev := next[pr]], pent := pent, eaRing := m.eaRing[h := Without(r, k)],
                                 own := m.own[pr := Null], rec := m.rec - {KeyOf(pr, m.own, m.pent, m.place)}))
  {
    hide EaSide, KeyOf, HasKey, TlbBits, Without;
    UnlinkFacts(m, h, k);
    var r := m.eaRing[h];
    var pr := r[k];
    var prev := Before(h, r, k);
    var next := if m.pent[pr].eaLast && prev == h then m.eaNext[pr := Null] else m.eaNext;
    var pent := if m.pent[pr].eaLast && k > 0 then m.pent[prev := m.pent[prev].(eaLast := true)] else m.pent;
    assert next[prev := next[pr]].Keys == m.eaNext.Keys && pent.Keys == m.pent.Keys;
  }

  /** The same, when the slot of a ring of one is cleared afterwards. */
  lemma UnlinkStepHead(m: Mem, h: Node, k: nat)
    requires EaSide(m) && h in m.eaRing && k < |m.eaRing[h]|
    ensures var r := m.eaRing[h]; var pr := r[k]; var pp := Before(h, r, k);
            && pr in m.pent && pr in m.eaNext && (pp != h ==> pp in m.pent) && HasKey(pr, m.own, m.pent, m.place)
            && var last := m.pent[pr].eaLast;
            var next := m.eaNext[pp := m.eaNext[pr]];
            var pent := if last && pp != h then m.pent[pp := m.pent[pp].(eaLast := true)] else m.pent;
            Unlinked(m, h, k, m.(eaNext := if last && pp == h then next[h := Null] else next, pent := pent,
                                 eaRing := m.eaRing[h := Without(r, k)], own := m.own[pr := Null],
                                 rec := m.rec - {KeyOf(pr, m.own, m.pent, m.place)}))
  {
    hide EaSide, KeyOf, HasKey, TlbBits, Without;
    UnlinkFacts(m, h, k);
    var r := m.eaRing[h];
    var pr := r[k];
    var pp := Before(h, r, k);
    var pent := if m.pent[pr].eaLast && k > 0 then m.pent[pp := m.pent[pp].(eaLast := true)] else m.pent;
    assert m.eaNext[pp := m.eaNext[pr]].Keys == m.eaNext.Keys && pent.Keys == m.pent.Keys;
    assert m.eaNext[h := Null].Keys == m.eaNext.Keys || h !in m.eaNext;
  }

  /** Which records the test of the lv link singles out. */
  lemma LvLinkNull(m: Mem, limbo: set<Node>, n: Node)
    requires Valid(m, limbo) && n in m.own && m.own[n] != Null
    ensures n in m.lvNext && n in m.lvOwn && n in m.pent && (m.pent[n].lvHead <==> n.Head?) && IsRecord(n)
    ensures n.Rec? ==> (m.lvNext[n] == Null <==> m.lvOwn[n] == Null)
  {
    hide EaSide, LvRings, FreeList;
    LvRingsMembers(m.lvNext, m.lvRing, m.lvOwn);
    if n in m.lvOwn && m.lvOwn[n] != Null {
      var r := m.lvRing[m.lvOwn[n]];
      var k :| 0 <= k < |r| && r[k] == n;
      LvRingShape(m.lvNext, m.lvRing, m.lvOwn, m.lvOwn[n]);
      LvAt(m.lvNext, m.lvOwn[n], r, k);
      assert k + 1 < |r| ==> r[k + 1] in r;
    }
  }

  lemma UnlinkedFrame(m: Mem, h: Node, k: nat, m': Mem)
    requires Unlinked(m, h, k, m')
    ensures SameShape(m, m') && m'.eaRing == m.eaRing[h := Without(m.eaRing[h], k)]
    ensures m'.lvNext == m.lvNext && m'.lvOwn == m.lvOwn && m'.lvRing == m.lvRing && m'.free == m.free &&
            m'.freePents == m.freePents
    ensures m'.own == m.own[m.eaRing[h][k] := Null]
    ensures forall x :: x in m.pent ==>
              x in m'.pent && m'.pent[x].topea == m.pent[x].topea && m'.pent[x].unused == m.pent[x].unused
    ensures forall x :: x in m.pent ==> m'.pent[x].index == m.pent[x].index && m'.pent[x].lvHead == m.pent[x].lvHead
  {
  }

  lemma DistinctBefore(r: seq<Node>, k: nat)
    requires NoDup(r) && k < |r|
    ensures k > 0 ==> r[k - 1] != r[k]
  {
  }

  lemma DistinctAt(r: seq<Node>, i: nat, k: nat)
    requires NoDup(r) && i < |r| && k < |r| && r[i] == r[k]
    ensures i == k
  {
  }

  /** Bits 14-19 of a recorded address can be read off the slot and the record. */
  lemma KeyBits(own: Links, pent: Pents, place: map<nat, Place>, rec: map<Key, Node>, n: Node)
    requires Keyed(own, pent, place, rec) && n in own && own[n] != Null
    ensures HasKey(n, own, pent, place)
    ensures TlbBits(KeyOf(n, own, pent, place).page) == own[n].ind + if pent[n].bit14 then 32 else 0
  {
    PageJoins(pent[n].topea, place[own[n].tab].l2, own[n].ind);
  }
}

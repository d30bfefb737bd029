/**
 The rings of module PteRings as the machine of module ReverseMap.

 A PteSystem is a PteTable together with what the table cannot see: Linux's page
 tables, and how far the insertion in progress has come.  It stands for a state of
 the machine, and keeps the run that led there: each operation of the table is a
 step of the machine, so what is proved of runs holds of the rings.
 */
module PteSystem {
  import opened Options
  import opened PteRingShapes
  import opened ReverseMap
  import opened PteMem
  import opened PteTables
  import opened PteRings
  import PteHash

  /** What is outside the table. */
  datatype World = World(linux: map<nat, Lpte>, vmas: set<nat>, pending: set<nat>, ins: Insertion)

  /** Holds on every run, guarded or not. */
  ghost predicate Basics(s: State) {
    && (forall e :: e in s.ents ==> s.ents[e].user != s.ents[e].sv)
    && NamesApart(s.ranges)
    && (!s.ins.Idle? ==>
          && s.ins.key.ent in s.ents
          && (s.ins.lvr.Some? ==> s.ins.lvr.value in s.ranges && InRange(s.ins.lvr.value, s.ins.lvptr)))
    && (s.ins.InHash? ==> s.ins.tr.vsid == VsidOf(s.ents, s.ins.key))
  }

  lemma StepBasics(s: State, st: Step)
    requires Basics(s) && Enabled(s, st)
    ensures Basics(Apply(s, st))
  {
    hide InRange;
  }

  lemma {:induction false} RunBasics(s: State, steps: seq<Step>, s': State)
    requires Basics(s) && Run(s, steps, s')
    ensures Basics(s')
    decreases |steps|
  {
    hide Basics, Enabled, Apply;
    if steps != [] {
      StepBasics(s, steps[0]);
      RunBasics(Apply(s, steps[0]), steps[1..], s');
    }
  }

  ghost predicate Stepped(s: State, st: Step, s': State) {
    Enabled(s, st) && s' == Apply(s, st)
  }

  /** The PTE an insertion has come to: its address, with the frame that was looked up for
      its Linux page, or a physical frame when it has none. */
  ghost predicate IsStored(s: State, physFrame: int, tr: Trans) {
    Enabled(s, Store(physFrame)) &&
    tr == Trans(VsidOf(s.ents, s.ins.key), s.ins.key.page, LinuxPage(s.ins.lvr, s.ins.lvptr),
                if s.ins.Marked? then s.ins.frame else physFrame)
  }

  /** Entries without records can be dropped one by one. */
  lemma {:induction false} DropAll(s: State, gone: set<nat>) returns (steps: seq<Step>)
    requires s.ins.Idle? && forall e :: e in gone ==> KeysOfEnt(s.v.tab, e) == {}
    ensures Run(s, steps, s.(ents := s.ents - gone)) && forall i :: 0 <= i < |steps| ==> steps[i].DropEnt?
    decreases |gone|
  {
    if gone == {} {
      steps := [];
      assert s.ents - gone == s.ents;
    } else {
      var e :| e in gone;
      var s1 := Apply(s, DropEnt(e));
      var rest := DropAll(s1, gone - {e});
      steps := [DropEnt(e)] + rest;
      assert steps[1..] == rest;
      assert s.ents - {e} - (gone - {e}) == s.ents - gone;
      assert s1.(ents := s1.ents - (gone - {e})) == s.(ents := s.ents - gone);
    }
  }

  /** With a record, the set has the other record of the address too. */
  ghost predicate WholeAddresses(tab: map<Key, Entry>, ks: set<Key>) {
    forall k, x :: k in ks && x in tab && x.ent == k.ent && x.page == k.page ==> x in ks
  }

  /** Records that are dropped address by address. */
  lemma {:induction false} FlushPagesRun(s: State, ks: set<Key>) returns (steps: seq<Step>)
    requires s.ins.Idle? && ks <= s.v.tab.Keys
    requires WholeAddresses(s.v.tab, ks)
    ensures Run(s, steps, s.(v := FlushKeys(s.v, ks)))
    ensures forall i :: 0 <= i < |steps| ==>
              steps[i].FlushEa? && exists k :: k in ks && k.ent == steps[i].ent && k.page == steps[i].page
    decreases |ks|
  {
    hide FlushKeys, KeysOfEa, WholeAddresses;
    if ks == {} {
      steps := [];
      FlushNone(s.v);
    } else {
      var k :| k in ks;
      var one := KeysOfEa(s.v.tab, k.ent, k.page);
      var s1 := Apply(s, FlushEa(k.ent, k.page));
      FlushedTab(s.v, one);
      EaOfKeys(s.v.tab, ks, k);
      var rest := FlushPagesRun(s1, ks - one);
      FlushTwice(s.v, one, ks - one);
      steps := [FlushEa(k.ent, k.page)] + rest;
      assert steps[1..] == rest;
    }
  }

  lemma EaOfKeys(tab: map<Key, Entry>, ks: set<Key>, k: Key)
    requires k in ks && ks <= tab.Keys && WholeAddresses(tab, ks)
    ensures var one := KeysOfEa(tab, k.ent, k.page);
            && one + (ks - one) == ks && ks - one <= (tab - one).Keys && |ks - one| < |ks|
            && WholeAddresses(tab - one, ks - one)
  {
    assert k in KeysOfEa(tab, k.ent, k.page);
    Smaller(ks - KeysOfEa(tab, k.ent, k.page), ks, k);
  }

  lemma Smaller(a: set<Key>, b: set<Key>, k: Key)
    requires a <= b && k in b && k !in a
    ensures |a| < |b|
  {
    assert b == a + (b - a) && k in b - a;
  }

  /** The steps of flush_lv_range. */
  ghost function RingFlushes(base: nat, n: nat): seq<Step> {
    seq(n, i requires 0 <= i < n => FlushRing(base + i * 0x1000))
  }

  lemma {:induction false} RingFlushesRun(s: State, base: nat, n: nat)
    requires s.ins.Idle?
    ensures Run(s, RingFlushes(base, n), s.(v := FlushKeys(s.v, KeysOfLvs(s.v.tab, LvsBetween(s.ranges, base, n)))))
  {
    hide FlushKeys, KeysOfLvs, LvsBetween, FlushedAt;
    if n == 0 {
      NoLvs(s.v, s.ranges, base);
    } else {
      RingFlushesRun(s, base, n - 1);
      var t := s.(v := FlushKeys(s.v, KeysOfLvs(s.v.tab, LvsBetween(s.ranges, base, n - 1))));
      var st := FlushRing(base + (n - 1) * 0x1000);
      assert RingFlushes(base, n) == RingFlushes(base, n - 1) + [st];
      Then(s, RingFlushes(base, n - 1), t, st);
      MoreLvs(s.v, s.ranges, base, n - 1, t.v, Apply(t, st).v);
    }
  }

  class PteSystem {
    const t: PteTable
    ghost var w: World
    ghost var trace: seq<Step>

    /** The state of the machine. */
    ghost function Sys(): State
      reads this, t
    {
      State(t.V(), t.ents, t.lvranges, w.linux, w.vmas, w.pending, w.ins, t.reservation, t.lost)
    }

    /** The rings are well formed, and the trace is a run that led to their state. */
    ghost predicate Ok()
      reads this, t
    {
      t.Ok() && Run(START, trace, Sys())
    }

    /** The headline theorem, of the rings: if the calls so far kept the rules, no
        translation outlives its page. */
    lemma NoPteOutlivesItsPage()
      requires Ok() && AllGuarded(START, trace, None) && w.ins.Idle?
      ensures NoneOutlives(Sys())
    {
      hide Run, PteMem.Valid, RangesOk, Tab, NoneOutlives;
      NoTranslationOutlivesItsPage(START, trace, Sys());
    }

    /** And of any address of a page that is flushed, whatever the rings hold. */
    lemma FlushLeavesPageUnmapped(lvptr: nat)
      requires Ok() && AllGuarded(START, trace, None)
      ensures Unmapped(Sys(), FlushedAt(t.V(), t.lvranges, lvptr), PageStart(lvptr))
    {
      hide Run, PteMem.Valid, RangesOk, Tab, Inv, FlushedAt, Unmapped, Locate;
      StartInv();
      RunKeeps(START, trace, Sys());
      FlushLvEmpties(Sys(), lvptr);
    }

    /** The next two calls are a flush of some address of the page in flight, and the
        commit: the theorem goes on to hold exactly under this condition on the address,
        on Linux's tables, and on the rings as they are. */
    lemma FlushInFlightIff(lvptr: nat)
      requires Ok() && AllGuarded(START, trace, None) && StoredAt(Sys(), lvptr)
      ensures HoldsAfterFlush(Sys(), lvptr) <==> Harmless(Sys(), lvptr)
    {
      hide Run, PteMem.Valid, RangesOk, Tab, Inv, StoredAt, HoldsAfterFlush, Harmless, FlushedAt;
      StartInv();
      RunKeeps(START, trace, Sys());
      FlushStoredIff(Sys(), lvptr);
    }

    constructor ()
      ensures Ok() && trace == [] && fresh(t)
    {
      hide PteMem.Valid, RangesOk, Tab;
      t := new PteTable();
      w := World(map[], {}, {}, Idle);
      trace := [];
    }

    /** The tail of every operation: the step is added to the trace. */
    ghost method Log(s: State, st: Step)
      requires t.Ok() && Run(START, trace, s) && Stepped(s, st, Sys())
      modifies this`trace
      ensures Ok() && trace == old(trace) + [st] && Sys() == old(Sys())
    {
      hide Run, Enabled, Apply, PteMem.Valid, RangesOk, Tab;
      Then(START, trace, s, st);
      trace := trace + [st];
    }

    /** A step of Linux, or of the insertion before it reaches the table. */
    ghost method Outside(st: Step)
      requires Ok() && Enabled(Sys(), st)
      requires st.Pick? || st.Retry? || st.BadArea? || st.Mark? || st.PageIn? || st.Unmap? || st.Mmap? || st.Munmap?
      modifies this`w, this`trace
      ensures Ok() && trace == old(trace) + [st] && Stepped(old(Sys()), st, Sys())
    {
      hide Run, PteMem.Valid, RangesOk, Tab;
      ghost var s := Sys();
      var s' := Apply(s, st);
      w := World(s'.linux, s'.vmas, s'.pending, s'.ins);
      Log(s, st);
    }

    /** make_lvptr_reservation, of the page an insertion is about to look up: its two
        stores one after the other.  A flush between them comes to the same as one before
        (ReverseMap.FlushBetweenStores). */
    method MakeLvptrReservation(lvptr: nat)
      requires Ok() && Enabled(Sys(), ReserveAddress) && lvptr == w.ins.lvptr
      modifies this`w, this`trace, t`reservation, t`lost
      ensures Ok() && trace == old(trace) + [ReserveAddress, ReserveClear]
    {
      hide Run, PteMem.Valid, RangesOk, Tab;
      ghost var s := Sys();
      t.MakeLvptrReservation(lvptr);
      w := w.(ins := Reserved(w.ins.key, w.ins.slot, w.ins.lvr, w.ins.lvptr));
      Then(START, trace, s, ReserveAddress);
      trace, s := trace + [ReserveAddress], Apply(s, ReserveAddress);
      Log(s, ReserveClear);
    }

    /** __store_PTE: the PTE is visible from here on. */
    method StorePte(slot: nat, tr: Trans, ghost physFrame: int)
      requires Ok() && Enabled(Sys(), Store(physFrame))
      requires slot == w.ins.slot && IsStored(Sys(), physFrame, tr)
      modifies this`w, this`trace, t`hash, t`tlb
      ensures Ok() && trace == old(trace) + [Store(physFrame)] && Stepped(old(Sys()), Store(physFrame), Sys())
    {
      hide Run, PteMem.Valid, RangesOk, Tab;
      ghost var s := Sys();
      t.hash := t.hash[slot := tr];
      t.tlb := Tlbie(t.tlb, TlbBits(tr.page));
      w := w.(ins := InHash(w.ins.key, w.ins.slot, w.ins.lvr, w.ins.lvptr, tr));
      Log(s, Store(physFrame));
    }

    /** pte_inserted, of the PTE just stored. */
    method PteInserted(e: nat, page: nat, lvr: Option<LvRange>, lvptr: nat, slot: nat, vsid: int)
      requires Ok() && w.ins.InHash? && w.ins.key.ent == e && w.ins.key.page == page < 0x10000
      requires w.ins.lvr == lvr && w.ins.lvptr == lvptr && w.ins.slot == slot && w.ins.tr.vsid == vsid
      requires t.mem.freePents != Null && t.mem.freeTables != Null
      modifies this`w, this`trace, t`mem, t`hash, t`tlb
      ensures Ok() && trace == old(trace) + [Commit]
      ensures Stepped(old(Sys()), Commit, Sys())
    {
      hide Run, PteMem.Valid, RangesOk, Tab, InRange, Committed, Tlbie, TlbBits;
      ghost var s := Sys();
      StartBasics();
      RunBasics(START, trace, s);
      t.PteInserted(e, page, lvr, lvptr, slot, vsid);
      w := w.(ins := Idle);
      Log(s, Commit);
    }

    /** flush_lvptr, called by Linux about any address. */
    method FlushLvptr(lvptr: nat)
      requires Ok()
      modifies this`w, this`trace, t`mem, t`hash, t`tlb, t`lost
      ensures Ok() && trace == old(trace) + [FlushLv(lvptr)] && Stepped(old(Sys()), FlushLv(lvptr), Sys())
    {
      hide Run, PteMem.Valid, RangesOk, Tab, FlushedAt;
      ghost var s := Sys();
      t.FlushLvptr(lvptr);
      w := w.(pending := w.pending - {PageStart(lvptr)});
      Log(s, FlushLv(lvptr));
    }

    method FlushVsidEa(e: nat, page: nat)
      requires Ok() && w.ins.Idle? && e in t.ents && page < 0x10000
      modifies this`trace, t`mem, t`hash, t`tlb
      ensures Ok() && trace == old(trace) + [FlushEa(e, page)] && Stepped(old(Sys()), FlushEa(e, page), Sys())
    {
      hide Run, PteMem.Valid, RangesOk, Tab, FlushKeys;
      ghost var s := Sys();
      t.FlushVsidEa(e, page);
      Log(s, FlushEa(e, page));
    }

    /** flush_ea_range: a flush of each address of the range that has a record. */
    method FlushEaRange(start: nat, end: nat)
      requires Ok() && w.ins.Idle? && end <= 0x10000
      modifies this`trace, t`mem, t`hash, t`tlb
      ensures Ok() && old(trace) <= trace && Sys() == old(Sys()).(v := t.V())
      ensures forall i :: |old(trace)| <= i < |trace| ==> trace[i].FlushEa? && start <= trace[i].page < end
      ensures forall k :: k in t.V().tab && k.ent in t.ents ==> !(start <= k.page < end)
    {
      hide Run, PteMem.Valid, RangesOk, Tab, FlushKeys;
      ghost var s := Sys();
      t.FlushEaRange(start, end);
      ghost var steps := FlushPagesRun(s, KeysOfPages(s.v.tab, s.ents.Keys, start, end));
      RunsJoin(START, trace, s, steps, Sys());
      trace := trace + steps;
      FlushedTab(s.v, KeysOfPages(s.v.tab, s.ents.Keys, start, end));
    }

    /** flush_lv_range: a flush of the ring of each page, which breaks no reservation. */
    method FlushLvRange(base: nat, size: nat)
      requires Ok() && w.ins.Idle?
      modifies this`trace, t`mem, t`hash, t`tlb
      ensures Ok() && trace == old(trace) + RingFlushes(base, (size + 0xfff) / 0x1000)
      ensures Sys() == old(Sys()).(v := t.V())
    {
      hide Run, PteMem.Valid, RangesOk, Tab, FlushKeys, KeysOfLvs, LvsBetween;
      ghost var s := Sys();
      t.FlushLvRange(base, size);
      ghost var n := (size + 0xfff) / 0x1000;
      RingFlushesRun(s, base, n);
      RunsJoin(START, trace, s, RingFlushes(base, n), Sys());
      trace := trace + RingFlushes(base, n);
    }

    method FlushVsid(e: nat)
      requires Ok() && w.ins.Idle? && e in t.ents
      modifies this`trace, t`mem, t`hash, t`tlb
      ensures Ok() && trace == old(trace) + [FlushEnt(e)] && Stepped(old(Sys()), FlushEnt(e), Sys())
    {
      hide Run, PteMem.Valid, RangesOk, Tab, FlushKeys;
      ghost var s := Sys();
      t.FlushVsid(e);
      Log(s, FlushEnt(e));
    }

    method ClearAllVsids()
      requires Ok() && w.ins.Idle?
      modifies this`trace, t`mem, t`hash, t`tlb, t`ents
      ensures Ok() && trace == old(trace) + [ClearAll] && Stepped(old(Sys()), ClearAll, Sys())
    {
      hide Run, PteMem.Valid, RangesOk, Tab, FlushKeys;
      ghost var s := Sys();
      t.ClearAllVsids();
      Log(s, ClearAll);
    }

    /** alloc_vsid_ent: clears everything first if the context numbers wrap. */
    method AllocVsidEnt(e: nat, ids: Ids, needAlloc: bool, wraps: bool, gotChunk: bool) returns (ok: bool)
      requires Ok() && w.ins.Idle? && e !in t.ents && FreshIds(if needAlloc && wraps then map[] else t.ents, ids)
      modifies this`trace, t`mem, t`hash, t`tlb, t`ents
      ensures Ok() && (ok <==> !needAlloc || gotChunk)
      ensures var cleared := if needAlloc && wraps then [ClearAll] else [];
              trace == old(trace) + cleared + if ok then [AllocEnt(e, ids)] else []
    {
      hide Run, PteMem.Valid, RangesOk, Tab, FlushKeys;
      ghost var s := Sys();
      ok := t.AllocVsidEnt(e, ids, needAlloc, wraps, gotChunk);
      if needAlloc && wraps {
        Then(START, trace, s, ClearAll);
        trace, s := trace + [ClearAll], Apply(s, ClearAll);
      }
      if ok {
        Log(s, AllocEnt(e, ids));
      }
    }

    /** mtable_reclaim: some entries without records are dropped, nothing else. */
    method Reclaim(inUse: set<nat>)
      requires Ok() && w.ins.Idle?
      modifies this`trace, t`mem, t`ents
      ensures Ok() && Sys() == old(Sys()).(ents := t.ents)
      ensures old(trace) <= trace && forall i :: |old(trace)| <= i < |trace| ==> trace[i].DropEnt?
      ensures forall e :: e in old(t.ents) ==> (e !in t.ents <==> KeysOfEnt(t.V().tab, e) == {} && e !in inUse)
    {
      hide Run, PteMem.Valid, RangesOk, Tab, FlushKeys, KeysOfEnt;
      ghost var s := Sys();
      t.Reclaim(inUse);
      ghost var gone := s.ents.Keys - t.ents.Keys;
      assert t.ents == s.ents - gone;
      ghost var drops := DropAll(s, gone);
      RunsJoin(START, trace, s, drops, Sys());
      trace := trace + drops;
    }

    /** mtable_memory_check: a failure clears everything. */
    method MemoryCheck(tabs: seq<nat>, recs: seq<nat>) returns (failed: bool)
      requires Ok() && w.ins.Idle? && Distinct(tabs) && Distinct(recs)
      requires forall h :: h in t.mem.eaNext && h.Slot? ==> h.tab !in tabs
      requires forall h :: h in t.mem.eaNext && h.Rec? ==> h.id !in recs
      modifies this`trace, t`mem, t`hash, t`tlb, t`ents
      ensures Ok() && trace == old(trace) + if failed then [ClearAll] else []
      ensures !failed ==> t.mem.freePents != Null && t.mem.freeTables != Null
    {
      hide Run, PteMem.Valid, RangesOk, Tab, FlushKeys;
      ghost var s := Sys();
      failed := t.MemoryCheck(tabs, recs);
      if failed {
        Log(s, ClearAll);
      }
    }

    method RegisterLvrange(rng: nat, base: nat, size: nat)
      requires Ok() && w.ins.Idle? && size % 0x1000 == 0
      requires forall h :: (h in t.mem.own || h in t.mem.eaNext) && h.Head? ==> h.rng != rng
      requires forall i :: 0 <= i < |t.lvranges| ==> t.lvranges[i].rng != rng
      modifies this`trace, t`mem, t`lvranges
      ensures Ok() && trace == old(trace) + [Register(LvRange(rng, base, size))]
    {
      hide Run, PteMem.Valid, RangesOk, Tab;
      ghost var s := Sys();
      assert NamesApart(s.ranges) by {
        StartBasics();
        RunBasics(START, trace, s);
      }
      t.RegisterLvrange(rng, base, size);
      Log(s, Register(LvRange(rng, base, size)));
    }

    /** free_lvrange of a range that no range registered later overlaps. */
    method FreeLvrange(k: nat)
      requires Ok() && w.ins.Idle? && k < |t.lvranges|
      requires forall x :: 0 <= x < t.lvranges[k].size / 0x1000 ==>
                 Locate(t.lvranges, t.lvranges[k].base + x * 0x1000) == Some(LvId(t.lvranges[k].rng, x))
      modifies this`trace, t`mem, t`hash, t`tlb, t`lvranges
      ensures Ok() && trace == old(trace) + [FreeRange(k)]
    {
      hide Run, PteMem.Valid, RangesOk, Tab, FlushKeys, KeysOfLvs, LvsBetween;
      ghost var s := Sys();
      t.FreeLvrange(k);
      Log(s, FreeRange(k));
    }

    /** The hardware reads a PTE into the TLB. */
    method TlbLoad(slot: nat)
      requires Ok() && slot in t.hash
      modifies this`trace, t`tlb
      ensures Ok() && trace == old(trace) + [ReverseMap.TlbLoad(slot)]
    {
      hide Run, PteMem.Valid, RangesOk, Tab;
      ghost var s := Sys();
      t.tlb := t.tlb + {t.hash[slot]};
      Log(s, ReverseMap.TlbLoad(slot));
    }

    /** Linux takes a slot of the hash table. */
    method Evict(slot: nat)
      requires Ok()
      modifies this`trace, t`hash
      ensures Ok() && trace == old(trace) + [ReverseMap.Evict(slot)]
    {
      hide Run, PteMem.Valid, RangesOk, Tab;
      ghost var s := Sys();
      t.hash := t.hash - {slot};
      Log(s, ReverseMap.Evict(slot));
    }
  }

  /** The host's table, with its slots numbered, holds the PTEs of the machine: those of
      the VSIDs that are MOL's own. */
  ghost predicate Shows(hash: map<nat, Trans>, table: map<PteHash.HashSlot, bv32>, num: PteHash.HashSlot -> nat,
                        ours: set<bv32>, vsidOf: bv32 -> int, pageOf: bv32 -> nat) {
    && (forall a, b :: num(a) == num(b) ==> a == b)
    && (forall n :: n in hash ==> exists slot :: num(slot) == n)
    && (forall slot, v, p :: v in ours ==>
          (PteHash.Translates(table, slot, v, p) <==>
             num(slot) in hash && hash[num(slot)].vsid == vsidOf(v) && hash[num(slot)].page == pageOf(p)))
  }

  /** The slot that find_pte_slot returns keeps the rule of one PTE for an address if and
      only if no other slot of the host's table translates the address; when that is,
      PteHash.HostHash.InsertPte says. */
  lemma SlotKeepsRule(s: State, key: Key, lvr: Option<LvRange>, lvptr: nat, table: map<PteHash.HashSlot, bv32>,
                      slot: PteHash.HashSlot, vsid: bv32, page: bv32, num: PteHash.HashSlot -> nat,
                      ours: set<bv32>, vsidOf: bv32 -> int, pageOf: bv32 -> nat)
    requires Shows(s.v.hash, table, num, ours, vsidOf, pageOf) && vsid in ours
    requires key.ent in s.ents && VsidOf(s.ents, key) == vsidOf(vsid) && key.page == pageOf(page)
    ensures Meets(OnePte, s, Pick(key, num(slot), lvr, lvptr)) <==> PteHash.OnlySlot(table, slot, vsid, page)
  {
    hide PteHash.Translates;
    var hash := s.v.hash;
    if PteHash.OnlySlot(table, slot, vsid, page) {
      forall n | n in hash && n != num(slot)
        ensures !(hash[n].vsid == vsidOf(vsid) && hash[n].page == pageOf(page))
      {
        var other :| num(other) == n;
        assert !PteHash.Translates(table, other, vsid, page);
      }
    } else {
      var other :| other != slot && PteHash.Translates(table, other, vsid, page);
      assert num(other) in hash && num(other) != num(slot);
    }
  }

  lemma StartInv()
    ensures Inv(START)
  {
  }

  lemma StartBasics()
    ensures Basics(START)
  {
  }
}

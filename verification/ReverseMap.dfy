/**
 The PTE reverse map as a value, and the protocol that keeps it complete.

 MOL enters PTEs into the host's hash table.  For each of them it keeps a record
 from which the PTE can be found again, by guest address or by Linux page.  This
 module describes the records as a plain map, says what each kind of flush does
 to them, and follows every run of the insertion protocol interleaved with Linux
 tearing pages down.  No translation outlives its page as long as four rules are
 kept: ranges are registered in whole pages and apart from each other; Linux does not
 report the page of an insertion in flight by another address than the first of the
 page; get_phys_page does not take its bad_area exit; and no PTE is stored for an
 address that another slot translates.  Each rule is needed: for each there is a run
 from the initial state that breaks the property and keeps the other three.

 Module PteRings keeps the same map in rings that are edited in place, and proves
 that its methods act on it exactly as the functions here do.
 */
module ReverseMap {
  import opened Options

  /** An lv ring: a registered range, and the index of a page in it. */
  datatype LvId = LvId(rng: nat, idx: nat)

  /** A registered range of Linux virtual addresses, with one resident record a page. */
  datatype LvRange = LvRange(rng: nat, base: nat, size: nat)

  predicate InRange(r: LvRange, lvptr: nat) {
    r.base <= lvptr < r.base + r.size
  }

  /** The ring of an address: the first range that holds it decides. */
  function Locate(ranges: seq<LvRange>, lvptr: nat): Option<LvId> {
    if ranges == [] then None
    else if InRange(ranges[0], lvptr) then Some(LvId(ranges[0].rng, (lvptr - ranges[0].base) / 0x1000))
    else Locate(ranges[1..], lvptr)
  }

  /** The ring pte_inserted links a record to: it goes by the range it was given. */
  function LvPage(lvr: Option<LvRange>, lvptr: nat): Option<LvId>
    requires lvr.Some? ==> InRange(lvr.value, lvptr)
  {
    if lvr.Some? then Some(LvId(lvr.value.rng, (lvptr - lvr.value.base) / 0x1000)) else None
  }

  /** The first address of the page an address is in. */
  function PageStart(lvptr: nat): nat {
    lvptr - lvptr % 0x1000
  }

  /** A guest address: a VSID entry, bits 4-19 of the address, and which of the
      entry's two Linux VSIDs the access uses. */
  datatype Key = Key(ent: nat, page: nat, sv: bool)

  /** A record: the index of the hash slot, and the lv ring the record is on. */
  datatype Entry = Entry(slot: nat, lv: Option<LvId>)

  /** A translation as the hardware sees it, and the address of the Linux page it
      was made for. */
  datatype Trans = Trans(vsid: int, page: nat, lpage: Option<nat>, frame: int)

  /** The records, the valid slots of the hash table, and the on-chip TLB. */
  datatype View = View(tab: map<Key, Entry>, hash: map<nat, Trans>, tlb: set<Trans>)

  /** The six address bits (14-19) that tlbie looks at. */
  function TlbBits(page: nat): nat {
    page % 64
  }

  /** tlbie drops every TLB entry, of whatever VSID, that agrees in bits 14-19. */
  function Tlbie(tlb: set<Trans>, bits: nat): set<Trans> {
    set t | t in tlb && TlbBits(t.page) != bits
  }

  /** Slots and TLB bits named by a set of records. */
  ghost function SlotsOf(tab: map<Key, Entry>, ks: set<Key>): set<nat> {
    set k | k in ks && k in tab :: tab[k].slot
  }

  ghost predicate HitBits(tab: map<Key, Entry>, ks: set<Key>, bits: nat) {
    exists k :: k in ks && k in tab && TlbBits(k.page) == bits
  }

  /** What every flush does: drop some records, zero the slots they name (whoever
      owns the slot by now), and invalidate their addresses in the TLB. */
  ghost function FlushKeys(v: View, ks: set<Key>): View {
    View(v.tab - ks,
         v.hash - SlotsOf(v.tab, ks),
         set t | t in v.tlb && !HitBits(v.tab, ks, TlbBits(t.page)))
  }

  ghost function KeysOfEa(tab: map<Key, Entry>, ent: nat, page: nat): set<Key> {
    set k | k in tab && k.ent == ent && k.page == page
  }

  ghost function KeysOfLv(tab: map<Key, Entry>, lv: LvId): set<Key> {
    set k | k in tab && tab[k].lv == Some(lv)
  }

  ghost function KeysOfEnt(tab: map<Key, Entry>, ent: nat): set<Key> {
    set k | k in tab && k.ent == ent
  }

  /** The rings of n pages from an address on, and the records on a set of rings. */
  ghost function LvsBetween(ranges: seq<LvRange>, base: nat, n: nat): set<LvId> {
    set i | 0 <= i < n && Locate(ranges, base + i * 0x1000).Some? :: Locate(ranges, base + i * 0x1000).value
  }

  ghost function KeysOfLvs(tab: map<Key, Entry>, ids: set<LvId>): set<Key> {
    set k | k in tab && tab[k].lv.Some? && tab[k].lv.value in ids
  }

  /** What flush_lvptr_ does, given an address. */
  ghost function FlushedAt(v: View, ranges: seq<LvRange>, lvptr: nat): View {
    var id := Locate(ranges, lvptr);
    if id.Some? then FlushKeys(v, KeysOfLv(v.tab, id.value)) else v
  }

  /** Two flushes in a row are one flush of both sets. */
  lemma FlushTwice(v: View, a: set<Key>, b: set<Key>)
    ensures FlushKeys(FlushKeys(v, a), b) == FlushKeys(v, a + b)
  {
    var w := FlushKeys(v, a);
    var x := FlushKeys(w, b);
    var y := FlushKeys(v, a + b);
    assert x.tab == y.tab;
    assert SlotsOf(v.tab, a) + SlotsOf(w.tab, b) == SlotsOf(v.tab, a + b) by {
      forall s | s in SlotsOf(v.tab, a + b)
        ensures s in SlotsOf(v.tab, a) + SlotsOf(w.tab, b)
      {
        var k :| k in a + b && k in v.tab && v.tab[k].slot == s;
        if k !in a {
          assert k in b && k in w.tab && w.tab[k].slot == s;
        }
      }
    }
    assert x.hash == y.hash;
    forall bits: nat
      ensures HitBits(v.tab, a + b, bits) <==> HitBits(v.tab, a, bits) || HitBits(w.tab, b, bits)
    {
      if HitBits(v.tab, a + b, bits) && !HitBits(v.tab, a, bits) {
        var k :| k in a + b && k in v.tab && TlbBits(k.page) == bits;
        assert k !in a && k in b && k in w.tab;
      }
    }
    assert x.tlb == y.tlb;
  }

  lemma FlushNone(v: View)
    ensures FlushKeys(v, {}) == v
  {
    assert FlushKeys(v, {}).tlb == v.tlb;
  }

  /** Recording a PTE: an existing record of the address is reused, and keeps its
      old lv ring when the new mapping has none. */
  function Committed(tab: map<Key, Entry>, k: Key, slot: nat, lv: Option<LvId>): map<Key, Entry> {
    tab[k := Entry(slot, if lv.Some? then lv else if k in tab then tab[k].lv else None)]
  }

  /** Writing a PTE to its slot; the store ends with a tlbie. */
  function Stored(v: View, slot: nat, tr: Trans): View {
    v.(hash := v.hash[slot := tr], tlb := Tlbie(v.tlb, TlbBits(tr.page)))
  }

  // ------------------------------------------------------------ pages and ranges

  /** Range k is the first that holds the address. */
  ghost predicate FirstHolds(ranges: seq<LvRange>, k: nat, lvptr: nat) {
    k < |ranges| && InRange(ranges[k], lvptr) && forall j :: 0 <= j < k ==> !InRange(ranges[j], lvptr)
  }

  lemma {:induction false} LocateFirst(ranges: seq<LvRange>, i: nat, lvptr: nat) returns (k: nat)
    requires i < |ranges| && InRange(ranges[i], lvptr)
    ensures k <= i && FirstHolds(ranges, k, lvptr) && Locate(ranges, lvptr) == LvPage(Some(ranges[k]), lvptr)
    decreases |ranges|
  {
    if InRange(ranges[0], lvptr) {
      k := 0;
    } else {
      var rest := ranges[1..];
      assert rest[i - 1] == ranges[i];
      k := LocateFirst(rest, i - 1, lvptr);
      forall j | 0 <= j < k + 1
        ensures !InRange(ranges[j], lvptr)
      {
        assert j > 0 ==> ranges[j] == rest[j - 1];
      }
      k := k + 1;
    }
  }

  lemma {:induction false} LocateFound(ranges: seq<LvRange>, lvptr: nat)
    ensures Locate(ranges, lvptr).Some? <==> exists i :: 0 <= i < |ranges| && InRange(ranges[i], lvptr)
    decreases |ranges|
  {
    if ranges != [] && !InRange(ranges[0], lvptr) {
      var rest := ranges[1..];
      LocateFound(rest, lvptr);
      forall i | 0 <= i < |rest| && InRange(rest[i], lvptr)
        ensures exists j :: 0 <= j < |ranges| && InRange(ranges[j], lvptr)
      {
        assert InRange(ranges[i + 1], lvptr);
      }
      forall i | 0 <= i < |ranges| && InRange(ranges[i], lvptr)
        ensures exists j :: 0 <= j < |rest| && InRange(rest[j], lvptr)
      {
        assert InRange(rest[i - 1], lvptr);
      }
    }
  }

  ghost predicate NamesApart(ranges: seq<LvRange>) {
    forall i, j :: 0 <= i < j < |ranges| ==> ranges[i].rng != ranges[j].rng
  }

  /** An address is looked up in a range of its own exactly when no range registered
      later holds it too. */
  lemma {:induction false} LocateOwnRange(ranges: seq<LvRange>, i: nat, lvptr: nat)
    requires NamesApart(ranges) && i < |ranges| && InRange(ranges[i], lvptr)
    ensures Locate(ranges, lvptr) == LvPage(Some(ranges[i]), lvptr) <==>
            forall j :: 0 <= j < i ==> !InRange(ranges[j], lvptr)
  {
    var k := LocateFirst(ranges, i, lvptr);
  }

  /** The record is of the page of the address, through some registered range. */
  ghost predicate OfPage(ranges: seq<LvRange>, e: Entry, lvptr: nat) {
    exists i :: 0 <= i < |ranges| && InRange(ranges[i], lvptr) && e.lv == LvPage(Some(ranges[i]), lvptr)
  }

  ghost predicate FlushLeavesNone(ranges: seq<LvRange>, v: View, lvptr: nat) {
    var tab := FlushedAt(v, ranges, lvptr).tab;
    forall k :: k in tab ==> !OfPage(ranges, tab[k], lvptr)
  }

  /** At most one registered range holds the address. */
  ghost predicate HeldOnce(ranges: seq<LvRange>, lvptr: nat) {
    forall i, j :: 0 <= i < j < |ranges| ==> !(InRange(ranges[i], lvptr) && InRange(ranges[j], lvptr))
  }

  /** A flush of an address leaves no record of its page, whatever the records are,
      if and only if at most one registered range holds the address. */
  lemma FlushLeavesNoneIff(ranges: seq<LvRange>, lvptr: nat)
    requires NamesApart(ranges)
    ensures (forall v: View :: FlushLeavesNone(ranges, v, lvptr)) <==> HeldOnce(ranges, lvptr)
  {
    if HeldOnce(ranges, lvptr) {
      forall v: View
        ensures FlushLeavesNone(ranges, v, lvptr)
      {
        HeldOnceLeavesNone(ranges, v, lvptr);
      }
    } else {
      var i, j :| 0 <= i < j < |ranges| && InRange(ranges[i], lvptr) && InRange(ranges[j], lvptr);
      var v := View(map[Key(0, 0, false) := Entry(0, LvPage(Some(ranges[j]), lvptr))], map[], {});
      LocateOwnRange(ranges, j, lvptr);
      LocateFound(ranges, lvptr);
      var tab := FlushedAt(v, ranges, lvptr).tab;
      assert Key(0, 0, false) !in KeysOfLv(v.tab, Locate(ranges, lvptr).value);
      assert Key(0, 0, false) in tab && OfPage(ranges, tab[Key(0, 0, false)], lvptr);
      assert !FlushLeavesNone(ranges, v, lvptr);
    }
  }

  lemma HeldOnceLeavesNone(ranges: seq<LvRange>, v: View, lvptr: nat)
    requires NamesApart(ranges) && HeldOnce(ranges, lvptr)
    ensures FlushLeavesNone(ranges, v, lvptr)
  {
    var tab := FlushedAt(v, ranges, lvptr).tab;
    forall k, i | k in tab && 0 <= i < |ranges| && InRange(ranges[i], lvptr)
      ensures tab[k].lv != LvPage(Some(ranges[i]), lvptr)
    {
      LocateOwnRange(ranges, i, lvptr);
      assert k !in KeysOfLv(v.tab, Locate(ranges, lvptr).value);
    }
  }

  predicate WholePages(r: LvRange) {
    r.base % 0x1000 == 0 && r.size % 0x1000 == 0
  }

  predicate Apart(r: LvRange, q: LvRange) {
    r.base + r.size <= q.base || q.base + q.size <= r.base
  }

  /** Ranges of whole pages, with names of their own, no two of which overlap. */
  ghost predicate RangesApart(ranges: seq<LvRange>) {
    && NamesApart(ranges)
    && (forall i :: 0 <= i < |ranges| ==> WholePages(ranges[i]))
    && (forall i, j :: 0 <= i < j < |ranges| ==> Apart(ranges[i], ranges[j]))
  }

  lemma LocateOnly(ranges: seq<LvRange>, r: LvRange, lvptr: nat)
    requires RangesApart(ranges) && r in ranges && InRange(r, lvptr)
    ensures Locate(ranges, lvptr) == LvPage(Some(r), lvptr)
  {
    var i :| 0 <= i < |ranges| && ranges[i] == r;
    forall j | 0 <= j < i
      ensures !InRange(ranges[j], lvptr)
    {
      assert Apart(ranges[j], ranges[i]);
    }
    LocateOwnRange(ranges, i, lvptr);
  }

  lemma SamePageInRange(r: LvRange, a: nat)
    requires WholePages(r)
    ensures InRange(r, PageStart(a)) <==> InRange(r, a)
    ensures InRange(r, a) ==> (PageStart(a) - r.base) / 0x1000 == (a - r.base) / 0x1000
  {
  }

  /** An address and the first address of its page are on the same ring. */
  lemma {:induction false} LocatePage(ranges: seq<LvRange>, a: nat)
    requires forall i :: 0 <= i < |ranges| ==> WholePages(ranges[i])
    ensures Locate(ranges, PageStart(a)) == Locate(ranges, a)
    decreases |ranges|
  {
    if ranges != [] {
      SamePageInRange(ranges[0], a);
      LocatePage(ranges[1..], a);
    }
  }

  /** A new range that overlaps none changes no ring. */
  lemma LocateAdded(ranges: seq<LvRange>, r: LvRange, a: nat)
    requires forall i :: 0 <= i < |ranges| ==> Apart(r, ranges[i])
    requires Locate(ranges, a).Some?
    ensures Locate([r] + ranges, a) == Locate(ranges, a)
  {
    LocateFound(ranges, a);
    var i :| 0 <= i < |ranges| && InRange(ranges[i], a);
    assert Apart(r, ranges[i]);
    assert ([r] + ranges)[1..] == ranges;
  }

  /** Taking out a range changes no ring of an address outside it. */
  lemma {:induction false} LocateDropped(ranges: seq<LvRange>, k: nat, a: nat)
    requires k < |ranges| && !InRange(ranges[k], a)
    ensures Locate(ranges[..k] + ranges[k + 1..], a) == Locate(ranges, a)
    decreases k
  {
    var rest := ranges[1..];
    if k == 0 {
      assert ranges[..k] + ranges[k + 1..] == rest;
    } else {
      assert (ranges[..k] + ranges[k + 1..])[1..] == rest[..k - 1] + rest[k..];
      LocateDropped(rest, k - 1, a);
    }
  }

  // ---------------------------------------------------------------- the system

  /** The two Linux VSIDs of a VSID entry. */
  datatype Ids = Ids(user: int, sv: int)

  /** Linux's own page table entry of a page MOL maps. */
  datatype Lpte = Lpte(present: bool, frame: int, hashpte: bool)

  /** How far the one insertion in progress has come.  Without a range the mapping is
      physical and has no Linux page. */
  datatype Insertion =
    | Idle
    | Picked(key: Key, slot: nat, lvr: Option<LvRange>, lvptr: nat)
    | Reserving(key: Key, slot: nat, lvr: Option<LvRange>, lvptr: nat)
    | Reserved(key: Key, slot: nat, lvr: Option<LvRange>, lvptr: nat)
    | Marked(key: Key, slot: nat, lvr: Option<LvRange>, lvptr: nat, frame: int)
    | InHash(key: Key, slot: nat, lvr: Option<LvRange>, lvptr: nat, tr: Trans)

  function LinuxPage(lvr: Option<LvRange>, lvptr: nat): Option<nat> {
    if lvr.Some? then Some(lvptr) else None
  }

  /** Pages are known by their first address throughout. */
  datatype State = State(
    v: View,
    ents: map<nat, Ids>,
    ranges: seq<LvRange>,
    linux: map<nat, Lpte>,
    vmas: set<nat>,              // pages the emulator may touch as it asks to
    pending: set<nat>,           // unmapped by Linux, flush_lvptr not yet called
    ins: Insertion,
    reservation: Option<nat>,
    lost: bool)

  function VsidOf(ents: map<nat, Ids>, k: Key): int
    requires k.ent in ents
  {
    if k.sv then ents[k.ent].sv else ents[k.ent].user
  }

  /** No slot other than the given one translates the address. */
  ghost predicate NoOther(hash: map<nat, Trans>, vsid: int, page: nat, slot: nat) {
    forall s :: s in hash && s != slot ==> !(hash[s].vsid == vsid && hash[s].page == page)
  }

  datatype Step =
    | Pick(key: Key, slot: nat, lvr: Option<LvRange>, lvptr: nat)   // mphys_to_pte, find_pte_slot
    | ReserveAddress                                // make_lvptr_reservation, first store
    | ReserveClear                                  // make_lvptr_reservation, second store
    | Retry                                         // no page: handle_mm_fault, and again
    | BadArea                                       // no page and no vma: frame 0 all the same
    | Mark                                          // fix_pte succeeded
    | Store(physFrame: int)                         // __store_PTE
    | Commit                                        // pte_inserted
    | FlushLv(lvp: nat)                             // flush_lvptr, asynchronous
    | FlushRing(lvp: nat)                           // one page of flush_lv_range
    | FlushEa(ent: nat, page: nat)                  // flush_vsid_ea
    | FlushEnt(ent: nat)                            // flush_vsid
    | AllocEnt(ent: nat, ids: Ids)                  // alloc_vsid_ent
    | DropEnt(ent: nat)                             // mtable_reclaim, skiplist_delete
    | ClearAll                                      // clear_all_vsids
    | Register(range: LvRange)                      // register_lvrange
    | FreeRange(rangeInd: nat)                      // free_lvrange
    | TlbLoad(slot: nat)                            // the CPU caches a PTE
    | Evict(slot: nat)                              // somebody else takes the slot
    | PageIn(lpage: nat, frame: int)                // Linux maps the page
    | Unmap(lpage: nat)                             // Linux unmaps the page
    | Mmap(lpage: nat)                              // the page gets a vma
    | Munmap(lpage: nat)                            // the page loses its vma

  ghost predicate Present(s: State, p: nat) {
    p in s.linux && s.linux[p].present
  }

  /** Which steps can happen.  Everything but the asynchronous steps runs on the
      emulator thread and so never in the middle of an insertion. */
  ghost predicate Enabled(s: State, st: Step) {
    match st
    case Pick(k, slot, lvr, lvptr) =>
      && s.ins.Idle?
      && k.ent in s.ents
      && (lvr.Some? ==> lvr.value in s.ranges && InRange(lvr.value, lvptr) && PageStart(lvptr) == lvptr)
    case ReserveAddress => s.ins.Picked? && s.ins.lvr.Some?
    case ReserveClear => s.ins.Reserving?
    case Retry =>
      (s.ins.Picked? || s.ins.Reserved?) && s.ins.lvr.Some? && !Present(s, s.ins.lvptr) && s.ins.lvptr in s.vmas
    case BadArea =>
      (s.ins.Picked? || s.ins.Reserved?) && s.ins.lvr.Some? && !Present(s, s.ins.lvptr) && s.ins.lvptr !in s.vmas
    case Mark => s.ins.Reserved? && s.ins.lvr.Some? && Present(s, s.ins.lvptr)
    case Store(_) => (s.ins.Marked? || (s.ins.Picked? && s.ins.lvr.None?)) && s.ins.key.ent in s.ents
    case Commit => s.ins.InHash? && (s.ins.lvr.Some? ==> InRange(s.ins.lvr.value, s.ins.lvptr))
    case FlushLv(_) => true
    case FlushRing(_) => s.ins.Idle?
    case FlushEa(_, _) => s.ins.Idle?
    case FlushEnt(_) => s.ins.Idle?
    case AllocEnt(e, ids) => s.ins.Idle? && e !in s.ents && FreshIds(s.ents, ids)
    case DropEnt(e) => s.ins.Idle? && KeysOfEnt(s.v.tab, e) == {}
    case ClearAll => s.ins.Idle?
    case Register(r) => s.ins.Idle? && r.size % 0x1000 == 0 && NamesApart([r] + s.ranges)
    case FreeRange(k) => s.ins.Idle? && k < |s.ranges|
    case TlbLoad(slot) => slot in s.v.hash
    case Evict(_) => true
    case PageIn(p, _) => PageStart(p) == p && !Present(s, p) && p in s.vmas
    case Unmap(p) => Present(s, p)
    case Mmap(p) => true
    case Munmap(p) => !Present(s, p)
  }

  /** alloc_context never hands out a number twice (module Contexts). */
  ghost predicate FreshIds(ents: map<nat, Ids>, ids: Ids) {
    && ids.user != ids.sv
    && forall e :: e in ents ==>
         ids.user != ents[e].user && ids.user != ents[e].sv && ids.sv != ents[e].user && ids.sv != ents[e].sv
  }

  ghost function Apply(s: State, st: Step): State
    requires Enabled(s, st)
  {
    match st
    case Pick(k, slot, lvr, lvptr) => s.(ins := Picked(k, slot, lvr, lvptr))
    case ReserveAddress =>
      s.(ins := Reserving(s.ins.key, s.ins.slot, s.ins.lvr, s.ins.lvptr), reservation := Some(s.ins.lvptr))
    case ReserveClear => s.(ins := Reserved(s.ins.key, s.ins.slot, s.ins.lvr, s.ins.lvptr), lost := false)
    case Retry => s.(ins := Picked(s.ins.key, s.ins.slot, s.ins.lvr, s.ins.lvptr))
    case BadArea => s.(ins := Marked(s.ins.key, s.ins.slot, s.ins.lvr, s.ins.lvptr, 0))
    case Mark =>
      var p := s.ins.lvptr;
      s.(ins := Marked(s.ins.key, s.ins.slot, s.ins.lvr, p, s.linux[p].frame),
         linux := s.linux[p := s.linux[p].(hashpte := true)])
    case Store(pf) =>
      var f := if s.ins.Marked? then s.ins.frame else pf;
      var tr := Trans(VsidOf(s.ents, s.ins.key), s.ins.key.page, LinuxPage(s.ins.lvr, s.ins.lvptr), f);
      s.(ins := InHash(s.ins.key, s.ins.slot, s.ins.lvr, s.ins.lvptr, tr), v := Stored(s.v, s.ins.slot, tr))
    case Commit =>
      if s.ins.lvr.Some? && s.lost then
        s.(ins := Idle,
           v := s.v.(hash := s.v.hash - {s.ins.slot}, tlb := Tlbie(s.v.tlb, TlbBits(s.ins.key.page))))
      else
        s.(ins := Idle,
           v := s.v.(tab := Committed(s.v.tab, s.ins.key, s.ins.slot, LvPage(s.ins.lvr, s.ins.lvptr))))
    case FlushLv(a) =>
      s.(v := FlushedAt(s.v, s.ranges, a),
         lost := s.lost || s.reservation == Some(a),
         pending := s.pending - {PageStart(a)})
    case FlushRing(a) => s.(v := FlushedAt(s.v, s.ranges, a))
    case FlushEa(e, page) => s.(v := FlushKeys(s.v, KeysOfEa(s.v.tab, e, page)))
    case FlushEnt(e) => s.(v := FlushKeys(s.v, KeysOfEnt(s.v.tab, e)))
    case AllocEnt(e, ids) => s.(ents := s.ents[e := ids])
    case DropEnt(e) => s.(ents := s.ents - {e})
    case ClearAll => s.(v := FlushKeys(s.v, s.v.tab.Keys), ents := map[])
    case Register(r) => s.(ranges := [r] + s.ranges)
    case FreeRange(k) =>
      var r := s.ranges[k];
      s.(v := FlushKeys(s.v, KeysOfLvs(s.v.tab, LvsBetween(s.ranges, r.base, r.size / 0x1000))),
         ranges := s.ranges[..k] + s.ranges[k + 1..])
    case TlbLoad(slot) => s.(v := s.v.(tlb := s.v.tlb + {s.v.hash[slot]}))
    case Evict(slot) => s.(v := s.v.(hash := s.v.hash - {slot}))
    case PageIn(p, f) => s.(linux := s.linux[p := Lpte(true, f, false)])
    case Unmap(p) =>
      s.(linux := s.linux[p := s.linux[p].(present := false)],
         pending := if s.linux[p].hashpte then s.pending + {p} else s.pending)
    case Mmap(p) => s.(vmas := s.vmas + {p})
    case Munmap(p) => s.(vmas := s.vmas - {p})
  }

  /** The page table entry that a translation to a frame was made from. */
  ghost predicate Backed(linux: map<nat, Lpte>, p: nat, frame: int) {
    p in linux && linux[p] == Lpte(true, frame, true)
  }

  /** The insertion in flight has looked the page up. */
  predicate LookedUp(ins: Insertion, p: nat) {
    (ins.Marked? || (ins.InHash? && ins.lvr.Some?)) && ins.lvptr == p
  }

  function FrameOf(ins: Insertion): int
    requires ins.Marked? || ins.InHash?
  {
    if ins.Marked? then ins.frame else ins.tr.frame
  }

  /** The insertion in flight is of the page, with a frame that is no longer its own, and
      only its reservation can stop it. */
  ghost predicate StaleInFlight(s: State, p: nat) {
    LookedUp(s.ins, p) && !s.lost && !Backed(s.linux, p, FrameOf(s.ins))
  }

  /** What the protocol relies on: ranges are registered in whole pages and apart from
      each other; the page of an insertion in flight that has gone stale is reported by
      its first address; the emulator does not map an address that it may not touch,
      unless the insertion is lost in any case; no other slot translates the address. */
  datatype Rule = RangesDisjoint | FlushByFirst | MayTouch | OnePte

  ghost predicate Meets(rule: Rule, s: State, st: Step) {
    match rule
    case RangesDisjoint =>
      st.Register? ==> WholePages(st.range) && forall i :: 0 <= i < |s.ranges| ==> Apart(st.range, s.ranges[i])
    case FlushByFirst =>
      st.FlushLv? ==> PageStart(st.lvp) == st.lvp || !StaleInFlight(s, PageStart(st.lvp))
    case MayTouch =>
      st.BadArea? && !s.ins.Idle? ==> s.lost || (s.ins.lvptr in s.pending && s.reservation == Some(s.ins.lvptr))
    case OnePte =>
      st.Pick? && st.key.ent in s.ents ==> NoOther(s.v.hash, VsidOf(s.ents, st.key), st.key.page, st.slot)
  }

  /** The step keeps every rule, but perhaps one. */
  ghost predicate Guarded(s: State, st: Step, but: Option<Rule>) {
    forall rule :: Some(rule) != but ==> Meets(rule, s, st)
  }

  // ------------------------------------------------------------ what is kept

  /** Some record stands for the translation, and is on the ring of its page. */
  ghost predicate Recorded(tab: map<Key, Entry>, ents: map<nat, Ids>, ranges: seq<LvRange>, tr: Trans, k: Key) {
    && k in tab && k.ent in ents
    && VsidOf(ents, k) == tr.vsid && k.page == tr.page
    && (tr.lpage.Some? ==> tab[k].lv.Some? && tab[k].lv == Locate(ranges, tr.lpage.value))
  }

  ghost predicate Covered(tab: map<Key, Entry>, ents: map<nat, Ids>, ranges: seq<LvRange>, tr: Trans) {
    exists k :: Recorded(tab, ents, ranges, tr, k)
  }

  ghost predicate SlotCovered(tab: map<Key, Entry>, ents: map<nat, Ids>, ranges: seq<LvRange>, slot: nat, tr: Trans) {
    exists k :: Recorded(tab, ents, ranges, tr, k) && tab[k].slot == slot
  }

  /** The translation agrees with Linux's page table, or Linux still owes a flush. */
  ghost predicate Current(linux: map<nat, Lpte>, pending: set<nat>, tr: Trans) {
    tr.lpage.Some? ==>
      var p := tr.lpage.value;
      p in pending || (p in linux && linux[p] == Lpte(true, tr.frame, true))
  }

  ghost predicate InFlight(s: State, tr: Trans) {
    s.ins.InHash? && tr == s.ins.tr
  }

  ghost predicate InvHash(s: State) {
    && (forall slot :: slot in s.v.hash && !(s.ins.InHash? && slot == s.ins.slot) ==>
          && SlotCovered(s.v.tab, s.ents, s.ranges, slot, s.v.hash[slot])
          && Current(s.linux, s.pending, s.v.hash[slot]))
    && (s.ins.InHash? && s.ins.slot in s.v.hash ==> s.v.hash[s.ins.slot] == s.ins.tr)
    && (forall slot :: slot in s.v.hash ==> NoOther(s.v.hash, s.v.hash[slot].vsid, s.v.hash[slot].page, slot))
  }

  ghost predicate InvTlb(s: State) {
    forall tr :: tr in s.v.tlb ==>
      && (InFlight(s, tr) || (Covered(s.v.tab, s.ents, s.ranges, tr) && Current(s.linux, s.pending, tr)))
      && (s.ins.InHash? && tr.vsid == s.ins.tr.vsid && tr.page == s.ins.tr.page ==> tr == s.ins.tr)
  }

  ghost predicate InvEnts(tab: map<Key, Entry>, ents: map<nat, Ids>) {
    && (forall e :: e in ents ==> ents[e].user != ents[e].sv)
    && (forall e, f :: e in ents && f in ents && e != f ==>
          ents[e].user != ents[f].user && ents[e].sv != ents[f].sv && ents[e].user != ents[f].sv)
    && (forall k :: k in tab ==> k.ent in ents)
  }

  /** Between marking the Linux PTE and the commit, a teardown of the page shows
      as a pending flush or as a lost reservation. */
  ghost predicate InvIns(s: State) {
    && (!s.ins.Idle? ==>
          && s.ins.key.ent in s.ents
          && NoOther(s.v.hash, VsidOf(s.ents, s.ins.key), s.ins.key.page, s.ins.slot)
          && (s.ins.lvr.Some? ==>
                && s.ins.lvr.value in s.ranges && InRange(s.ins.lvr.value, s.ins.lvptr)
                && PageStart(s.ins.lvptr) == s.ins.lvptr))
    && (s.ins.Reserving? || s.ins.Reserved? || s.ins.Marked? ==> s.ins.lvr.Some?)
    && (s.ins.Reserving? || s.ins.Reserved? ==> s.reservation == Some(s.ins.lvptr))
    && (s.ins.Marked? || (s.ins.InHash? && s.ins.lvr.Some?) ==> s.lost || s.reservation == Some(s.ins.lvptr))
    && (s.ins.Marked? ==>
          s.lost || Current(s.linux, s.pending,
                            Trans(VsidOf(s.ents, s.ins.key), s.ins.key.page, Some(s.ins.lvptr), s.ins.frame)))
    && (s.ins.InHash? ==>
          && s.ins.tr.vsid == VsidOf(s.ents, s.ins.key) && s.ins.tr.page == s.ins.key.page
          && s.ins.tr.lpage == LinuxPage(s.ins.lvr, s.ins.lvptr)
          && (s.lost || Current(s.linux, s.pending, s.ins.tr)))
  }

  ghost predicate Inv(s: State) {
    RangesApart(s.ranges) && InvEnts(s.v.tab, s.ents) && InvIns(s) && InvHash(s) && InvTlb(s)
  }

  ghost predicate Init(s: State) {
    s.v == View(map[], map[], {}) && s.ents == map[] && s.ranges == [] && s.pending == {} && s.ins.Idle?
  }

  ghost predicate Run(s: State, steps: seq<Step>, s': State)
    decreases |steps|
  {
    if steps == [] then s == s'
    else Enabled(s, steps[0]) && Run(Apply(s, steps[0]), steps[1..], s')
  }

  /** Every step of the run keeps the rules, but perhaps one. */
  ghost predicate AllGuarded(s: State, steps: seq<Step>, but: Option<Rule>)
    decreases |steps|
  {
    steps == [] ||
    (Guarded(s, steps[0], but) && (Enabled(s, steps[0]) ==> AllGuarded(Apply(s, steps[0]), steps[1..], but)))
  }

  /** A flush keeps coverage: whatever survives it lost no record. */
  lemma FlushKeeps(s: State, ks: set<Key>, s': State)
    requires Inv(s)
    requires s' == s.(v := FlushKeys(s.v, ks))
    ensures Inv(s')
  {
    hide RangesApart, InvHash, InvTlb;
    FlushKeepsHash(s, ks, s');
    FlushKeepsTlb(s, ks, s');
  }

  lemma FlushKeepsHash(s: State, ks: set<Key>, s': State)
    requires InvHash(s)
    requires s' == s.(v := FlushKeys(s.v, ks))
    ensures InvHash(s')
  {
    hide Locate;
    forall slot | slot in s'.v.hash && !(s.ins.InHash? && slot == s.ins.slot)
      ensures SlotCovered(s'.v.tab, s'.ents, s'.ranges, slot, s'.v.hash[slot])
      ensures Current(s'.linux, s'.pending, s'.v.hash[slot])
    {
      assert slot in s.v.hash;
      var k :| Recorded(s.v.tab, s.ents, s.ranges, s.v.hash[slot], k) && s.v.tab[k].slot == slot;
      assert k !in ks;
      assert Recorded(s'.v.tab, s'.ents, s'.ranges, s'.v.hash[slot], k);
    }
  }

  lemma FlushKeepsTlb(s: State, ks: set<Key>, s': State)
    requires InvTlb(s)
    requires s' == s.(v := FlushKeys(s.v, ks))
    ensures InvTlb(s')
  {
    hide Locate;
    forall tr | tr in s'.v.tlb && !InFlight(s, tr)
      ensures Covered(s'.v.tab, s'.ents, s'.ranges, tr) && Current(s'.linux, s'.pending, tr)
    {
      var k :| Recorded(s.v.tab, s.ents, s.ranges, tr, k);
      assert k !in ks;
      assert Recorded(s'.v.tab, s'.ents, s'.ranges, tr, k);
    }
  }

  /** No slot and no TLB entry maps the page, except through the slot of an insertion
      that has yet to commit. */
  ghost predicate Unmapped(s: State, v: View, p: nat) {
    && (forall slot :: slot in v.hash && !(s.ins.InHash? && slot == s.ins.slot) ==> v.hash[slot].lpage != Some(p))
    && (forall tr :: tr in v.tlb && !InFlight(s, tr) ==> tr.lpage != Some(p))
  }

  /** A flush of the records on the ring of a page leaves the page unmapped. */
  lemma RingFlushEmpties(s: State, ks: set<Key>, p: nat)
    requires Inv(s)
    requires Locate(s.ranges, p).Some? ==> KeysOfLv(s.v.tab, Locate(s.ranges, p).value) <= ks
    ensures Unmapped(s, FlushKeys(s.v, ks), p)
  {
    hide RangesApart, Locate, InvEnts, InvIns, NoOther;
    var v := FlushKeys(s.v, ks);
    forall slot | slot in v.hash && !(s.ins.InHash? && slot == s.ins.slot)
      ensures v.hash[slot].lpage != Some(p)
    {
      var k :| Recorded(s.v.tab, s.ents, s.ranges, s.v.hash[slot], k) && s.v.tab[k].slot == slot;
      assert s.v.hash[slot].lpage == Some(p) ==> k in ks && slot in SlotsOf(s.v.tab, ks);
    }
    forall tr | tr in v.tlb && !InFlight(s, tr)
      ensures tr.lpage != Some(p)
    {
      var k :| Recorded(s.v.tab, s.ents, s.ranges, tr, k);
      assert tr.lpage == Some(p) ==> k in ks && HitBits(s.v.tab, ks, TlbBits(tr.page));
    }
  }

  /** After flush_lvptr of any address of a page, the page is unmapped. */
  lemma FlushLvEmpties(s: State, a: nat)
    requires Inv(s)
    ensures Unmapped(s, Apply(s, FlushLv(a)).v, PageStart(a))
  {
    hide RangesApart, Locate, InvEnts, InvIns, NoOther, InvHash, InvTlb;
    assert Locate(s.ranges, PageStart(a)) == Locate(s.ranges, a) by {
      RangesAreWhole(s.ranges);
      LocatePage(s.ranges, a);
    }
    var id := Locate(s.ranges, a);
    if id.Some? {
      RingFlushEmpties(s, KeysOfLv(s.v.tab, id.value), PageStart(a));
    } else {
      RingFlushEmpties(s, {}, PageStart(a));
      FlushNone(s.v);
    }
  }

  lemma RangesAreWhole(ranges: seq<LvRange>)
    requires RangesApart(ranges)
    ensures forall i :: 0 <= i < |ranges| ==> WholePages(ranges[i])
  {
  }

  /** After flush_vsid_ea the address is translated by no slot and no TLB entry,
      under either Linux VSID of the entry. */
  lemma FlushEaEmpties(s: State, e: nat, page: nat)
    requires Inv(s) && s.ins.Idle? && e in s.ents
    ensures var s' := Apply(s, FlushEa(e, page));
            forall tr :: (tr in s'.v.hash.Values || tr in s'.v.tlb) && tr.page == page ==>
              tr.vsid != s.ents[e].user && tr.vsid != s.ents[e].sv
  {
    hide RangesApart, Locate;
    var s' := Apply(s, FlushEa(e, page));
    var ks := KeysOfEa(s.v.tab, e, page);
    forall tr | (tr in s'.v.hash.Values || tr in s'.v.tlb) && tr.page == page
      ensures tr.vsid != s.ents[e].user && tr.vsid != s.ents[e].sv
    {
      if tr in s'.v.hash.Values {
        var slot :| slot in s'.v.hash && s'.v.hash[slot] == tr;
        var k :| Recorded(s.v.tab, s.ents, s.ranges, s.v.hash[slot], k) && s.v.tab[k].slot == slot;
        assert k !in ks;
      } else {
        var k :| Recorded(s.v.tab, s.ents, s.ranges, tr, k);
        assert k in ks ==> HitBits(s.v.tab, ks, TlbBits(tr.page));
        assert k !in ks;
      }
    }
  }

  /** An entry without records has no translation left, so its VSIDs may go. */
  lemma UnrecordedEntIsUnused(s: State, e: nat)
    requires Inv(s) && s.ins.Idle? && e in s.ents && KeysOfEnt(s.v.tab, e) == {}
    ensures forall tr :: tr in s.v.hash.Values || tr in s.v.tlb ==>
              tr.vsid != s.ents[e].user && tr.vsid != s.ents[e].sv
  {
    hide RangesApart, Locate;
    forall tr | tr in s.v.hash.Values || tr in s.v.tlb
      ensures tr.vsid != s.ents[e].user && tr.vsid != s.ents[e].sv
    {
      var k: Key;
      if tr in s.v.hash.Values {
        var slot :| slot in s.v.hash && s.v.hash[slot] == tr;
        k :| Recorded(s.v.tab, s.ents, s.ranges, s.v.hash[slot], k) && s.v.tab[k].slot == slot;
      } else {
        k :| Recorded(s.v.tab, s.ents, s.ranges, tr, k);
      }
      assert k !in KeysOfEnt(s.v.tab, e);
      assert k.ent != e;
    }
  }

  // ------------------------------------------------------- one lemma per step

  lemma StoreKeeps(s: State, pf: int)
    requires Inv(s) && Enabled(s, Store(pf))
    ensures Inv(Apply(s, Store(pf)))
  {
    hide Covered, SlotCovered, RangesApart, InRange;
  }

  lemma CommitKeeps(s: State)
    requires Inv(s) && Enabled(s, Commit)
    ensures Inv(Apply(s, Commit))
  {
    if s.ins.lvr.Some? && s.lost {
      hide Covered, SlotCovered, InvEnts, RangesApart;
    } else {
      if s.ins.lvr.Some? {
        LocateOnly(s.ranges, s.ins.lvr.value, s.ins.lvptr);
      }
      CommitRecordedKeeps(s, Apply(s, Commit));
    }
  }

  lemma CommitRecordedKeeps(s: State, s': State)
    requires Inv(s) && Enabled(s, Commit) && !(s.ins.lvr.Some? && s.lost)
    requires s.ins.lvr.Some? ==> Locate(s.ranges, s.ins.lvptr) == LvPage(s.ins.lvr, s.ins.lvptr)
    requires s' == Apply(s, Commit)
    ensures Inv(s')
  {
    hide RangesApart, Locate, InRange, InvTlb, InvHash;
    assert Recorded(s'.v.tab, s'.ents, s'.ranges, s.ins.tr, s.ins.key);
    CommitKeepsHash(s, s');
    CommitKeepsTlb(s, s');
  }

  lemma CommitKeepsHash(s: State, s': State)
    requires Inv(s) && Enabled(s, Commit) && !(s.ins.lvr.Some? && s.lost) && s' == Apply(s, Commit)
    requires Recorded(s'.v.tab, s'.ents, s'.ranges, s.ins.tr, s.ins.key)
    ensures InvHash(s')
  {
    hide RangesApart, Locate, InRange, InvTlb;
    forall slot | slot in s'.v.hash
      ensures SlotCovered(s'.v.tab, s'.ents, s'.ranges, slot, s'.v.hash[slot])
      ensures Current(s'.linux, s'.pending, s'.v.hash[slot])
    {
      if slot == s.ins.slot {
        assert Recorded(s'.v.tab, s'.ents, s'.ranges, s'.v.hash[slot], s.ins.key) && s'.v.tab[s.ins.key].slot == slot;
      } else {
        var k :| Recorded(s.v.tab, s.ents, s.ranges, s.v.hash[slot], k) && s.v.tab[k].slot == slot;
        assert k != s.ins.key;
        assert Recorded(s'.v.tab, s'.ents, s'.ranges, s'.v.hash[slot], k);
      }
    }
  }

  lemma CommitKeepsTlb(s: State, s': State)
    requires Inv(s) && Enabled(s, Commit) && !(s.ins.lvr.Some? && s.lost) && s' == Apply(s, Commit)
    requires Recorded(s'.v.tab, s'.ents, s'.ranges, s.ins.tr, s.ins.key)
    ensures InvTlb(s')
  {
    hide RangesApart, Locate, InRange, InvHash, InvEnts;
    forall tr | tr in s'.v.tlb
      ensures Covered(s'.v.tab, s'.ents, s'.ranges, tr) && Current(s'.linux, s'.pending, tr)
    {
      if InFlight(s, tr) {
        assert Recorded(s'.v.tab, s'.ents, s'.ranges, tr, s.ins.key);
      } else {
        var k :| Recorded(s.v.tab, s.ents, s.ranges, tr, k);
        assert k != s.ins.key;
        assert Recorded(s'.v.tab, s'.ents, s'.ranges, tr, k);
      }
    }
  }

  /** Steps of the insertion before its store leave everything else alone. */
  lemma InsertionStepKeeps(s: State, st: Step)
    requires Inv(s) && Enabled(s, st) && Meets(MayTouch, s, st) && Meets(OnePte, s, st)
    requires st.Pick? || st.ReserveAddress? || st.ReserveClear? || st.Retry? || st.BadArea?
    ensures Inv(Apply(s, st))
  {
    hide Covered, SlotCovered, InvEnts, NoOther, RangesApart, InRange, PageStart, Current;
    var s' := Apply(s, st);
    assert InvHash(s') && InvTlb(s');
    if st.BadArea? && !s.lost {
      PendingIsCurrent(s, s'.ins);
    }
  }

  lemma PendingIsCurrent(s: State, ins: Insertion)
    requires ins.Marked? && ins.key.ent in s.ents && ins.lvptr in s.pending
    ensures Current(s.linux, s.pending, Trans(VsidOf(s.ents, ins.key), ins.key.page, Some(ins.lvptr), ins.frame))
  {
  }

  /** Steps that change Linux's tables leave records, hash and TLB alone. */
  lemma LinuxStepKeeps(s: State, st: Step)
    requires Inv(s) && Enabled(s, st) && (st.Mark? || st.PageIn? || st.Unmap? || st.Mmap? || st.Munmap?)
    ensures Inv(Apply(s, st))
  {
    hide Covered, SlotCovered, InvEnts, NoOther, RangesApart, InRange, PageStart;
  }

  lemma FlushedAtKeeps(s: State, a: nat, s': State)
    requires Inv(s)
    requires s' == s.(v := FlushedAt(s.v, s.ranges, a))
    ensures Inv(s')
  {
    hide Inv, FlushKeys, Locate;
    var id := Locate(s.ranges, a);
    if id.Some? {
      FlushKeeps(s, KeysOfLv(s.v.tab, id.value), s');
    }
  }

  lemma FlushLvKeeps(s: State, a: nat)
    requires Inv(s) && Meets(FlushByFirst, s, FlushLv(a))
    ensures Inv(Apply(s, FlushLv(a)))
  {
    hide Inv, FlushedAt, Unmapped, PageStart;
    var s' := Apply(s, FlushLv(a));
    FlushLvEmpties(s, a);
    var t := s.(v := s'.v);
    FlushedAtKeeps(s, a, t);
    assert Unmapped(t, t.v, PageStart(a)) by { SameInsertion(s, t, PageStart(a)); }
    PendingDoneKeeps(t, a, s');
  }

  lemma SameInsertion(s: State, t: State, p: nat)
    requires s.ins == t.ins && Unmapped(s, t.v, p)
    ensures Unmapped(t, t.v, p)
  {
  }

  /** A page that nothing maps any more owes no flush; an insertion of it is lost. */
  lemma PendingDoneKeeps(s: State, a: nat, s': State)
    requires Inv(s) && Unmapped(s, s.v, PageStart(a)) && Meets(FlushByFirst, s, FlushLv(a))
    requires s' == s.(lost := s.lost || s.reservation == Some(a), pending := s.pending - {PageStart(a)})
    ensures Inv(s')
  {
    hide Covered, SlotCovered, InvEnts, NoOther, RangesApart, InRange, PageStart;
  }

  /** Adding or dropping VSID entries or ranges that no translation needs. */
  lemma NamesChangeKeeps(s: State, s': State)
    requires Inv(s) && s.ins.Idle?
    requires s' == s.(ents := s'.ents, ranges := s'.ranges) && InvEnts(s'.v.tab, s'.ents) && RangesApart(s'.ranges)
    requires forall e :: e in s.ents && e in s'.ents ==> s.ents[e] == s'.ents[e]
    requires forall p: nat :: Locate(s.ranges, p).Some? && !Unmapped(s, s.v, p) ==>
               Locate(s'.ranges, p) == Locate(s.ranges, p)
    ensures Inv(s')
  {
    hide RangesApart, Locate;
    forall slot | slot in s'.v.hash
      ensures SlotCovered(s'.v.tab, s'.ents, s'.ranges, slot, s'.v.hash[slot])
    {
      var tr := s.v.hash[slot];
      var k :| Recorded(s.v.tab, s.ents, s.ranges, tr, k) && s.v.tab[k].slot == slot;
      if tr.lpage.Some? {
        assert !Unmapped(s, s.v, tr.lpage.value);
      }
      assert Recorded(s'.v.tab, s'.ents, s'.ranges, tr, k);
    }
    forall tr | tr in s'.v.tlb
      ensures Covered(s'.v.tab, s'.ents, s'.ranges, tr)
    {
      var k :| Recorded(s.v.tab, s.ents, s.ranges, tr, k);
      if tr.lpage.Some? {
        assert !Unmapped(s, s.v, tr.lpage.value);
      }
      assert Recorded(s'.v.tab, s'.ents, s'.ranges, tr, k);
    }
  }

  lemma RegisterKeeps(s: State, r: LvRange)
    requires Inv(s) && Enabled(s, Register(r)) && Meets(RangesDisjoint, s, Register(r))
    ensures Inv(Apply(s, Register(r)))
  {
    hide InvHash, InvTlb, InvIns, InvEnts, Locate, Unmapped;
    var s' := Apply(s, Register(r));
    forall p: nat | Locate(s.ranges, p).Some?
      ensures Locate(s'.ranges, p) == Locate(s.ranges, p)
    {
      LocateAdded(s.ranges, r, p);
    }
    NamesChangeKeeps(s, s');
  }

  lemma FreeRangeKeeps(s: State, k: nat)
    requires Inv(s) && Enabled(s, FreeRange(k))
    ensures Inv(Apply(s, FreeRange(k)))
  {
    hide InvHash, InvTlb, InvIns, InvEnts, Locate, Unmapped, FlushKeys, KeysOfLvs, LvsBetween, RangesApart, InRange;
    var s' := Apply(s, FreeRange(k));
    var r := s.ranges[k];
    var ks := KeysOfLvs(s.v.tab, LvsBetween(s.ranges, r.base, r.size / 0x1000));
    var t := s.(v := FlushKeys(s.v, ks));
    FlushKeeps(s, ks, t);
    forall p: nat | Locate(t.ranges, p).Some? && !Unmapped(t, t.v, p)
      ensures Locate(s'.ranges, p) == Locate(t.ranges, p)
    {
      if InRange(r, p) {
        RangeFlushEmpties(s, k, ks, p);
      } else {
        LocateDropped(s.ranges, k, p);
      }
    }
    StillApart(s.ranges, k);
    assert InvEnts(s'.v.tab, s'.ents) by {
      assert t.v == s'.v;
    }
    NamesChangeKeeps(t, s');
  }

  lemma StillApart(ranges: seq<LvRange>, k: nat)
    requires RangesApart(ranges) && k < |ranges|
    ensures RangesApart(ranges[..k] + ranges[k + 1..])
  {
  }

  /** free_lvrange flushes the ring of every page of the range. */
  lemma RangeFlushEmpties(s: State, k: nat, ks: set<Key>, p: nat)
    requires Inv(s) && s.ins.Idle? && k < |s.ranges| && InRange(s.ranges[k], p)
    requires ks == KeysOfLvs(s.v.tab, LvsBetween(s.ranges, s.ranges[k].base, s.ranges[k].size / 0x1000))
    ensures var t := s.(v := FlushKeys(s.v, ks)); Unmapped(t, t.v, p)
  {
    hide InvHash, InvTlb, InvIns, InvEnts, Locate, FlushKeys, RangesApart;
    var r := s.ranges[k];
    LocateOnly(s.ranges, r, p);
    var i := (p - r.base) / 0x1000;
    var q := r.base + i * 0x1000;
    assert i < r.size / 0x1000 && InRange(r, q) && (q - r.base) / 0x1000 == i by {
      RangesAreWhole(s.ranges);
      InPage(r, p, i);
    }
    LocateOnly(s.ranges, r, q);
    assert Locate(s.ranges, q).value in LvsBetween(s.ranges, r.base, r.size / 0x1000);
    RingFlushEmpties(s, ks, p);
  }

  lemma InPage(r: LvRange, p: nat, i: nat)
    requires WholePages(r) && InRange(r, p) && i == (p - r.base) / 0x1000
    ensures i < r.size / 0x1000 && InRange(r, r.base + i * 0x1000) && (r.base + i * 0x1000 - r.base) / 0x1000 == i
  {
  }

  lemma TlbLoadKeeps(s: State, slot: nat)
    requires Inv(s) && slot in s.v.hash
    ensures Inv(Apply(s, TlbLoad(slot)))
  {
    hide InvEnts, RangesApart, InvHash, InvIns, InvTlb;
    var s' := Apply(s, TlbLoad(slot));
    assert InvHash(s') by { SameHash(s, s'); }
    assert InvIns(s') by { SameHashIns(s, s'); }
    LoadedKeepsTlb(s, slot, s');
  }

  lemma SameHash(s: State, s': State)
    requires InvHash(s) && s' == s.(v := s.v.(tlb := s'.v.tlb))
    ensures InvHash(s')
  {
    hide Covered, SlotCovered, NoOther, Current;
  }

  lemma SameHashIns(s: State, s': State)
    requires InvIns(s) && s' == s.(v := s.v.(tlb := s'.v.tlb))
    ensures InvIns(s')
  {
    hide NoOther, Current;
  }

  lemma LoadedKeepsTlb(s: State, slot: nat, s': State)
    requires InvHash(s) && InvTlb(s) && InvIns(s) && slot in s.v.hash
    requires s' == s.(v := s.v.(tlb := s.v.tlb + {s.v.hash[slot]}))
    ensures InvTlb(s')
  {
    hide Covered, SlotCovered, Current;
    if !(s.ins.InHash? && slot == s.ins.slot) {
      SlotCoveredIsCovered(s, slot);
    }
  }

  lemma SlotCoveredIsCovered(s: State, slot: nat)
    requires slot in s.v.hash && SlotCovered(s.v.tab, s.ents, s.ranges, slot, s.v.hash[slot])
    ensures Covered(s.v.tab, s.ents, s.ranges, s.v.hash[slot])
  {
    var k :| Recorded(s.v.tab, s.ents, s.ranges, s.v.hash[slot], k);
  }

  lemma EvictKeeps(s: State, slot: nat)
    requires Inv(s)
    ensures Inv(Apply(s, Evict(slot)))
  {
    hide Covered, SlotCovered, InvEnts, RangesApart;
  }

  lemma StepKeeps(s: State, st: Step)
    requires Inv(s) && Enabled(s, st) && Guarded(s, st, None)
    ensures Inv(Apply(s, st))
  {
    hide InvHash, InvTlb, InvIns, RangesApart, Locate, Unmapped, Meets;
    var s' := Apply(s, st);
    assert Meets(RangesDisjoint, s, st) && Meets(FlushByFirst, s, st) && Meets(MayTouch, s, st) && Meets(OnePte, s, st);
    match st
    case Store(pf) => StoreKeeps(s, pf);
    case Commit => CommitKeeps(s);
    case FlushLv(a) => FlushLvKeeps(s, a);
    case FlushRing(a) => FlushedAtKeeps(s, a, s');
    case FlushEa(e, page) => FlushKeeps(s, KeysOfEa(s.v.tab, e, page), s');
    case FlushEnt(e) => FlushKeeps(s, KeysOfEnt(s.v.tab, e), s');
    case AllocEnt(e, ids) => NamesChangeKeeps(s, s');
    case DropEnt(e) =>
      forall k | k in s.v.tab
        ensures k.ent != e
      {
        assert k !in KeysOfEnt(s.v.tab, e);
      }
      NamesChangeKeeps(s, s');
    case ClearAll =>
      var t := s.(v := s'.v);
      FlushKeeps(s, s.v.tab.Keys, t);
      NamesChangeKeeps(t, s');
    case Register(r) => RegisterKeeps(s, r);
    case FreeRange(k) => FreeRangeKeeps(s, k);
    case TlbLoad(slot) => TlbLoadKeeps(s, slot);
    case Evict(slot) => EvictKeeps(s, slot);
    case Mark => LinuxStepKeeps(s, st);
    case PageIn(_, _) => LinuxStepKeeps(s, st);
    case Unmap(_) => LinuxStepKeeps(s, st);
    case Mmap(_) => LinuxStepKeeps(s, st);
    case Munmap(_) => LinuxStepKeeps(s, st);
    case _ => InsertionStepKeeps(s, st);
  }

  lemma {:induction false} RunKeeps(s: State, steps: seq<Step>, s': State)
    requires Inv(s) && Run(s, steps, s') && AllGuarded(s, steps, None)
    ensures Inv(s')
    decreases |steps|
  {
    hide Inv, Guarded;
    if steps != [] {
      StepKeeps(s, steps[0]);
      RunKeeps(Apply(s, steps[0]), steps[1..], s');
    }
  }

  /** Every translation of a page with no flush outstanding is the one Linux has now. */
  ghost predicate NoneOutlives(s: State) {
    forall tr :: (tr in s.v.hash.Values || tr in s.v.tlb) && tr.lpage.Some? && tr.lpage.value !in s.pending ==>
      tr.lpage.value in s.linux && s.linux[tr.lpage.value] == Lpte(true, tr.frame, true)
  }

  lemma InvNoneOutlives(s: State)
    requires Inv(s) && s.ins.Idle?
    ensures NoneOutlives(s)
  {
    hide RangesApart, InvEnts, InvIns, NoOther, Covered, SlotCovered;
    forall tr | tr in s.v.hash.Values && tr.lpage.Some? && tr.lpage.value !in s.pending
      ensures tr.lpage.value in s.linux && s.linux[tr.lpage.value] == Lpte(true, tr.frame, true)
    {
      var slot :| slot in s.v.hash && s.v.hash[slot] == tr;
      assert Current(s.linux, s.pending, s.v.hash[slot]);
    }
  }

  /** The reservation protocol: over every run that keeps the rules, no
      translation outlives its page once no insertion is in flight. */
  lemma NoTranslationOutlivesItsPage(s0: State, steps: seq<Step>, s: State)
    requires Init(s0) && Run(s0, steps, s) && AllGuarded(s0, steps, None) && s.ins.Idle?
    ensures NoneOutlives(s)
  {
    RunKeeps(s0, steps, s);
    InvNoneOutlives(s);
  }

  /** Over the same runs, each valid slot has a record that names it, carries its
      address, and is on the ring a flush of its page goes to. */
  lemma EveryPteIsRecorded(s0: State, steps: seq<Step>, s: State, slot: nat)
    requires Init(s0) && Run(s0, steps, s) && AllGuarded(s0, steps, None) && s.ins.Idle? && slot in s.v.hash
    ensures exists k ::
              && k in s.v.tab && s.v.tab[k].slot == slot && k.page == s.v.hash[slot].page
              && k.ent in s.ents && VsidOf(s.ents, k) == s.v.hash[slot].vsid
              && (s.v.hash[slot].lpage.Some? ==>
                    s.v.tab[k].lv.Some? && s.v.tab[k].lv == Locate(s.ranges, s.v.hash[slot].lpage.value))
  {
    RunKeeps(s0, steps, s);
    assert SlotCovered(s.v.tab, s.ents, s.ranges, slot, s.v.hash[slot]);
    var k :| Recorded(s.v.tab, s.ents, s.ranges, s.v.hash[slot], k) && s.v.tab[k].slot == slot;
  }

  // ------------------------------------------------------------ runs and their ends

  lemma {:induction false} RunsJoin(s: State, a: seq<Step>, t: State, b: seq<Step>, u: State)
    requires Run(s, a, t) && Run(t, b, u)
    ensures Run(s, a + b, u)
    decreases |a|
  {
    if a == [] {
      assert a + b == b;
    } else {
      RunsJoin(Apply(s, a[0]), a[1..], t, b, u);
      assert (a + b)[1..] == a[1..] + b;
    }
  }

  lemma {:induction false} GuardsJoin(s: State, a: seq<Step>, t: State, b: seq<Step>, but: Option<Rule>)
    requires Run(s, a, t) && AllGuarded(s, a, but) && AllGuarded(t, b, but)
    ensures AllGuarded(s, a + b, but)
    decreases |a|
  {
    hide Guarded;
    if a == [] {
      assert a + b == b;
    } else {
      GuardsJoin(Apply(s, a[0]), a[1..], t, b, but);
      assert (a + b)[1..] == a[1..] + b;
    }
  }

  /** One more step at the end of a run. */
  lemma Then(s: State, steps: seq<Step>, t: State, st: Step)
    requires Run(s, steps, t) && Enabled(t, st)
    ensures Run(s, steps + [st], Apply(t, st))
  {
    hide Enabled, Apply;
    var u := Apply(t, st);
    assert [st][1..] == [];
    assert Run(u, [], u);
    assert Run(t, [st], u);
    RunsJoin(s, steps, t, [st], u);
  }

  /** Two flushes of make_lvptr_reservation's page, before its stores and between them,
      come to the same: the second store takes back what the flush says. */
  lemma FlushBetweenStores(s: State, a: nat)
    requires Enabled(s, ReserveAddress)
    ensures var t := Apply(Apply(s, ReserveAddress), FlushLv(a));
            var u := Apply(Apply(s, FlushLv(a)), ReserveAddress);
            Enabled(t, ReserveClear) && Enabled(u, ReserveClear) && Apply(t, ReserveClear) == Apply(u, ReserveClear)
  {
    hide FlushedAt;
  }

  /** What is stored: the address of the insertion, with the frame that was looked up for
      its Linux page, or the physical frame given when it has none. */
  lemma StoredFrame(s: State, pf: int)
    requires Enabled(s, Store(pf))
    ensures var hash := Apply(s, Store(pf)).v.hash;
            s.ins.slot in hash && hash[s.ins.slot].vsid == VsidOf(s.ents, s.ins.key) &&
            hash[s.ins.slot].page == s.ins.key.page &&
            (s.ins.Picked? ==> hash[s.ins.slot].lpage == None && hash[s.ins.slot].frame == pf) &&
            (s.ins.Marked? && s.ins.lvr.Some? ==>
               hash[s.ins.slot].lpage == Some(s.ins.lvptr) && hash[s.ins.slot].frame == s.ins.frame)
  {
  }

  ghost predicate StoresTo(s: State, st: Step, slot: nat) { st.Store? && !s.ins.Idle? && s.ins.slot == slot }

  /** No step but a store changes what a slot holds; the others leave it or clear it. */
  lemma SlotKept(s: State, st: Step, slot: nat)
    requires Enabled(s, st) && !StoresTo(s, st, slot) && slot in Apply(s, st).v.hash
    ensures slot in s.v.hash && Apply(s, st).v.hash[slot] == s.v.hash[slot]
  {
    hide KeysOfEa, KeysOfEnt, KeysOfLv, KeysOfLvs, LvsBetween, Committed, HitBits, Locate, NamesApart;
  }

  ghost predicate NeverStoredTo(s: State, steps: seq<Step>, slot: nat)
    decreases |steps|
  {
    steps == [] ||
    (!StoresTo(s, steps[0], slot) && (Enabled(s, steps[0]) ==> NeverStoredTo(Apply(s, steps[0]), steps[1..], slot)))
  }

  lemma {:induction false} SlotKeptOverRun(s: State, steps: seq<Step>, s': State, slot: nat)
    requires Run(s, steps, s') && NeverStoredTo(s, steps, slot) && slot in s'.v.hash
    ensures slot in s.v.hash && s'.v.hash[slot] == s.v.hash[slot]
    decreases |steps|
  {
    hide Enabled, Apply;
    if steps != [] {
      SlotKeptOverRun(Apply(s, steps[0]), steps[1..], s', slot);
      SlotKept(s, steps[0], slot);
    }
  }

  /** Over every run: a PTE that maps no Linux page keeps its address and the frame it was
      stored with for as long as it is in the table. */
  lemma PhysicalFrameKept(s: State, pf: int, steps: seq<Step>, s': State)
    requires Enabled(s, Store(pf)) && s.ins.Picked? && s.ins.slot in s'.v.hash
    requires Run(Apply(s, Store(pf)), steps, s') && NeverStoredTo(Apply(s, Store(pf)), steps, s.ins.slot)
    ensures s'.v.hash[s.ins.slot] == Trans(VsidOf(s.ents, s.ins.key), s.ins.key.page, None, pf)
  {
    hide Run, NeverStoredTo;
    StoredFrame(s, pf);
    SlotKeptOverRun(Apply(s, Store(pf)), steps, s', s.ins.slot);
  }

  /** Some run from the start that keeps the rules, but perhaps one, ends in the state. */
  // ------------------------------------------------------ why each rule is needed

  const START := State(View(map[], map[], {}), map[], [], map[], {}, {}, Idle, None, false)

  ghost predicate Reachable(s: State, but: Option<Rule>) {
    exists steps :: Run(START, steps, s) && AllGuarded(START, steps, but)
  }

  lemma StartReachable(but: Option<Rule>)
    ensures Reachable(START, but)
  {
    assert Run(START, [], START) && AllGuarded(START, [], but);
  }

  lemma Reach(s: State, st: Step, but: Option<Rule>) returns (s': State)
    requires Reachable(s, but) && Enabled(s, st) && Guarded(s, st, but)
    ensures s' == Apply(s, st) && Reachable(s', but)
  {
    hide Enabled, Apply, Guarded;
    var steps :| Run(START, steps, s) && AllGuarded(START, steps, but);
    s' := Apply(s, st);
    Then(START, steps, s, st);
    assert [st][1..] == [] && AllGuarded(s', [], but) && AllGuarded(s, [st], but);
    GuardsJoin(START, steps, s, [st], but);
  }

  const RANGE := LvRange(0, 0x1000, 0x1000)
  const OTHER := LvRange(1, 0x1000, 0x1000)
  const KEY := Key(0, 0, false)
  const MAPPED := Trans(1, 0, Some(0x1000), 7)

  ghost predicate Ranges(ranges: seq<LvRange>, but: Option<Rule>) {
    ranges == [RANGE] || (ranges == [OTHER, RANGE] && but == Some(RangesDisjoint))
  }

  /** A run that registers the ranges and makes one VSID entry. */
  lemma OneEntry(ranges: seq<LvRange>, but: Option<Rule>) returns (s: State)
    requires Ranges(ranges, but)
    ensures Reachable(s, but) && s == START.(ranges := ranges, ents := map[0 := Ids(1, 2)])
  {
    hide Reachable;
    StartReachable(but);
    s := Reach(START, Register(RANGE), but);
    assert s.ranges == [RANGE];
    if |ranges| == 2 {
      s := Reach(s, Register(OTHER), but);
    }
    assert s == START.(ranges := ranges);
    s := Reach(s, AllocEnt(0, Ids(1, 2)), but);
  }

  /** And on: Linux has mapped a page. */
  lemma OnePage(ranges: seq<LvRange>, but: Option<Rule>) returns (s: State)
    requires Ranges(ranges, but)
    ensures Reachable(s, but)
    ensures s == START.(ranges := ranges, ents := map[0 := Ids(1, 2)], vmas := {0x1000},
                        linux := map[0x1000 := Lpte(true, 7, false)])
  {
    hide Reachable;
    s := OneEntry(ranges, but);
    s := Reach(s, Mmap(0x1000), but);
    s := Reach(s, PageIn(0x1000, 7), but);
  }

  /** An insertion of the page, as far as its store. */
  lemma Inserting(s: State, slot: nat, but: Option<Rule>) returns (t: State)
    requires Reachable(s, but) && s.ins.Idle? && s.ents == map[0 := Ids(1, 2)] && RANGE in s.ranges
    requires Present(s, 0x1000) && s.linux[0x1000].frame == 7 && s.v.tlb == {}
    requires NoOther(s.v.hash, 1, 0, slot) || but == Some(OnePte)
    ensures Reachable(t, but)
    ensures t == s.(v := s.v.(hash := s.v.hash[slot := MAPPED]), linux := s.linux[0x1000 := Lpte(true, 7, true)],
                    ins := InHash(KEY, slot, Some(RANGE), 0x1000, MAPPED), reservation := Some(0x1000), lost := false)
  {
    hide Reachable, NoOther;
    t := Reach(s, Pick(KEY, slot, Some(RANGE), 0x1000), but);
    t := Reach(t, ReserveAddress, but);
    t := Reach(t, ReserveClear, but);
    t := Reach(t, Mark, but);
    t := Reach(t, Store(0), but);
    assert t.v.tlb == {};
  }

  /** And on: a PTE of the page in slot 0, not yet recorded. */
  lemma OneInsertion(ranges: seq<LvRange>, but: Option<Rule>) returns (s: State)
    requires Ranges(ranges, but)
    ensures Reachable(s, but)
    ensures s == State(View(map[], map[0 := MAPPED], {}), map[0 := Ids(1, 2)], ranges,
                       map[0x1000 := Lpte(true, 7, true)], {0x1000}, {},
                       InHash(KEY, 0, Some(RANGE), 0x1000, MAPPED), Some(0x1000), false)
  {
    hide Reachable;
    s := OnePage(ranges, but);
    assert RANGE == ranges[|ranges| - 1];
    s := Inserting(s, 0, but);
  }

  lemma Stale(s: State)
    requires 0 in s.v.hash && s.v.hash[0].lpage == Some(0x1000) && 0x1000 !in s.pending && !Present(s, 0x1000)
    ensures !NoneOutlives(s)
  {
    assert s.v.hash[0] in s.v.hash.Values;
  }

  /** Two ranges over the same page: Linux unmaps the page and reports it, by its
      first address; the flush goes to the ring of the range registered last, and the
      PTE, which is on the ring of the other, stays. */
  lemma OverlapBreaks() returns (s: State)
    ensures Reachable(s, Some(RangesDisjoint)) && s.ins.Idle? && !NoneOutlives(s)
  {
    hide Reachable, NoneOutlives;
    var but := Some(RangesDisjoint);
    s := OneInsertion([OTHER, RANGE], but);
    s := Reach(s, Commit, but);
    s := Reach(s, Unmap(0x1000), but);
    assert s.v.tab == map[KEY := Entry(0, Some(LvId(0, 0)))];
    assert Locate(s.ranges, 0x1000) == Some(LvId(1, 0));
    assert KeysOfLv(s.v.tab, LvId(1, 0)) == {};
    FlushNone(s.v);
    s := Reach(s, FlushLv(0x1000), but);
    Stale(s);
  }

  /** Linux reports the page by another of its addresses, between the mark and the
      commit: the reservation is compared with the address as given, so it is not
      lost, and the PTE of the page that is gone is recorded. */
  lemma UnalignedFlushBreaks() returns (s: State)
    ensures Reachable(s, Some(FlushByFirst)) && s.ins.Idle? && !NoneOutlives(s)
  {
    hide Reachable, NoneOutlives;
    var but := Some(FlushByFirst);
    s := OneInsertion([RANGE], but);
    s := Reach(s, Unmap(0x1000), but);
    assert KeysOfLv(s.v.tab, LvId(0, 0)) == {};
    FlushNone(s.v);
    s := Reach(s, FlushLv(0x1004), but);
    s := Reach(s, Commit, but);
    Stale(s);
  }

  /** An address of a registered range that has no vma: frame 0 is entered for it. */
  lemma BadAreaRun() returns (s: State)
    ensures Reachable(s, Some(MayTouch)) && s.ins.Idle? && !NoneOutlives(s)
  {
    hide Reachable, NoneOutlives;
    var but := Some(MayTouch);
    s := OneEntry([RANGE], but);
    assert RANGE == s.ranges[0];
    s := Reach(s, Pick(KEY, 0, Some(RANGE), 0x1000), but);
    s := Reach(s, BadArea, but);
    s := Reach(s, Store(0), but);
    s := Reach(s, Commit, but);
    Stale(s);
  }

  /** And on: two PTEs of one address, in slots 0 and 1, and the record names slot 1. */
  lemma TwoPtes(but: Option<Rule>) returns (s: State)
    requires but == Some(OnePte)
    ensures Reachable(s, but)
    ensures s == State(View(map[KEY := Entry(1, Some(LvId(0, 0)))], map[0 := MAPPED, 1 := MAPPED], {}),
                       map[0 := Ids(1, 2)], [RANGE], map[0x1000 := Lpte(true, 7, true)], {0x1000}, {}, Idle,
                       Some(0x1000), false)
  {
    hide Reachable;
    s := OneInsertion([RANGE], but);
    s := Reach(s, Commit, but);
    assert RANGE == s.ranges[0];
    s := Inserting(s, 1, but);
    s := Reach(s, Commit, but);
  }

  /** A second PTE of an address that has one in slot 0: the record of the address is
      made to name slot 1, so that the flush of the page clears slot 1 alone. */
  lemma DuplicateBreaks() returns (s: State)
    ensures Reachable(s, Some(OnePte)) && s.ins.Idle? && !NoneOutlives(s)
  {
    hide Reachable, NoneOutlives;
    var but := Some(OnePte);
    s := TwoPtes(but);
    s := Reach(s, Unmap(0x1000), but);
    assert Locate(s.ranges, 0x1000) == Some(LvId(0, 0));
    assert KeysOfLv(s.v.tab, LvId(0, 0)) == {KEY} && SlotsOf(s.v.tab, {KEY}) == {1};
    s := Reach(s, FlushLv(0x1000), but);
    Stale(s);
  }

  // ------------------------------------------------- when exactly a step is harmful

  /** Every valid slot has a record that names it and carries its address. */
  ghost predicate AllNamed(tab: map<Key, Entry>, ents: map<nat, Ids>, hash: map<nat, Trans>) {
    forall slot :: slot in hash ==> Named(tab, ents, slot, hash[slot])
  }

  ghost predicate Named(tab: map<Key, Entry>, ents: map<nat, Ids>, slot: nat, tr: Trans) {
    exists k :: k in tab && k.ent in ents && VsidOf(ents, k) == tr.vsid && k.page == tr.page && tab[k].slot == slot
  }

  /** Storing and recording a PTE leaves every slot with a record if and only if no other
      slot translates the address. */
  lemma OnePteIff(s: State, key: Key, slot: nat, lv: Option<LvId>, tr: Trans)
    requires Inv(s) && s.ins.Idle? && key.ent in s.ents && tr.vsid == VsidOf(s.ents, key) && tr.page == key.page
    ensures AllNamed(Committed(s.v.tab, key, slot, lv), s.ents, Stored(s.v, slot, tr).hash) <==>
            NoOther(s.v.hash, tr.vsid, tr.page, slot)
  {
    hide Inv, Named;
    var tab, hash := Committed(s.v.tab, key, slot, lv), s.v.hash[slot := tr];
    if NoOther(s.v.hash, tr.vsid, tr.page, slot) {
      forall x | x in hash
        ensures Named(tab, s.ents, x, hash[x])
      {
        StaysNamed(s, key, slot, lv, tr, x);
      }
    } else {
      var x :| x in s.v.hash && x != slot && s.v.hash[x].vsid == tr.vsid && s.v.hash[x].page == tr.page;
      NotNamed(s, key, slot, lv, x);
      assert x in hash && !Named(tab, s.ents, x, hash[x]);
    }
  }

  lemma StaysNamed(s: State, key: Key, slot: nat, lv: Option<LvId>, tr: Trans, x: nat)
    requires Inv(s) && s.ins.Idle? && key.ent in s.ents && tr.vsid == VsidOf(s.ents, key) && tr.page == key.page
    requires x == slot || (x in s.v.hash && !(s.v.hash[x].vsid == tr.vsid && s.v.hash[x].page == tr.page))
    ensures Named(Committed(s.v.tab, key, slot, lv), s.ents, x, if x == slot then tr else s.v.hash[x])
  {
    hide RangesApart, InvTlb, InvIns, Locate, NoOther, InvEnts, Current;
    var tab := Committed(s.v.tab, key, slot, lv);
    if x == slot {
      assert key in tab;
    } else {
      var k :| Recorded(s.v.tab, s.ents, s.ranges, s.v.hash[x], k) && s.v.tab[k].slot == x;
      assert k in tab && tab[k] == s.v.tab[k];
    }
  }

  /** The one record an address can have names one slot. */
  lemma NotNamed(s: State, key: Key, slot: nat, lv: Option<LvId>, x: nat)
    requires Inv(s) && key.ent in s.ents && x in s.v.hash && x != slot
    requires s.v.hash[x].vsid == VsidOf(s.ents, key) && s.v.hash[x].page == key.page
    ensures !Named(Committed(s.v.tab, key, slot, lv), s.ents, x, s.v.hash[x])
  {
    hide RangesApart, InvTlb, InvIns, InvHash;
  }

  /** The records that a flush of an address drops. */
  ghost function RingKeys(s: State, a: nat): set<Key> {
    var id := Locate(s.ranges, a);
    if id.Some? then KeysOfLv(s.v.tab, id.value) else {}
  }

  lemma FlushedRing(s: State, a: nat)
    ensures FlushedAt(s.v, s.ranges, a) == FlushKeys(s.v, RingKeys(s, a))
  {
    FlushNone(s.v);
  }

  /** A flush of the address happens to take the PTE in flight out of the table and out
      of the TLB, through records that name its slot and agree in its TLB bits. */
  ghost predicate ClearedBy(s: State, ks: set<Key>)
    requires s.ins.InHash?
  {
    && (s.ins.slot !in s.v.hash || s.ins.slot in SlotsOf(s.v.tab, ks))
    && (s.ins.tr !in s.v.tlb || HitBits(s.v.tab, ks, TlbBits(s.ins.tr.page)))
  }

  /** A PTE of the page of the address is stored but not yet recorded, and its reservation
      is not lost so far. */
  ghost predicate StoredAt(s: State, a: nat) {
    s.ins.InHash? && s.ins.lvr.Some? && !s.lost && PageStart(a) == s.ins.lvptr
  }

  /** The address is the first of the page, or the PTE is the one Linux has now, or a flush
      of the address clears it. */
  ghost predicate Harmless(s: State, a: nat) {
    && s.ins.InHash?
    && (a == s.ins.lvptr || Backed(s.linux, s.ins.lvptr, s.ins.tr.frame) || ClearedBy(s, RingKeys(s, a)))
  }

  /** The property after a flush of the address and then the commit. */
  ghost predicate HoldsAfterFlush(s: State, a: nat) {
    var t := Apply(s, FlushLv(a));
    Enabled(t, Commit) && NoneOutlives(Apply(t, Commit))
  }

  /** The page of a PTE in flight is reported by any of its addresses: the property holds
      after the commit if and only if that is harmless. */
  lemma FlushStoredIff(s: State, a: nat)
    requires Inv(s) && StoredAt(s, a)
    ensures Enabled(Apply(s, FlushLv(a)), Commit)
    ensures HoldsAfterFlush(s, a) <==> Harmless(s, a)
  {
    hide Inv, FlushedAt, NoneOutlives, ClearedBy, RingKeys;
    InFlightFacts(s);
    var t := Apply(s, FlushLv(a));
    if a == s.ins.lvptr || Backed(s.linux, s.ins.lvptr, s.ins.tr.frame) {
      FlushLvKeeps(s, a);
      CommitKeeps(t);
      InvNoneOutlives(Apply(t, Commit));
    } else {
      FlushedRing(s, a);
      FlushLvEmpties(s, a);
      if ClearedBy(s, RingKeys(s, a)) {
        ClearedIsGone(s, a, t, Apply(t, Commit));
      } else {
        LeftIsStale(s, a, Apply(t, Commit));
      }
    }
  }

  lemma InFlightFacts(s: State)
    requires Inv(s) && s.ins.InHash? && s.ins.lvr.Some?
    ensures Enabled(s, Commit) && s.ins.tr.lpage == Some(s.ins.lvptr)
    ensures PageStart(s.ins.lvptr) == s.ins.lvptr && (s.lost || s.reservation == Some(s.ins.lvptr))
    ensures s.ins.slot in s.v.hash ==> s.v.hash[s.ins.slot] == s.ins.tr
  {
    hide RangesApart, InvTlb, InvEnts, InRange, PageStart;
  }

  lemma ClearedIsGone(s: State, a: nat, t: State, w: State)
    requires Inv(s) && s.ins.InHash? && s.ins.lvr.Some? && t == Apply(s, FlushLv(a)) && !t.lost
    requires Enabled(t, Commit) && w == Apply(t, Commit) && PageStart(a) == s.ins.lvptr
    requires t.v == FlushKeys(s.v, RingKeys(s, a)) && Unmapped(s, t.v, s.ins.lvptr) && ClearedBy(s, RingKeys(s, a))
    ensures NoneOutlives(w)
  {
    hide RangesApart, InvEnts, InvIns, NoOther, Covered, SlotCovered, FlushedAt, RingKeys, Committed, PageStart;
    forall tr | (tr in w.v.hash.Values || tr in w.v.tlb) && tr.lpage.Some? && tr.lpage.value !in w.pending
      ensures Backed(w.linux, tr.lpage.value, tr.frame)
    {
      if tr in w.v.hash.Values {
        var slot :| slot in t.v.hash && t.v.hash[slot] == tr;
        assert slot in s.v.hash && slot != s.ins.slot;
        assert Current(s.linux, s.pending, s.v.hash[slot]);
      } else {
        assert tr in s.v.tlb && !InFlight(s, tr);
        assert Current(s.linux, s.pending, tr);
      }
    }
  }

  lemma LeftIsStale(s: State, a: nat, w: State)
    requires s.ins.InHash? && s.ins.tr.lpage == Some(PageStart(a))
    requires s.ins.slot in s.v.hash ==> s.v.hash[s.ins.slot] == s.ins.tr
    requires var v := FlushKeys(s.v, RingKeys(s, a)); w.v.hash == v.hash && w.v.tlb == v.tlb
    requires w.linux == s.linux && PageStart(a) !in w.pending && !Backed(s.linux, PageStart(a), s.ins.tr.frame)
    requires !ClearedBy(s, RingKeys(s, a))
    ensures !NoneOutlives(w)
  {
    hide RingKeys, PageStart;
    var tr := s.ins.tr;
    if s.ins.slot in w.v.hash {
      assert w.v.hash[s.ins.slot] == tr && tr in w.v.hash.Values;
    } else {
      assert tr in w.v.tlb;
    }
  }

  /** The same before the PTE is stored, when there is nothing yet that could be cleared. */
  lemma FlushMarkedIff(s: State, a: nat, pf: int)
    requires Inv(s) && s.ins.Marked? && !s.lost && PageStart(a) == s.ins.lvptr
    ensures var t := Apply(s, FlushLv(a));
            && Enabled(t, Store(pf)) && Enabled(Apply(t, Store(pf)), Commit)
            && (NoneOutlives(Apply(Apply(t, Store(pf)), Commit)) <==>
                  a == s.ins.lvptr || Backed(s.linux, s.ins.lvptr, s.ins.frame))
  {
    hide Inv, FlushedAt, NoneOutlives, Tlbie;
    MarkedFacts(s);
    var t := Apply(s, FlushLv(a));
    var u := Apply(t, Store(pf));
    var w := Apply(u, Commit);
    if a == s.ins.lvptr || Backed(s.linux, s.ins.lvptr, s.ins.frame) {
      FlushLvKeeps(s, a);
      StoreKeeps(t, pf);
      CommitKeeps(u);
      InvNoneOutlives(w);
    } else {
      StoredIsStale(w, s.ins.slot);
    }
  }

  lemma MarkedFacts(s: State)
    requires Inv(s) && s.ins.Marked?
    ensures s.ins.key.ent in s.ents && s.ins.lvr.Some? && InRange(s.ins.lvr.value, s.ins.lvptr)
    ensures PageStart(s.ins.lvptr) == s.ins.lvptr && (s.lost || s.reservation == Some(s.ins.lvptr))
  {
    hide RangesApart, InvTlb, InvHash, InvEnts, InRange, PageStart, NoOther;
  }

  lemma StoredIsStale(w: State, slot: nat)
    requires slot in w.v.hash && w.v.hash[slot].lpage.Some? && w.v.hash[slot].lpage.value !in w.pending
    requires !Backed(w.linux, w.v.hash[slot].lpage.value, w.v.hash[slot].frame)
    ensures !NoneOutlives(w)
  {
    assert w.v.hash[slot] in w.v.hash.Values;
  }

  /** get_phys_page's bad_area exit returns frame 0, and insert_pte carries on: what
      is then in the hash table is right exactly when the insertion is given up
      because of an earlier lost reservation, or a flush of the page is still to come. */
  lemma BadAreaBreaks(s: State, pf: int)
    requires Inv(s) && Enabled(s, BadArea)
    ensures var t := Apply(s, BadArea);
            && Enabled(t, Store(pf)) && Enabled(Apply(t, Store(pf)), Commit)
            && (NoneOutlives(Apply(Apply(t, Store(pf)), Commit)) <==> s.lost || s.ins.lvptr in s.pending)
  {
    hide RangesApart, InvEnts, NoOther, Covered, SlotCovered, Committed, TlbBits;
    var t := Apply(s, BadArea);
    var u := Apply(t, Store(pf));
    var w := Apply(u, Commit);
    var tr := u.ins.tr;
    if s.lost || s.ins.lvptr in s.pending {
      forall x | x in w.v.hash.Values || x in w.v.tlb
        ensures Current(w.linux, w.pending, x)
      {
        if x in w.v.hash.Values {
          var slot :| slot in w.v.hash && w.v.hash[slot] == x;
          if slot != s.ins.slot {
            assert slot in s.v.hash && s.v.hash[slot] == x;
          }
        } else {
          assert x in s.v.tlb;
        }
      }
    } else {
      assert w.v.hash[s.ins.slot] == tr;
      assert tr in w.v.hash.Values;
    }
  }
}

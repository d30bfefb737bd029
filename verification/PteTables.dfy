/**
 Level-2 tables, VSID entries, lvranges and record chunks coming and going.
 */
module PteTables {
  import opened Options
  import opened PteRingShapes
  import opened ReverseMap
  import opened PteMem

  ghost function SlotsOfTable(t: nat): set<Node> {
    set j | 0 <= j < 32 :: Slot(t, j)
  }

  ghost function EmptyRings(t: nat): Rings {
    map h | h in SlotsOfTable(t) :: []
  }

  lemma SlotsOfTableMembers(t: nat)
    ensures forall h :: h in SlotsOfTable(t) <==> h.Slot? && h.tab == t && h.ind < 32
  {
    forall h: Node | h.Slot? && h.tab == t && h.ind < 32
      ensures h in SlotsOfTable(t)
    {
      assert h == Slot(t, h.ind);
    }
  }

  /** A map with the same value at more keys. */
  ghost function Extend<V>(m: map<Node, V>, ks: set<Node>, v: V): map<Node, V> {
    m + (map k | k in ks :: v)
  }

  lemma ExtendFacts<V>(m: map<Node, V>, ks: set<Node>, v: V)
    ensures Extend(m, ks, v).Keys == m.Keys + ks
    ensures forall x :: x in Extend(m, ks, v) ==> Extend(m, ks, v)[x] == if x in ks then v else m[x]
  {
  }

  ghost function ExtendSelf(m: Links, ks: set<Node>): Links {
    m + (map k | k in ks :: k)
  }

  lemma ExtendSelfFacts(m: Links, ks: set<Node>)
    ensures ExtendSelf(m, ks).Keys == m.Keys + ks
    ensures forall x :: x in ExtendSelf(m, ks) ==> ExtendSelf(m, ks)[x] == if x in ks then x else m[x]
  {
  }

  /** A map cut down to some keys. */
  ghost function Keep<V>(m: map<Node, V>, ks: set<Node>): map<Node, V> {
    map k | k in m && k in ks :: m[k]
  }

  lemma KeepFacts<V>(m: map<Node, V>, ks: set<Node>)
    ensures Keep(m, ks).Keys == m.Keys * ks
    ensures forall x :: x in Keep(m, ks) ==> Keep(m, ks)[x] == m[x]
  {
  }

  // ------------------------------------------------------------- taking a table

  /** The first free table is attached at an empty place. */
  ghost predicate TableTaken(m: Mem, e: nat, l2: nat, m': Mem) {
    && m.freeTabs != [] && e in m.lev2 && l2 < |m.lev2[e]|
    && var t := m.freeTabs[0];
    && Slot(t, 0) in m.eaNext
    && m' == m.(freeTables := m.eaNext[Slot(t, 0)], freeTabs := m.freeTabs[1..],
                eaNext := m.eaNext[Slot(t, 0) := Null],
                lev2 := m.lev2[e := m.lev2[e][l2 := Slot(t, 0)]],
                place := m.place[t := Place(e, l2)], eaRing := m.eaRing + EmptyRings(t))
  }

  lemma Lev2Taken(lev2: map<nat, seq<Node>>, place: map<nat, Place>, slots: set<Node>, e: nat, l2: nat, t: nat)
    requires Lev2Tables(lev2, place, slots) && e in lev2 && l2 < 64 && lev2[e][l2] == Null && t !in place
    ensures Lev2Tables(lev2[e := lev2[e][l2 := Slot(t, 0)]], place[t := Place(e, l2)], slots + SlotsOfTable(t))
  {
    hide SlotsOfTable;
    SlotsOfTableMembers(t);
  }

  lemma FreeTablesTaken(next: Links, start: Node, tabs: seq<nat>, place: map<nat, Place>, pl: Place)
    requires FreeTables(next, start, tabs, place) && tabs != []
    ensures var t := tabs[0];
            && t !in place && start == Slot(t, 0) && Slot(t, 0) in next
            && FreeTables(next[Slot(t, 0) := Null], next[Slot(t, 0)], tabs[1..], place[t := pl])
            && forall j :: 0 < j < 32 ==> Slot(t, j) in next && next[Slot(t, j)] == Null
  {
    var rest := tabs[1..];
    assert forall i :: 0 <= i < |rest| ==> rest[i] == tabs[i + 1];
    assert tabs[0] !in rest;
  }

  lemma KeyedPlace(own: Links, pent: Pents, place: map<nat, Place>, rec: map<Key, Node>, place': map<nat, Place>)
    requires Keyed(own, pent, place, rec)
    requires forall n :: n in own && own[n] != Null && own[n].Slot? && own[n].tab in place ==>
               own[n].tab in place' && place'[own[n].tab] == place[own[n].tab]
    ensures Keyed(own, pent, place', rec)
  {
    forall n | n in own && own[n] != Null
      ensures HasKey(n, own, pent, place') && KeyOf(n, own, pent, place') == KeyOf(n, own, pent, place)
    {
    }
  }

  /** Empty rings can be added for slots that hold NULL, and taken away. */
  lemma EaRingsGrow(next: Links, pent: Pents, rings: Rings, own: Links, next': Links, t: nat)
    requires EaRings(next, pent, rings, own)
    requires forall h :: h in SlotsOfTable(t) ==> h !in rings && h in next' && next'[h] == Null
    requires forall x :: x in next && x !in SlotsOfTable(t) ==> x in next' && next'[x] == next[x]
    ensures EaRings(next', pent, rings + EmptyRings(t), own)
  {
    SlotsOfTableMembers(t);
    hide EaRings, EaRing, SlotsOfTable;
    EaRingsMembers(next, pent, rings, own);
    EaRingsFrame(next, pent, next', pent, rings, own, own);
    forall h | h in SlotsOfTable(t)
      ensures EaRing(next', pent, h, [])
    {
      EaRingEmpty(next', pent, h);
    }
    EaRingsJoin(next', pent, rings, own, EmptyRings(t));
  }

  lemma EaRingEmpty(next: Links, pent: Pents, h: Node)
    requires h in next && next[h] == Null
    ensures EaRing(next, pent, h, [])
  {
  }

  lemma EaRingsJoin(next: Links, pent: Pents, rings: Rings, own: Links, more: Rings)
    requires EaRings(next, pent, rings, own) && rings.Keys !! more.Keys
    requires forall h :: h in more ==> h.Slot? && more[h] == [] && EaRing(next, pent, h, [])
    ensures EaRings(next, pent, rings + more, own)
  {
    hide EaRing;
  }

  lemma TableTakenKeeps(m: Mem, limbo: set<Node>, e: nat, l2: nat, m': Mem)
    requires Valid(m, limbo) && TableTaken(m, e, l2, m') && m.lev2[e][l2] == Null
    ensures Valid(m', limbo) && Tab(m') == Tab(m)
    ensures m.freeTables == Slot(m.freeTabs[0], 0) && m.freeTabs[0] !in m.place
    ensures forall h :: h in EmptyRings(m.freeTabs[0]) <==> h.Slot? && h.tab == m.freeTabs[0] && h.ind < 32
  {
    hide LvSide, Flags, EaRings, Keyed, Lev2Tables, FreeTables, TabOf, SlotsOfTable;
    var t := m.freeTabs[0];
    SlotsOfTableMembers(t);
    Lev2Slots(m.lev2, m.place, m.eaRing.Keys);
    FreeTablesTaken(m.eaNext, m.freeTables, m.freeTabs, m.place, Place(e, l2));
    Lev2Rows(m.lev2, m.place, m.eaRing.Keys);
    Lev2Taken(m.lev2, m.place, m.eaRing.Keys, e, l2, t);
    assert m'.eaRing.Keys == m.eaRing.Keys + SlotsOfTable(t);
    KeyedPlace(m.own, m.pent, m.place, m.rec, m'.place);
    EaRingsGrow(m.eaNext, m.pent, m.eaRing, m.own, m'.eaNext, t);
    LvSideSame(m, m', limbo);
  }

  lemma Lev2Rows(lev2: map<nat, seq<Node>>, place: map<nat, Place>, slots: set<Node>)
    requires Lev2Tables(lev2, place, slots)
    ensures forall e :: e in lev2 ==> |lev2[e]| == 64
  {
  }

  lemma LvSideSame(m: Mem, m': Mem, limbo: set<Node>)
    requires LvSide(m, limbo)
    requires m'.lvNext == m.lvNext && m'.lvRing == m.lvRing && m'.lvOwn == m.lvOwn && m'.freePents == m.freePents
    requires m'.free == m.free && m'.own == m.own
    ensures LvSide(m', limbo)
  {
    hide LvRings, FreeList, Roles, Unlisted;
  }

  // ----------------------------------------------------------- giving a table back

  /** A table whose 32 rings are empty goes back to the free tables. */
  ghost predicate TableFreed(m: Mem, e: nat, l2: nat, m': Mem) {
    && e in m.lev2 && l2 < |m.lev2[e]| && m.lev2[e][l2].Slot?
    && var t := m.lev2[e][l2].tab;
    && (forall h :: h in SlotsOfTable(t) ==> h in m.eaRing && m.eaRing[h] == [])
    && m' == m.(freeTables := m.lev2[e][l2], freeTabs := [t] + m.freeTabs,
                eaNext := m.eaNext[Slot(t, 0) := m.freeTables],
                lev2 := m.lev2[e := m.lev2[e][l2 := Null]],
                place := m.place - {t}, eaRing := m.eaRing - SlotsOfTable(t))
  }

  lemma Lev2Freed(lev2: map<nat, seq<Node>>, place: map<nat, Place>, slots: set<Node>, e: nat, l2: nat, t: nat)
    requires Lev2Tables(lev2, place, slots) && e in lev2 && l2 < 64 && lev2[e][l2].Slot? && lev2[e][l2].tab == t
    ensures lev2[e][l2] == Slot(t, 0) && t in place && place[t] == Place(e, l2)
    ensures Lev2Tables(lev2[e := lev2[e][l2 := Null]], place - {t}, slots - SlotsOfTable(t))
  {
    hide SlotsOfTable;
    SlotsOfTableMembers(t);
  }

  lemma FreeTablesBack(next: Links, start: Node, tabs: seq<nat>, place: map<nat, Place>, t: nat)
    requires FreeTables(next, start, tabs, place) && t in place && Slot(t, 0) in next
    requires forall j :: 0 < j < 32 ==> Slot(t, j) in next && next[Slot(t, j)] == Null
    ensures FreeTables(next[Slot(t, 0) := start], Slot(t, 0), [t] + tabs, place - {t})
  {
    var w := [t] + tabs;
    assert forall i :: 0 < i < |w| ==> w[i] == tabs[i - 1];
    assert t !in tabs;
  }

  lemma EaRingsShrink(next: Links, pent: Pents, rings: Rings, own: Links, next': Links, t: nat)
    requires EaRings(next, pent, rings, own)
    requires forall h :: h in SlotsOfTable(t) ==> h in rings && rings[h] == []
    requires forall x :: x in next && x !in SlotsOfTable(t) ==> x in next' && next'[x] == next[x]
    ensures EaRings(next', pent, rings - SlotsOfTable(t), own)
  {
    SlotsOfTableMembers(t);
    hide EaRings, EaRing, SlotsOfTable;
    EaRingsMembers(next, pent, rings, own);
    EaRingsMeet(next, pent, rings, own, SlotsOfTable(t));
    EaRingsFrame(next, pent, next', pent, rings - SlotsOfTable(t), own, own);
  }

  lemma EaRingsMeet(next: Links, pent: Pents, rings: Rings, own: Links, gone: set<Node>)
    requires EaRings(next, pent, rings, own)
    requires forall h :: h in gone && h in rings ==> rings[h] == []
    ensures EaRings(next, pent, rings - gone, own)
  {
    hide EaRing;
  }

  lemma EaRingsEmptySlot(next: Links, pent: Pents, rings: Rings, own: Links, h: Node)
    requires EaRings(next, pent, rings, own) && h in rings
    ensures h in next && (next[h] == Null <==> rings[h] == [])
  {
    EaRingShape(next, pent, rings, own, h);
  }

  lemma TableFreedKeeps(m: Mem, limbo: set<Node>, e: nat, l2: nat, m': Mem)
    requires Valid(m, limbo) && TableFreed(m, e, l2, m')
    ensures Valid(m', limbo) && Tab(m') == Tab(m)
  {
    hide LvSide, Flags, EaRings, Keyed, Lev2Tables, FreeTables, TabOf, SlotsOfTable;
    var t := m.lev2[e][l2].tab;
    SlotsOfTableMembers(t);
    Lev2Rows(m.lev2, m.place, m.eaRing.Keys);
    Lev2Freed(m.lev2, m.place, m.eaRing.Keys, e, l2, t);
    assert m'.eaRing.Keys == m.eaRing.Keys - SlotsOfTable(t);
    EaRingsMembers(m.eaNext, m.pent, m.eaRing, m.own);
    forall j | 0 <= j < 32
      ensures Slot(t, j) in m.eaNext && m.eaNext[Slot(t, j)] == Null
    {
      assert Slot(t, j) in SlotsOfTable(t);
      EaRingsEmptySlot(m.eaNext, m.pent, m.eaRing, m.own, Slot(t, j));
    }
    FreeTablesBack(m.eaNext, m.freeTables, m.freeTabs, m.place, t);
    EaRingsShrink(m.eaNext, m.pent, m.eaRing, m.own, m'.eaNext, t);
    Lev2Slots(m.lev2, m.place, m.eaRing.Keys);
    KeyedPlace(m.own, m.pent, m.place, m.rec, m'.place);
    LvSideSame(m, m', limbo);
  }

  // ------------------------------------------------------------------ VSID entries

  function NoTables(): seq<Node> {
    seq(64, i => Null)
  }

  lemma EntAdded(m: Mem, limbo: set<Node>, e: nat, m': Mem)
    requires Valid(m, limbo) && e !in m.lev2 && m' == m.(lev2 := m.lev2[e := NoTables()])
    ensures Valid(m', limbo) && Tab(m') == Tab(m)
  {
    hide LvSide, Flags, EaRings, Keyed, FreeTables, TabOf;
    LvSideSame(m, m', limbo);
  }

  lemma EntDropped(m: Mem, limbo: set<Node>, e: nat, m': Mem)
    requires Valid(m, limbo) && e in m.lev2 && m' == m.(lev2 := m.lev2 - {e})
    requires forall i :: 0 <= i < |m.lev2[e]| ==> m.lev2[e][i] == Null
    ensures Valid(m', limbo) && Tab(m') == Tab(m)
    ensures KeysOfEnt(Tab(m), e) == {}
  {
    hide LvSide, Flags, EaRings, Keyed, FreeTables;
    LvSideSame(m, m', limbo);
    forall k | k in m.rec
      ensures k.ent != e
    {
      KeyedBack(m.own, m.pent, m.place, m.rec, k);
    }
    hide Keyed;
  }

  /** The place a recorded address is kept at. */
  lemma KeyedBack(own: Links, pent: Pents, place: map<nat, Place>, rec: map<Key, Node>, k: Key)
    requires Keyed(own, pent, place, rec) && k in rec
    ensures var n := rec[k];
            && n in own && own[n] != Null && HasKey(n, own, pent, place) && KeyOf(n, own, pent, place) == k
            && place[own[n].tab].ent == k.ent
  {
  }

  // ------------------------------------------------------------------- new chunks

  /** Freshly zeroed level-2 tables, chained, go in front of the free tables. */
  ghost predicate TablesAdded(m: Mem, ts: seq<nat>, m': Mem) {
    && ts != [] && (forall i, j :: 0 <= i < j < |ts| ==> ts[i] != ts[j])
    && (forall h :: h in m.eaNext && h.Slot? ==> h.tab !in ts)
    && m' == m.(eaNext := m'.eaNext, freeTables := Slot(ts[0], 0), freeTabs := ts + m.freeTabs)
    && (forall x :: x in m.eaNext ==> x in m'.eaNext && m'.eaNext[x] == m.eaNext[x])
    && (forall t, j :: t in ts && 0 < j < 32 ==> Slot(t, j) in m'.eaNext && m'.eaNext[Slot(t, j)] == Null)
    && (forall i :: 0 <= i < |ts| ==> Slot(ts[i], 0) in m'.eaNext)
    && (forall i, j :: 0 <= i < j < |ts| && j == i + 1 ==> m'.eaNext[Slot(ts[i], 0)] == Slot(ts[j], 0))
    && m'.eaNext[Slot(ts[|ts| - 1], 0)] == m.freeTables
  }

  lemma FreeTablesAdded(next: Links, start: Node, tabs: seq<nat>, place: map<nat, Place>, ts: seq<nat>, next': Links)
    requires FreeTables(next, start, tabs, place) && ts != []
    requires forall i, j :: 0 <= i < j < |ts| ==> ts[i] != ts[j]
    requires forall t :: t in ts ==> t !in place && t !in tabs
    requires forall x :: x in next ==> x in next' && next'[x] == next[x]
    requires forall t, j :: t in ts && 0 < j < 32 ==> Slot(t, j) in next' && next'[Slot(t, j)] == Null
    requires forall i :: 0 <= i < |ts| ==> Slot(ts[i], 0) in next'
    requires forall i, j :: 0 <= i < j < |ts| && j == i + 1 ==> next'[Slot(ts[i], 0)] == Slot(ts[j], 0)
    requires next'[Slot(ts[|ts| - 1], 0)] == start
    ensures FreeTables(next', Slot(ts[0], 0), ts + tabs, place)
  {
    var w := ts + tabs;
    forall i, j | 0 <= i < j < |w| && j == i + 1
      ensures next'[Slot(w[i], 0)] == Slot(w[j], 0)
    {
      if j >= |ts| {
        assert w[j] == tabs[j - |ts|];
        assert i >= |ts| ==> w[i] == tabs[i - |ts|];
      }
    }
    assert tabs != [] ==> w[|w| - 1] == tabs[|tabs| - 1];
  }

  lemma TablesAddedKeeps(m: Mem, limbo: set<Node>, ts: seq<nat>, m': Mem)
    requires Valid(m, limbo) && TablesAdded(m, ts, m')
    ensures Valid(m', limbo) && Tab(m') == Tab(m)
  {
    hide LvSide, Flags, EaRings, Keyed, Lev2Tables, FreeTables, TabOf;
    EaRingsMembers(m.eaNext, m.pent, m.eaRing, m.own);
    Lev2Zeroth(m.lev2, m.place, m.eaRing.Keys);
    FreeTabsLinked(m.eaNext, m.freeTables, m.freeTabs, m.place);
    FreeTablesAdded(m.eaNext, m.freeTables, m.freeTabs, m.place, ts, m'.eaNext);
    EaRingsFrame(m.eaNext, m.pent, m'.eaNext, m.pent, m.eaRing, m.own, m.own);
    LvSideSame(m, m', limbo);
  }

  lemma Lev2Zeroth(lev2: map<nat, seq<Node>>, place: map<nat, Place>, slots: set<Node>)
    requires Lev2Tables(lev2, place, slots)
    ensures forall t :: t in place ==> Slot(t, 0) in slots
  {
  }

  lemma FreeTabsLinked(next: Links, start: Node, tabs: seq<nat>, place: map<nat, Place>)
    requires FreeTables(next, start, tabs, place)
    ensures forall t :: t in tabs ==> t !in place && Slot(t, 0) in next
  {
  }

  /** Records on no ring come into being, or go: the ea side does not notice. */
  lemma EaSideRecords(m: Mem, m': Mem)
    requires EaSide(m)
    requires m' == m.(eaNext := m'.eaNext, lvNext := m'.lvNext, pent := m'.pent, own := m'.own, lvOwn := m'.lvOwn,
                      lvRing := m'.lvRing, free := m'.free, freePents := m'.freePents)
    requires forall x :: x in m.eaNext && !(x in m.own && m.own[x] == Null) ==>
               x in m'.eaNext && m'.eaNext[x] == m.eaNext[x]
    requires forall x :: x in m.own && m.own[x] != Null ==>
               x in m'.own && m'.own[x] == m.own[x]
               && (x in m.pent ==> x in m'.pent && m'.pent[x] == m.pent[x])
               && LvOf(x, m'.lvOwn) == LvOf(x, m.lvOwn)
    requires forall x :: x in m'.own && m'.own[x] != Null ==> x in m.own && m.own[x] == m'.own[x]
    requires m'.own.Keys <= m'.eaNext.Keys
    requires forall x :: x in m.own ==> IsRecord(x)
    ensures EaSide(m') && Tab(m') == Tab(m)
  {
    hide EaRings, Keyed, Lev2Tables, FreeTables, TabOf, LvOf;
    EaRingsMembers(m.eaNext, m.pent, m.eaRing, m.own);
    EaRingsFrame(m.eaNext, m.pent, m'.eaNext, m'.pent, m.eaRing, m.own, m'.own);
    KeyedOwn(m.own, m.pent, m.place, m.rec, m'.own, m'.pent);
    KeyedMembers(m.own, m.pent, m.place, m.rec);
    TabOffRing(m.own, m.pent, m.place, m.rec, m.lvOwn, m'.pent, m'.lvOwn);
    FreeTablesFrame(m.eaNext, m'.eaNext, m.freeTables, m.freeTabs, m.place);
  }

  lemma KeyedOwn(own: Links, pent: Pents, place: map<nat, Place>, rec: map<Key, Node>, own': Links, pent': Pents)
    requires Keyed(own, pent, place, rec)
    requires forall x :: x in own && own[x] != Null ==>
               x in own' && own'[x] == own[x] && (x in pent ==> x in pent' && pent'[x] == pent[x])
    requires forall x :: x in own' && own'[x] != Null ==> x in own && own[x] == own'[x]
    ensures Keyed(own', pent', place, rec)
  {
    forall n | n in own && own[n] != Null
      ensures HasKey(n, own', pent', place) && KeyOf(n, own', pent', place) == KeyOf(n, own, pent, place)
    {
    }
  }

  const ZEROED := Pent(false, false, false, false, 0, false, 0)
  const IDLE := Pent(true, true, false, false, 0, false, 0)

  ghost function Members(rs: seq<Node>): set<Node> {
    set x | x in rs
  }

  /** Freshly zeroed records, chained, go in front of the free list. */
  ghost predicate RecordsAdded(m: Mem, rs: seq<Node>, m': Mem) {
    && rs != [] && NoDup(rs) && (forall i :: 0 <= i < |rs| ==> rs[i].Rec? && rs[i] !in m.own)
    && m' == m.(eaNext := m'.eaNext, lvNext := m'.lvNext, pent := m'.pent, own := m'.own, lvOwn := m'.lvOwn,
                freePents := rs[0], free := rs + m.free)
    && (forall x :: x in m.eaNext ==> x in m'.eaNext && m'.eaNext[x] == m.eaNext[x])
    && m'.own == Extend(m.own, Members(rs), Null) && m'.lvOwn == Extend(m.lvOwn, Members(rs), Null)
    && m'.pent == Extend(m.pent, Members(rs), ZEROED)
    && m'.own.Keys <= m'.eaNext.Keys && m'.lvNext.Keys == m'.own.Keys
    && (forall x :: x in m.lvNext && x in m.own ==> m'.lvNext[x] == m.lvNext[x])
    && Path(m'.lvNext, rs, m.freePents)
  }

  lemma RolesAdded(own: Links, lvOwn: Links, lvRing: Rings, free: seq<Node>, limbo: set<Node>, rs: seq<Node>)
    requires Roles(own, lvOwn, lvRing, free, limbo)
    requires forall i :: 0 <= i < |rs| ==> rs[i].Rec? && rs[i] !in own
    ensures Roles(Extend(own, Members(rs), Null), Extend(lvOwn, Members(rs), Null), lvRing, rs + free, limbo)
  {
    hide Extend;
    ExtendFacts(own, Members(rs), Null);
    ExtendFacts(lvOwn, Members(rs), Null);
  }

  lemma FlagsAdded(own: Links, pent: Pents, limbo: set<Node>, rs: seq<Node>)
    requires Flags(own, pent, limbo)
    requires forall i :: 0 <= i < |rs| ==> rs[i].Rec? && rs[i] !in own
    ensures Flags(Extend(own, Members(rs), Null), Extend(pent, Members(rs), ZEROED), limbo)
  {
    hide Extend;
    ExtendFacts(own, Members(rs), Null);
    ExtendFacts(pent, Members(rs), ZEROED);
  }

  lemma FreeListAdded(next: Links, start: Node, free: seq<Node>, rs: seq<Node>, next': Links)
    requires FreeList(next, start, free) && rs != [] && NoDup(rs) && Path(next', rs, start)
    requires forall i :: 0 <= i < |rs| ==> rs[i].Rec? && rs[i] !in free
    requires forall x :: x in free ==> x in next' && next'[x] == next[x]
    ensures FreeList(next', rs[0], rs + free)
  {
    FreeListFrame(next, next', start, free);
    hide FreeList;
    assert Path(next', rs, start);
    FreeListPrepend(next', next', start, free, rs, start) by {
      assert FreeList(next', start, free);
    }
  }

  lemma RecordsAddedEa(m: Mem, rs: seq<Node>, m': Mem)
    requires EaSide(m) && RecordsAdded(m, rs, m') && m.own.Keys == m.lvOwn.Keys && m.own.Keys == m.pent.Keys
    requires forall n :: n in m.own ==> IsRecord(n)
    ensures EaSide(m') && Tab(m') == Tab(m)
  {
    hide EaSide, Tab, Path, NoDup, Extend;
    ExtendFacts(m.own, Members(rs), Null);
    ExtendFacts(m.lvOwn, Members(rs), Null);
    ExtendFacts(m.pent, Members(rs), ZEROED);
    EaSideRecords(m, m');
  }

  lemma RecordsAddedLv(m: Mem, limbo: set<Node>, rs: seq<Node>, m': Mem)
    requires LvSide(m, limbo) && RecordsAdded(m, rs, m')
    requires forall n :: n in m.free ==> n in m.own && n in m.lvNext
    ensures LvSide(m', limbo)
  {
    hide LvRings, FreeList, Roles, Path, NoDup, Extend;
    ExtendFacts(m.own, Members(rs), Null);
    ExtendFacts(m.lvOwn, Members(rs), Null);
    RolesAdded(m.own, m.lvOwn, m.lvRing, m.free, limbo, rs);
    FreeListAdded(m.lvNext, m.freePents, m.free, rs, m'.lvNext);
    LvRingsMembers(m.lvNext, m.lvRing, m.lvOwn);
    LvRingsFrame(m.lvNext, m'.lvNext, m.lvRing, m.lvOwn, m'.lvOwn);
  }

  lemma RecordsAddedKeeps(m: Mem, limbo: set<Node>, rs: seq<Node>, m': Mem)
    requires Valid(m, limbo) && RecordsAdded(m, rs, m')
    ensures Valid(m', limbo) && Tab(m') == Tab(m)
  {
    hide EaSide, Tab, LvRings, FreeList, Roles, Unlisted, Flags, Path, NoDup, Extend;
    FreeMembers(m, limbo);
    RolesRecords(m.own, m.lvOwn, m.lvRing, m.free, limbo);
    RecordsAddedEa(m, rs, m');
    RecordsAddedLv(m, limbo, rs, m');
    FlagsAdded(m.own, m.pent, limbo, rs);
  }

  lemma RolesRecords(own: Links, lvOwn: Links, lvRing: Rings, free: seq<Node>, limbo: set<Node>)
    requires Roles(own, lvOwn, lvRing, free, limbo)
    ensures forall n :: n in own ==> IsRecord(n)
  {
  }

  // ---------------------------------------------------------------------- lvranges

  ghost function HeadsOf(rng: nat, nel: nat): set<Node> {
    set i | 0 <= i < nel :: Head(rng, i)
  }

  lemma HeadsOfMembers(rng: nat, nel: nat)
    ensures forall h :: h in HeadsOf(rng, nel) <==> h.Head? && h.rng == rng && h.idx < nel
  {
    forall h: Node | h.Head? && h.rng == rng && h.idx < nel
      ensures h in HeadsOf(rng, nel)
    {
      assert h == Head(rng, h.idx);
    }
  }

  /** Idle heads, each alone on its ring, come into being. */
  ghost predicate HeadsAdded(m: Mem, hs: set<Node>, m': Mem) {
    && (forall h :: h in hs ==> h.Head? && h !in m.own && h !in m.eaNext)
    && m' == m.(eaNext := Extend(m.eaNext, hs, Null), lvNext := ExtendSelf(m.lvNext, hs),
                pent := Extend(m.pent, hs, IDLE), own := Extend(m.own, hs, Null),
                lvOwn := Extend(m.lvOwn, hs, Null), lvRing := Extend(m.lvRing, hs, []))
  }

  lemma HeadsAddedEa(m: Mem, hs: set<Node>, m': Mem)
    requires EaSide(m) && HeadsAdded(m, hs, m') && m.own.Keys == m.lvOwn.Keys && m.own.Keys == m.pent.Keys
    requires forall n :: n in m.own ==> IsRecord(n)
    ensures EaSide(m') && Tab(m') == Tab(m)
  {
    hide EaSide, Tab, Extend, ExtendSelf;
    ExtendFacts(m.own, hs, Null);
    ExtendFacts(m.lvOwn, hs, Null);
    ExtendFacts(m.pent, hs, IDLE);
    ExtendFacts(m.eaNext, hs, Null);
    EaSideDomain(m);
    EaSideRecords(m, m');
  }

  lemma LvRingsJoin(next: Links, rings: Rings, own: Links, hs: set<Node>)
    requires LvRings(next, rings, own)
    requires forall h :: h in hs ==> h.Head? && h !in rings && h in next && next[h] == h
    ensures LvRings(next, Extend(rings, hs, []), own)
  {
    forall h | h in hs
      ensures LvRing(next, h, [])
    {
      LvRingAlone(next, h);
    }
    hide LvRing, Extend;
    ExtendFacts(rings, hs, []);
  }

  lemma RolesHeadsAdded(own: Links, lvOwn: Links, lvRing: Rings, free: seq<Node>, limbo: set<Node>, hs: set<Node>)
    requires Roles(own, lvOwn, lvRing, free, limbo) && forall h :: h in hs ==> h.Head? && h !in own
    ensures Roles(Extend(own, hs, Null), Extend(lvOwn, hs, Null), Extend(lvRing, hs, []), free, limbo)
  {
    hide Extend;
    ExtendFacts(own, hs, Null);
    ExtendFacts(lvOwn, hs, Null);
    ExtendFacts(lvRing, hs, []);
  }

  lemma HeadsAddedLv(m: Mem, limbo: set<Node>, hs: set<Node>, m': Mem)
    requires LvSide(m, limbo) && HeadsAdded(m, hs, m')
    requires forall n :: n in m.free ==> n in m.own && n in m.lvNext
    requires forall h :: h in m.lvRing ==> h in m.own
    requires m.own.Keys == m.lvOwn.Keys
    ensures LvSide(m', limbo)
  {
    hide LvRings, FreeList, Roles, Extend, ExtendSelf;
    ExtendFacts(m.own, hs, Null);
    ExtendFacts(m.lvOwn, hs, Null);
    ExtendSelfFacts(m.lvNext, hs);
    RolesHeadsAdded(m.own, m.lvOwn, m.lvRing, m.free, limbo, hs);
    FreeListFrame(m.lvNext, m'.lvNext, m.freePents, m.free);
    LvRingsMembers(m.lvNext, m.lvRing, m.lvOwn);
    LvRingsFrame(m.lvNext, m'.lvNext, m.lvRing, m.lvOwn, m'.lvOwn);
    LvRingsJoin(m'.lvNext, m.lvRing, m'.lvOwn, hs);
  }

  lemma FlagsHeadsAdded(own: Links, pent: Pents, limbo: set<Node>, hs: set<Node>)
    requires Flags(own, pent, limbo) && forall h :: h in hs ==> h.Head? && h !in own
    ensures Flags(Extend(own, hs, Null), Extend(pent, hs, IDLE), limbo)
  {
    hide Extend;
    ExtendFacts(own, hs, Null);
    ExtendFacts(pent, hs, IDLE);
  }

  lemma HeadsAddedKeeps(m: Mem, limbo: set<Node>, hs: set<Node>, m': Mem)
    requires Valid(m, limbo) && HeadsAdded(m, hs, m')
    ensures Valid(m', limbo) && Tab(m') == Tab(m)
  {
    hide EaSide, Tab, LvRings, FreeList, Roles, Unlisted, Flags, Extend, ExtendSelf;
    FreeMembers(m, limbo);
    RolesRecords(m.own, m.lvOwn, m.lvRing, m.free, limbo);
    HeadsAddedEa(m, hs, m');
    HeadsAddedLv(m, limbo, hs, m');
    FlagsHeadsAdded(m.own, m.pent, limbo, hs);
  }

  /** Idle heads that are alone on their rings go. */
  ghost predicate HeadsDropped(m: Mem, hs: set<Node>, m': Mem) {
    && (forall h :: h in hs ==> h in m.lvRing && m.lvRing[h] == [] && h in m.own && m.own[h] == Null)
    && m' == m.(eaNext := m.eaNext - hs, lvNext := m.lvNext - hs, pent := m.pent - hs, own := m.own - hs,
                lvOwn := m.lvOwn - hs, lvRing := m.lvRing - hs)
  }

  lemma HeadsDroppedKeeps(m: Mem, limbo: set<Node>, hs: set<Node>, m': Mem)
    requires Valid(m, limbo) && HeadsDropped(m, hs, m') && hs !! limbo
    ensures Valid(m', limbo) && Tab(m') == Tab(m)
  {
    hide EaSide, LvSide, Tab;
    FreeMembers(m, limbo);
    HeadsDroppedEa(m, limbo, hs, m');
    HeadsDroppedLv(m, limbo, hs, m');
  }

  lemma HeadsDroppedEa(m: Mem, limbo: set<Node>, hs: set<Node>, m': Mem)
    requires Valid(m, limbo) && HeadsDropped(m, hs, m') && hs !! limbo
    ensures EaSide(m') && Tab(m') == Tab(m)
  {
    hide EaSide, Tab, LvRings, FreeList, Roles, Unlisted;
    RolesRecords(m.own, m.lvOwn, m.lvRing, m.free, limbo);
    EaSideDomain(m);
    EaSideRecords(m, m');
  }

  lemma EaSideDomain(m: Mem)
    requires EaSide(m)
    ensures m.own.Keys <= m.eaNext.Keys
  {
  }

  lemma HeadsDroppedLv(m: Mem, limbo: set<Node>, hs: set<Node>, m': Mem)
    requires LvSide(m, limbo) && HeadsDropped(m, hs, m') && hs !! limbo
    requires forall n :: n in m.free ==> n in m.lvNext && n.Rec?
    ensures LvSide(m', limbo)
  {
    hide LvRings, FreeList, Roles;
    LvRingsMembers(m.lvNext, m.lvRing, m.lvOwn);
    FreeListFrame(m.lvNext, m'.lvNext, m.freePents, m.free);
    LvRingsMeet(m.lvNext, m.lvRing, m.lvOwn, hs);
    LvRingsFrame(m.lvNext, m'.lvNext, m'.lvRing, m.lvOwn, m'.lvOwn);
    RolesHeadsDropped(m.own, m.lvOwn, m.lvRing, m.free, limbo, hs);
  }

  lemma LvRingsMeet(next: Links, rings: Rings, own: Links, gone: set<Node>)
    requires LvRings(next, rings, own)
    requires forall h :: h in gone && h in rings ==> rings[h] == []
    ensures LvRings(next, rings - gone, own)
  {
    hide LvRing;
  }

  lemma RolesHeadsDropped(own: Links, lvOwn: Links, lvRing: Rings, free: seq<Node>, limbo: set<Node>, hs: set<Node>)
    requires Roles(own, lvOwn, lvRing, free, limbo) && hs !! limbo && forall h :: h in hs ==> h.Head?
    ensures Roles(own - hs, lvOwn - hs, lvRing - hs, free, limbo)
  {
  }

  // ------------------------------------------------------------------- freeing it all

  /** With no table attached, every record but the lv heads is free, and all of the
      chunks can go. */
  ghost predicate ChunksDropped(m: Mem, m': Mem) {
    && m.place == map[] && m.eaRing == map[]
    && var hs := m.lvRing.Keys;
    m' == Mem(Keep(m.eaNext, hs), Keep(m.lvNext, hs), Keep(m.pent, hs), Null, Null, map[],
              map[], Keep(m.own, hs), m.lvRing, Keep(m.lvOwn, hs), [], [], map[], map[])
  }

  lemma NothingOnRings(m: Mem, limbo: set<Node>)
    requires Valid(m, limbo) && m.eaRing == map[]
    ensures forall n :: n in m.own ==> m.own[n] == Null
    ensures m.rec == map[]
  {
    hide Lev2Tables, FreeTables, LvSide, Flags, EaRing;
    assert forall n :: n in m.own ==> m.own[n] == Null;
    assert forall k :: k in m.rec ==> false;
  }

  lemma NoLvMembers(m: Mem)
    requires Valid(m, {}) && forall n :: n in m.own ==> m.own[n] == Null
    ensures forall h :: h in m.lvRing ==> m.lvRing[h] == [] && h in m.own
    ensures forall n :: n in m.lvOwn ==> m.lvOwn[n] == Null
  {
    hide EaSide, Flags, FreeList, LvRings;
    LvRingsMembers(m.lvNext, m.lvRing, m.lvOwn);
    assert forall n :: n in m.lvOwn ==> m.lvOwn[n] == Null;
    forall h | h in m.lvRing
      ensures m.lvRing[h] == []
    {
      assert forall n :: n in m.lvRing[h] ==> m.lvOwn[n] == h;
      EmptyIfNoMember(m.lvRing[h]);
    }
  }

  lemma EmptyIfNoMember(r: seq<Node>)
    ensures (forall n :: n !in r) ==> r == []
  {
    if r != [] {
      assert r[0] in r;
    }
  }

  lemma ChunksDroppedKeeps(m: Mem, m': Mem)
    requires Valid(m, {}) && ChunksDropped(m, m')
    ensures Valid(m', {}) && Tab(m') == map[]
    ensures forall h :: h in m'.lvRing ==> m'.lvRing[h] == []
    ensures m'.own.Keys == m'.lvRing.Keys && forall h :: h in m'.lvRing ==> h in m'.pent && m'.pent[h].unused
  {
    hide EaSide, Tab, LvRings, FreeList, Roles, Unlisted, Keep;
    NothingOnRings(m, {});
    NoLvMembers(m);
    KeepFacts(m.own, m.lvRing.Keys);
    KeepFacts(m.pent, m.lvRing.Keys);
    FreeMembers(m, {});
    ChunksDroppedEa(m, m');
    ChunksDroppedLv(m, m');
    assert m'.own.Keys == m'.lvRing.Keys;
  }

  lemma ChunksDroppedEa(m: Mem, m': Mem)
    requires EaSide(m) && ChunksDropped(m, m') && forall n :: n in m.own ==> m.own[n] == Null
    ensures EaSide(m') && Tab(m') == map[]
  {
    hide EaRings, Keyed, Lev2Tables, FreeTables, Keep;
    KeepFacts(m.own, m.lvRing.Keys);
    KeepFacts(m.eaNext, m.lvRing.Keys);
    NothingRecorded(m'.eaNext, m'.pent, m'.own);
    assert m'.eaRing.Keys == {};
  }

  lemma NothingRecorded(next: Links, pent: Pents, own: Links)
    requires forall n :: n in own ==> own[n] == Null
    ensures EaRings(next, pent, map[], own) && Keyed(own, pent, map[], map[])
    ensures Lev2Tables(map[], map[], {}) && FreeTables(next, Null, [], map[])
  {
  }

  lemma ChunksDroppedLv(m: Mem, m': Mem)
    requires LvSide(m, {}) && ChunksDropped(m, m') && forall n :: n in m.own ==> m.own[n] == Null
    requires forall h :: h in m.lvRing ==> m.lvRing[h] == []
    requires forall n :: n in m.lvOwn ==> m.lvOwn[n] == Null
    ensures LvSide(m', {})
  {
    hide LvRings, FreeList, Roles, Keep;
    KeepFacts(m.own, m.lvRing.Keys);
    KeepFacts(m.lvOwn, m.lvRing.Keys);
    KeepFacts(m.lvNext, m.lvRing.Keys);
    LvRingsMembers(m.lvNext, m.lvRing, m.lvOwn);
    LvRingsFrame(m.lvNext, m'.lvNext, m.lvRing, m.lvOwn, m'.lvOwn);
    RolesKept(m.own, m.lvOwn, m.lvRing, m.free);
    FreeListNone(m'.lvNext);
  }

  lemma RolesKept(own: Links, lvOwn: Links, lvRing: Rings, free: seq<Node>)
    requires Roles(own, lvOwn, lvRing, free, {})
    requires forall n :: n in own ==> own[n] == Null
    ensures Roles(Keep(own, lvRing.Keys), Keep(lvOwn, lvRing.Keys), lvRing, [], {})
  {
    hide Keep;
    KeepFacts(own, lvRing.Keys);
    KeepFacts(lvOwn, lvRing.Keys);
  }

  lemma FreeListNone(next: Links)
    ensures FreeList(next, Null, [])
  {
  }
}

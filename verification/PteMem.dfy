/**
 The memory image of the reverse map: link fields, packed words, level-2 tables,
 and the ghost bookkeeping that says which ring each record is on.

 `Valid` is what every operation keeps.  The lemmas follow the records through the
 edits the operations make: off an ea ring, off an lv ring, onto the free list, and
 back.  A record between two places is in `limbo`.
 */
module PteMem {
  import opened Options
  import opened PteRingShapes
  import opened ReverseMap

  /** Where a level-2 table is attached: a VSID entry and an index. */
  datatype Place = Place(ent: nat, l2: nat)

  datatype Mem = Mem(
    eaNext: Links, lvNext: Links, pent: Pents,
    freePents: Node, freeTables: Node,
    lev2: map<nat, seq<Node>>,
    // bookkeeping: the rings as sequences, and the ring each record is on
    ghost eaRing: Rings, ghost own: Links,
    ghost lvRing: Rings, ghost lvOwn: Links,
    ghost free: seq<Node>, ghost freeTabs: seq<nat>,
    ghost place: map<nat, Place>,
    ghost rec: map<Key, Node>)

  // ------------------------------------------------------------------ addresses

  /** Bits 4-8 of the address, bits 9-14, and bits 15-19: together the page index. */
  function PageOf(topea: nat, l2: nat, pl: nat): nat {
    topea * 2048 + l2 * 32 + pl
  }

  function TopEa(page: nat): nat { page / 2048 }
  function Lev2Ind(page: nat): nat { page / 32 % 64 }
  function PelistInd(page: nat): nat { page % 32 }
  predicate EaBit14(page: nat) { page / 32 % 2 == 1 }

  lemma PageSplits(page: nat)
    requires page < 0x10000
    ensures TopEa(page) < 32 && Lev2Ind(page) < 64 && PelistInd(page) < 32
    ensures PageOf(TopEa(page), Lev2Ind(page), PelistInd(page)) == page
    ensures EaBit14(page) <==> Lev2Ind(page) % 2 == 1
  {
    var a, pl := page / 32, page % 32;
    var t, l2 := a / 64, a % 64;
    QuotientOf(page, 2048, t, l2 * 32 + pl);
    QuotientOf(a, 2, t * 32 + l2 / 2, l2 % 2);
  }

  lemma PageJoins(topea: nat, l2: nat, pl: nat)
    requires topea < 32 && l2 < 64 && pl < 32
    ensures var p := PageOf(topea, l2, pl);
            p < 0x10000 && TopEa(p) == topea && Lev2Ind(p) == l2 && PelistInd(p) == pl
    ensures TlbBits(PageOf(topea, l2, pl)) == pl + if l2 % 2 == 1 then 32 else 0
  {
    var p := PageOf(topea, l2, pl);
    QuotientOf(p, 2048, topea, l2 * 32 + pl);
    QuotientOf(p, 32, topea * 64 + l2, pl);
    QuotientOf(topea * 64 + l2, 64, topea, l2);
    QuotientOf(p, 64, topea * 32 + l2 / 2, l2 % 2 * 32 + pl);
  }

  lemma QuotientOf(x: nat, d: nat, q: nat, r: nat)
    requires x == q * d + r && r < d
    ensures x / d == q && x % d == r
  {
    assert (x / d - q) * d == r - x % d;
    NonzeroMultiple(x / d - q, d);
  }

  lemma NonzeroMultiple(t: int, d: nat)
    requires d > 0
    ensures t != 0 ==> t * d >= d || t * d <= 0 - d
  {
  }

  // ----------------------------------------------------------------- what is kept

  ghost predicate Roles(own: Links, lvOwn: Links, lvRing: Rings, free: seq<Node>, limbo: set<Node>) {
    && own.Keys == lvOwn.Keys
    && (forall n :: n in own ==> IsRecord(n) && (n.Head? <==> n in lvRing))
    && (forall n :: n in lvRing ==> n in own)
    && (forall n :: n in own && n.Rec? ==> (own[n] == Null <==> n in free || n in limbo))
    && (forall n :: n in limbo ==> n in own && own[n] == Null && n !in free)
    && (forall n :: n in free ==> n in own && n.Rec? && lvOwn[n] == Null)
    && (forall n :: n in own && lvOwn[n] != Null ==> n.Rec?)
  }

  ghost predicate Flags(own: Links, pent: Pents, limbo: set<Node>) {
    && pent.Keys == own.Keys
    && (forall n :: n in own ==>
          && (pent[n].lvHead <==> n.Head?)
          && (own[n] != Null ==> !pent[n].unused)
          && (n.Head? && n !in limbo && own[n] == Null ==> pent[n].unused))
  }

  /** Records on an ea ring but on no lv ring have a NULL lv link. */
  ghost predicate Unlisted(own: Links, lvOwn: Links, lvNext: Links) {
    forall n :: n in own && n.Rec? && own[n] != Null && n in lvOwn && lvOwn[n] == Null ==>
      n in lvNext && lvNext[n] == Null
  }

  ghost predicate Lev2Tables(lev2: map<nat, seq<Node>>, place: map<nat, Place>, slots: set<Node>) {
    && (forall e :: e in lev2 ==> |lev2[e]| == 64)
    && (forall e, i :: e in lev2 && 0 <= i < 64 ==>
          var t := lev2[e][i];
          t == Null || (t.Slot? && t.ind == 0 && t.tab in place && place[t.tab] == Place(e, i)))
    && (forall t :: t in place ==>
          place[t].ent in lev2 && place[t].l2 < 64 && lev2[place[t].ent][place[t].l2] == Slot(t, 0))
    && (forall h :: h in slots <==> h.Slot? && h.tab in place && h.ind < 32)
  }

  /** Free level-2 tables are chained through their first slot; the others are NULL. */
  ghost predicate FreeTables(next: Links, start: Node, tabs: seq<nat>, place: map<nat, Place>) {
    && start == (if tabs == [] then Null else Slot(tabs[0], 0))
    && (forall i, j :: 0 <= i < j < |tabs| ==> tabs[i] != tabs[j])
    && (forall i :: 0 <= i < |tabs| ==>
          && tabs[i] !in place
          && Slot(tabs[i], 0) in next)
    && (forall i, j :: 0 <= i < j < |tabs| && j == i + 1 ==> next[Slot(tabs[i], 0)] == Slot(tabs[j], 0))
    && (tabs != [] ==> next[Slot(tabs[|tabs| - 1], 0)] == Null)
    && (forall t, j :: t in tabs && 0 < j < 32 ==> Slot(t, j) in next && next[Slot(t, j)] == Null)
  }

  ghost predicate HasKey(n: Node, own: Links, pent: Pents, place: map<nat, Place>) {
    n in own && n in pent && own[n].Slot? && own[n].tab in place
  }

  ghost function KeyOf(n: Node, own: Links, pent: Pents, place: map<nat, Place>): Key
    requires HasKey(n, own, pent, place)
  {
    var pl := place[own[n].tab];
    Key(pl.ent, PageOf(pent[n].topea, pl.l2, own[n].ind), pent[n].sv)
  }

  /** Records on rings and addresses match one to one. */
  ghost predicate Keyed(own: Links, pent: Pents, place: map<nat, Place>, rec: map<Key, Node>) {
    && (forall n :: n in own && own[n] != Null ==>
          && HasKey(n, own, pent, place)
          && pent[n].topea < 32 && own[n].ind < 32 && place[own[n].tab].l2 < 64
          && (pent[n].bit14 <==> place[own[n].tab].l2 % 2 == 1)
          && KeyOf(n, own, pent, place) in rec && rec[KeyOf(n, own, pent, place)] == n)
    && (forall k :: k in rec ==>
          && rec[k] in own && own[rec[k]] != Null
          && HasKey(rec[k], own, pent, place) && KeyOf(rec[k], own, pent, place) == k)
  }

  /** The part that the ea rings and their keys live in. */
  ghost predicate EaSide(m: Mem) {
    && EaRings(m.eaNext, m.pent, m.eaRing, m.own)
    && Keyed(m.own, m.pent, m.place, m.rec)
    && Lev2Tables(m.lev2, m.place, m.eaRing.Keys)
    && FreeTables(m.eaNext, m.freeTables, m.freeTabs, m.place)
    && m.own.Keys <= m.eaNext.Keys
  }

  ghost predicate LvSide(m: Mem, limbo: set<Node>) {
    && LvRings(m.lvNext, m.lvRing, m.lvOwn)
    && FreeList(m.lvNext, m.freePents, m.free)
    && Roles(m.own, m.lvOwn, m.lvRing, m.free, limbo)
    && Unlisted(m.own, m.lvOwn, m.lvNext)
    && m.lvNext.Keys == m.own.Keys
  }

  ghost predicate Valid(m: Mem, limbo: set<Node>) {
    EaSide(m) && LvSide(m, limbo) && Flags(m.own, m.pent, limbo)
  }

  // --------------------------------------------------------- the map it stands for

  function LvOf(n: Node, lvOwn: Links): Option<LvId> {
    if n.Head? then Some(LvId(n.rng, n.idx))
    else if n in lvOwn && lvOwn[n].Head? then Some(LvId(lvOwn[n].rng, lvOwn[n].idx))
    else None
  }

  ghost function TabOf(rec: map<Key, Node>, pent: Pents, lvOwn: Links): map<Key, Entry> {
    map k | k in rec && rec[k] in pent :: Entry(pent[rec[k]].index, LvOf(rec[k], lvOwn))
  }

  ghost function Tab(m: Mem): map<Key, Entry> {
    TabOf(m.rec, m.pent, m.lvOwn)
  }

  // -------------------------------------------------- off an ea ring (into limbo)

  /** Record k of ring h has been unlinked from its ea ring: the record before it
      takes over its link, and the mark of the last record if it had it. */
  ghost predicate Unlinked(m: Mem, h: Node, k: nat, m': Mem) {
    && h in m.eaRing && k < |m.eaRing[h]|
    && var r := m.eaRing[h]; var n := r[k]; var prev := Before(h, r, k);
    && HasKey(n, m.own, m.pent, m.place)
    && n in m.eaNext
    && prev in m.eaNext
    && m' == m.(eaNext := m'.eaNext, pent := m'.pent, eaRing := m.eaRing[h := Without(r, k)],
                own := m.own[n := Null], rec := m.rec - {KeyOf(n, m.own, m.pent, m.place)})
    && m'.eaNext.Keys == m.eaNext.Keys
    && (forall x :: x in m.eaNext && x != n && x != prev ==> m'.eaNext[x] == m.eaNext[x])
    && prev in m'.eaNext && m'.eaNext[prev] == (if |r| == 1 then Null else m.eaNext[n])
    && m'.pent.Keys == m.pent.Keys
    && (forall x :: x in m.pent ==>
          m'.pent[x] == if m.pent[n].eaLast && k > 0 && x == prev then m.pent[x].(eaLast := true) else m.pent[x])
  }

  // each predicate with just the components it depends on

  lemma FreeTablesFrame(next: Links, next': Links, start: Node, tabs: seq<nat>, place: map<nat, Place>)
    requires FreeTables(next, start, tabs, place)
    requires forall x :: x in next && x.Slot? && x.tab !in place ==> x in next' && next'[x] == next[x]
    ensures FreeTables(next', start, tabs, place)
  {
  }

  lemma KeyedRemove(own: Links, pent: Pents, place: map<nat, Place>, rec: map<Key, Node>, n: Node, pent': Pents)
    requires Keyed(own, pent, place, rec) && n in own && own[n] != Null
    requires forall x :: x in pent && x != n ==> x in pent' && pent'[x] == pent[x].(eaLast := pent'[x].eaLast)
    ensures HasKey(n, own, pent, place)
    ensures Keyed(own[n := Null], pent', place, rec - {KeyOf(n, own, pent, place)})
  {
    forall x | x in own && x != n && own[x] != Null
      ensures HasKey(x, own[n := Null], pent', place)
      ensures KeyOf(x, own[n := Null], pent', place) == KeyOf(x, own, pent, place)
    {
    }
  }

  lemma TabRemove(own: Links, pent: Pents, place: map<nat, Place>, rec: map<Key, Node>, lvOwn: Links, n: Node,
                  pent': Pents)
    requires Keyed(own, pent, place, rec) && n in own && own[n] != Null
    requires forall x :: x in pent && x != n ==> x in pent' && pent'[x].index == pent[x].index
    ensures HasKey(n, own, pent, place)
    ensures var key := KeyOf(n, own, pent, place);
            && key in TabOf(rec, pent, lvOwn)
            && TabOf(rec, pent, lvOwn)[key] == Entry(pent[n].index, LvOf(n, lvOwn))
            && TabOf(rec - {key}, pent', lvOwn) == TabOf(rec, pent, lvOwn) - {key}
  {
    var key := KeyOf(n, own, pent, place);
    forall k | k in rec && k != key
      ensures rec[k] in pent && rec[k] != n
    {
    }
    assert TabOf(rec - {key}, pent', lvOwn) == TabOf(rec, pent, lvOwn) - {key};
  }

  lemma RolesToLimbo(own: Links, lvOwn: Links, lvRing: Rings, free: seq<Node>, limbo: set<Node>, n: Node)
    requires Roles(own, lvOwn, lvRing, free, limbo) && n in own && own[n] != Null
    ensures Roles(own[n := Null], lvOwn, lvRing, free, limbo + {n})
  {
    assert n !in free;
  }

  /** Members of a ring are records that carry a link and a word. */
  lemma EaRingShape(next: Links, pent: Pents, rings: Rings, own: Links, h: Node)
    requires EaRings(next, pent, rings, own) && h in rings
    ensures EaRing(next, pent, h, rings[h]) && NoDup(rings[h]) && h.Slot? && h in next
    ensures forall x :: x in rings[h] ==> x in next && x in pent && IsRecord(x) && x in own && own[x] == h
  {
  }

  lemma UnlinkedOneRing(m: Mem, h: Node, k: nat, m': Mem)
    requires EaRings(m.eaNext, m.pent, m.eaRing, m.own) && Unlinked(m, h, k, m')
    ensures EaRing(m'.eaNext, m'.pent, h, Without(m.eaRing[h], k))
  {
    hide HasKey, KeyOf;
    EaRingShape(m.eaNext, m.pent, m.eaRing, m.own, h);
    hide EaRings, EaRing;
    EaRingRemove(m.eaNext, m.pent, m'.eaNext, m'.pent, h, m.eaRing[h], k);
  }

  lemma UnlinkedRings(m: Mem, h: Node, k: nat, m': Mem)
    requires EaRings(m.eaNext, m.pent, m.eaRing, m.own) && Unlinked(m, h, k, m')
    requires m.own.Keys <= m.eaNext.Keys
    ensures EaRings(m'.eaNext, m'.pent, m'.eaRing, m'.own)
  {
    hide EaRing, HasKey, KeyOf, EaRings, Without;
    var r := m.eaRing[h];
    UnlinkedOneRing(m, h, k, m');
    EaRingShape(m.eaNext, m.pent, m.eaRing, m.own, h);
    WithoutMembers(r, k);
    EaRingsMembers(m.eaNext, m.pent, m.eaRing, m.own);
    EaRingsUpdate(m.eaNext, m.pent, m'.eaNext, m'.pent, m.eaRing, m.own, m'.own, h, Without(r, k));
  }

  lemma EaRingsMembers(next: Links, pent: Pents, rings: Rings, own: Links)
    requires EaRings(next, pent, rings, own)
    ensures forall h :: h in rings ==> h.Slot? && h in next
    ensures forall n :: n in own && own[n] != Null ==>
              own[n] in rings && n in rings[own[n]] && IsRecord(n) && n in next && n in pent
    ensures forall h, n :: h in rings && n in rings[h] ==> n in own && own[n] == h
  {
    forall n | n in own && own[n] != Null
      ensures own[n] in rings && n in rings[own[n]] && IsRecord(n) && n in next && n in pent
    {
      EaRingShape(next, pent, rings, own, own[n]);
    }
  }

  lemma UnlinkedEaSide(m: Mem, h: Node, k: nat, m': Mem)
    requires EaSide(m) && Unlinked(m, h, k, m')
    ensures EaSide(m')
    ensures var key := KeyOf(m.eaRing[h][k], m.own, m.pent, m.place);
            && key in Tab(m)
            && Tab(m)[key] == Entry(m.pent[m.eaRing[h][k]].index, LvOf(m.eaRing[h][k], m.lvOwn))
            && Tab(m') == Tab(m) - {key}
  {
    hide EaRings, EaRing, KeyOf, HasKey, Keyed, FreeTables, TabOf, LvOf, Lev2Tables, Without;
    var n := m.eaRing[h][k];
    EaRingShape(m.eaNext, m.pent, m.eaRing, m.own, h);
    KeyedRemove(m.own, m.pent, m.place, m.rec, n, m'.pent);
    TabRemove(m.own, m.pent, m.place, m.rec, m.lvOwn, n, m'.pent);
    UnlinkedRings(m, h, k, m');
    Lev2Slots(m.lev2, m.place, m.eaRing.Keys);
    FreeTablesFrame(m.eaNext, m'.eaNext, m.freeTables, m.freeTabs, m.place);
    assert m'.eaRing.Keys == m.eaRing.Keys;
  }

  lemma Lev2Slots(lev2: map<nat, seq<Node>>, place: map<nat, Place>, slots: set<Node>)
    requires Lev2Tables(lev2, place, slots)
    ensures forall h :: h in slots ==> h.Slot? && h.tab in place && h.ind < 32
  {
  }

  lemma UnlinkedKeeps(m: Mem, limbo: set<Node>, h: Node, k: nat, m': Mem)
    requires Valid(m, limbo) && Unlinked(m, h, k, m')
    ensures Valid(m', limbo + {m.eaRing[h][k]})
  {
    hide EaSide, LvSide, Flags, Unlinked;
    UnlinkedEaSide(m, h, k, m');
    UnlinkedLvSide(m, limbo, h, k, m');
    UnlinkedFlags(m, limbo, h, k, m');
  }

  lemma UnlinkedLvSide(m: Mem, limbo: set<Node>, h: Node, k: nat, m': Mem)
    requires Valid(m, limbo) && Unlinked(m, h, k, m')
    ensures LvSide(m', limbo + {m.eaRing[h][k]})
  {
    hide EaSide, Flags, LvRings, FreeList, Roles, HasKey, KeyOf, Tab, Without, EaRing, NoDup, IsRecord;
    EaSideShape(m, h);
    RolesToLimbo(m.own, m.lvOwn, m.lvRing, m.free, limbo, m.eaRing[h][k]);
  }

  lemma UnlinkedFlags(m: Mem, limbo: set<Node>, h: Node, k: nat, m': Mem)
    requires Valid(m, limbo) && Unlinked(m, h, k, m')
    ensures Flags(m'.own, m'.pent, limbo + {m.eaRing[h][k]})
  {
    hide EaSide, LvSide, HasKey, KeyOf, Tab, Without, EaRing, NoDup, IsRecord;
    EaSideShape(m, h);
  }

  lemma EaSideShape(m: Mem, h: Node)
    requires EaSide(m) && h in m.eaRing
    ensures EaRing(m.eaNext, m.pent, h, m.eaRing[h]) && NoDup(m.eaRing[h]) && h.Slot? && h in m.eaNext
    ensures forall x :: x in m.eaRing[h] ==> x in m.eaNext && x in m.pent && IsRecord(x) && x in m.own && m.own[x] == h
  {
    hide EaRings, EaRing;
    EaRingShape(m.eaNext, m.pent, m.eaRing, m.own, h);
  }

  // ------------------------------------------------ records that are on no ea ring

  /** Words and lv links of records off the rings do not show in the map. */
  lemma TabOffRing(own: Links, pent: Pents, place: map<nat, Place>, rec: map<Key, Node>, lvOwn: Links,
                   pent': Pents, lvOwn': Links)
    requires Keyed(own, pent, place, rec)
    requires forall x :: x in own && own[x] != Null && x in pent ==> x in pent' && pent'[x].index == pent[x].index
    requires forall x :: x in own && own[x] != Null ==> LvOf(x, lvOwn') == LvOf(x, lvOwn)
    ensures TabOf(rec, pent', lvOwn') == TabOf(rec, pent, lvOwn)
  {
    hide LvOf, Keyed;
    KeyedMembers(own, pent, place, rec);
    assert TabOf(rec, pent', lvOwn') == TabOf(rec, pent, lvOwn);
  }

  lemma KeyedMembers(own: Links, pent: Pents, place: map<nat, Place>, rec: map<Key, Node>)
    requires Keyed(own, pent, place, rec)
    ensures forall k :: k in rec ==> rec[k] in own && own[rec[k]] != Null && rec[k] in pent
    ensures forall n :: n in own && own[n] != Null ==> n in pent
  {
  }

  lemma KeyedOffRing(own: Links, pent: Pents, place: map<nat, Place>, rec: map<Key, Node>, pent': Pents)
    requires Keyed(own, pent, place, rec)
    requires forall x :: x in own && own[x] != Null && x in pent ==> x in pent' && pent'[x] == pent[x]
    ensures Keyed(own, pent', place, rec)
  {
    forall x | x in own && own[x] != Null
      ensures HasKey(x, own, pent', place)
      ensures KeyOf(x, own, pent', place) == KeyOf(x, own, pent, place)
    {
    }
  }

  /** The word of a record that is on no ring is rewritten. */
  lemma PentOffRing(m: Mem, n: Node, p: Pent, m': Mem)
    requires EaSide(m) && n in m.own && m.own[n] == Null
    requires m' == m.(pent := m.pent[n := p])
    ensures EaSide(m') && Tab(m') == Tab(m)
  {
    hide EaRings, Keyed, Lev2Tables, FreeTables, TabOf, LvOf;
    KeyedOffRing(m.own, m.pent, m.place, m.rec, m'.pent);
    TabOffRing(m.own, m.pent, m.place, m.rec, m.lvOwn, m'.pent, m.lvOwn);
    EaRingsMembers(m.eaNext, m.pent, m.eaRing, m.own);
    EaRingsFrame(m.eaNext, m.pent, m.eaNext, m'.pent, m.eaRing, m.own, m.own);
  }

  lemma RolesHeads(own: Links, lvOwn: Links, lvRing: Rings, free: seq<Node>, limbo: set<Node>, n: Node)
    requires Roles(own, lvOwn, lvRing, free, limbo) && n.Head? && n in own && own[n] == Null
    ensures Roles(own, lvOwn, lvRing, free, limbo + {n}) && Roles(own, lvOwn, lvRing, free, limbo - {n})
  {
  }

  lemma FlagsSet(own: Links, pent: Pents, limbo: set<Node>, n: Node, p: Pent)
    requires Flags(own, pent, limbo) && n in own && own[n] == Null && (p.lvHead <==> n.Head?)
    ensures Flags(own, pent[n := p], limbo + {n})
    ensures n.Head? && p.unused ==> Flags(own, pent[n := p], limbo - {n})
    ensures n.Rec? ==> Flags(own, pent[n := p], limbo - {n})
  {
  }

  lemma LimboMembers(m: Mem, limbo: set<Node>)
    requires Valid(m, limbo)
    ensures forall n :: n in limbo ==> n in m.own && m.own[n] == Null && IsRecord(n) && n !in m.free
  {
  }

  /** A record in limbo gets a new word; an lv head becomes idle that way. */
  lemma PentSet(m: Mem, limbo: set<Node>, n: Node, p: Pent, m': Mem)
    requires Valid(m, limbo) && n in limbo
    requires p.lvHead <==> n.Head?
    requires m' == m.(pent := m.pent[n := p])
    ensures Valid(m', limbo) && Tab(m') == Tab(m)
    ensures n.Head? && p.unused ==> Valid(m', limbo - {n})
  {
    hide EaSide, LvRings, FreeList, Unlisted, Tab, Roles, Flags;
    LimboMembers(m, limbo);
    PentOffRing(m, n, p, m');
    FlagsSet(m.own, m.pent, limbo, n, p);
    assert limbo + {n} == limbo;
    if n.Head? {
      RolesHeads(m.own, m.lvOwn, m.lvRing, m.free, limbo, n);
    }
  }

  /** An idle lv head is taken into use. */
  lemma HeadTaken(m: Mem, limbo: set<Node>, n: Node, p: Pent, m': Mem)
    requires Valid(m, limbo) && n in m.own && m.own[n] == Null && n.Head? && p.lvHead
    requires m' == m.(pent := m.pent[n := p])
    ensures Valid(m', limbo + {n}) && Tab(m') == Tab(m)
  {
    hide EaSide, LvRings, FreeList, Unlisted, Tab, Roles, Flags;
    PentOffRing(m, n, p, m');
    FlagsSet(m.own, m.pent, limbo, n, p);
    RolesHeads(m.own, m.lvOwn, m.lvRing, m.free, limbo, n);
  }

  // ------------------------------------------------------------- lv ring edits

  lemma LvRingShape(next: Links, rings: Rings, own: Links, h: Node)
    requires LvRings(next, rings, own) && h in rings
    ensures LvRing(next, h, rings[h]) && NoDup(rings[h]) && h.Head? && h in next
    ensures forall x :: x in rings[h] ==> x in next && x.Rec? && x in own && own[x] == h
  {
  }

  lemma LvRingsMembers(next: Links, rings: Rings, own: Links)
    requires LvRings(next, rings, own)
    ensures forall h :: h in rings ==> h.Head? && h in next
    ensures forall n :: n in own && own[n] != Null ==> own[n] in rings && n in rings[own[n]] && n.Rec? && n in next
    ensures forall h, n :: h in rings && n in rings[h] ==> n in own && own[n] == h
  {
    forall n | n in own && own[n] != Null
      ensures own[n] in rings && n in rings[own[n]] && n.Rec? && n in next
    {
      LvRingShape(next, rings, own, own[n]);
    }
  }

  lemma LvRingsRemove(next: Links, rings: Rings, own: Links, h: Node, k: nat)
    requires LvRings(next, rings, own) && h in rings && k < |rings[h]|
    ensures var n := rings[h][k]; var prev := Before(h, rings[h], k);
            && n in next && prev in next && n != prev
            && LvRings(next[prev := next[n]], rings[h := Without(rings[h], k)], own[n := Null])
  {
    hide LvRings, LvRing, Without;
    var r := rings[h];
    var prev := Before(h, r, k);
    LvRingShape(next, rings, own, h);
    LvRingsMembers(next, rings, own);
    var next' := next[prev := next[r[k]]];
    LvRingRemove(next, next', h, r, k);
    WithoutMembers(r, k);
    LvRingsUpdate(next, next', rings, own, own[r[k] := Null], h, Without(r, k));
  }

  lemma LvRingsPush(next: Links, rings: Rings, own: Links, h: Node, n: Node)
    requires LvRings(next, rings, own) && h in rings
    requires n.Rec? && n in own && own[n] == Null
    ensures h in next && LvRings(next[n := next[h]][h := n], rings[h := [n] + rings[h]], own[n := h])
  {
    hide LvRings, LvRing;
    LvRingShape(next, rings, own, h);
    LvRingsMembers(next, rings, own);
    var next' := next[n := next[h]][h := n];
    LvRingPush(next, next', h, rings[h], n);
    LvRingsUpdate(next, next', rings, own, own[n := h], h, [n] + rings[h]);
  }

  lemma LvRingsElsewhere(next: Links, rings: Rings, own: Links, next': Links)
    requires LvRings(next, rings, own)
    requires forall x :: x in next && !(x in own && own[x] == Null && x.Rec?) ==> x in next' && next'[x] == next[x]
    ensures LvRings(next', rings, own)
  {
    hide LvRings, LvRing;
    LvRingsMembers(next, rings, own);
    LvRingsFrame(next, next', rings, own, own);
  }

  /** Which records may change lv ring without the map noticing. */
  lemma EaSideLv(m: Mem, m': Mem)
    requires EaSide(m)
    requires m' == m.(lvNext := m'.lvNext, freePents := m'.freePents, free := m'.free,
                      lvRing := m'.lvRing, lvOwn := m'.lvOwn)
    requires forall x :: x in m.own && m.own[x] != Null ==> LvOf(x, m'.lvOwn) == LvOf(x, m.lvOwn)
    ensures EaSide(m') && Tab(m') == Tab(m)
  {
    hide EaRings, Keyed, Lev2Tables, FreeTables, TabOf, LvOf;
    TabOffRing(m.own, m.pent, m.place, m.rec, m.lvOwn, m.pent, m'.lvOwn);
  }

  lemma RolesLv(own: Links, lvOwn: Links, lvRing: Rings, free: seq<Node>, limbo: set<Node>, n: Node, h: Node,
                r: seq<Node>)
    requires Roles(own, lvOwn, lvRing, free, limbo)
    requires n in own && n.Rec? && n !in free && h in lvRing
    ensures Roles(own, lvOwn[n := h], lvRing[h := r], free, limbo)
    ensures Roles(own, lvOwn[n := Null], lvRing[h := r], free, limbo)
  {
  }

  /** A record in limbo leaves its lv ring. */
  lemma LvDropped(m: Mem, limbo: set<Node>, h: Node, k: nat, m': Mem)
    requires Valid(m, limbo) && h in m.lvRing && k < |m.lvRing[h]| && m.lvRing[h][k] in limbo
    requires var n := m.lvRing[h][k]; var prev := Before(h, m.lvRing[h], k);
             && n in m.lvNext && prev in m.lvNext
             && m' == m.(lvNext := m.lvNext[prev := m.lvNext[n]], lvRing := m.lvRing[h := Without(m.lvRing[h], k)],
                         lvOwn := m.lvOwn[n := Null])
    ensures Valid(m', limbo) && Tab(m') == Tab(m)
  {
    hide EaSide, Tab, LvRings, LvRing, FreeList, Without, Roles, Flags;
    var n := m.lvRing[h][k];
    LimboMembers(m, limbo);
    FreeMembers(m, limbo);
    LvRingShape(m.lvNext, m.lvRing, m.lvOwn, h);
    LvRingsRemove(m.lvNext, m.lvRing, m.lvOwn, h, k);
    FreeListFrame(m.lvNext, m'.lvNext, m.freePents, m.free);
    RolesLv(m.own, m.lvOwn, m.lvRing, m.free, limbo, n, h, Without(m.lvRing[h], k));
    EaSideLv(m, m');
  }

  lemma FreeMembers(m: Mem, limbo: set<Node>)
    requires Valid(m, limbo)
    ensures forall n :: n in m.free ==>
              && n in m.own && m.own[n] == Null && n.Rec? && n in m.lvOwn && m.lvOwn[n] == Null
              && n in m.lvNext && n !in limbo
    ensures m.own.Keys == m.lvOwn.Keys && m.own.Keys == m.lvNext.Keys && m.own.Keys == m.pent.Keys
    ensures forall h :: h in m.lvRing ==> h in m.own && h in m.lvOwn && h.Head? && h !in m.free
    ensures forall n :: n in m.own && n.Rec? && m.own[n] == Null ==> n in m.free || n in limbo
  {
  }

  // ------------------------------------------------------------- the free list

  lemma RolesFreed(own: Links, lvOwn: Links, lvRing: Rings, free: seq<Node>, limbo: set<Node>, r: seq<Node>,
                   lvOwn': Links, lvRing': Rings)
    requires Roles(own, lvOwn, lvRing, free, limbo)
    requires forall x :: x in r ==> x in limbo && x.Rec?
    requires lvOwn'.Keys == lvOwn.Keys && lvRing'.Keys == lvRing.Keys
    requires forall x :: x in lvOwn ==> lvOwn'[x] == if x in r then Null else lvOwn[x]
    ensures Roles(own, lvOwn', lvRing', r + free, limbo - (set x | x in r))
  {
  }

  /** A record in limbo, on no lv ring, goes on the free list. */
  lemma Freed(m: Mem, limbo: set<Node>, n: Node, m': Mem)
    requires Valid(m, limbo) && n in limbo && n.Rec? && n in m.lvOwn && m.lvOwn[n] == Null
    requires m' == m.(lvNext := m.lvNext[n := m.freePents], freePents := n, free := [n] + m.free)
    ensures Valid(m', limbo - {n}) && Tab(m') == Tab(m)
  {
    hide EaSide, Tab, LvRings, LvRing, FreeList, Roles, Flags, Path, NoDup;
    LimboMembers(m, limbo);
    FreeMembers(m, limbo);
    LvRingsElsewhere(m.lvNext, m.lvRing, m.lvOwn, m'.lvNext);
    FreeListPush(m.lvNext, m.freePents, m.free, n);
    RolesFreed(m.own, m.lvOwn, m.lvRing, m.free, limbo, [n], m.lvOwn, m.lvRing);
    assert (set x | x in [n]) == {n};
    EaSideLv(m, m');
    FlagsFreed(m.own, m.pent, limbo, {n});
  }

  lemma FlagsFreed(own: Links, pent: Pents, limbo: set<Node>, gone: set<Node>)
    requires Flags(own, pent, limbo) && forall x :: x in gone ==> x.Rec?
    ensures Flags(own, pent, limbo - gone) && Flags(own, pent, limbo + gone)
  {
  }

  lemma FreeListPush(next: Links, start: Node, free: seq<Node>, n: Node)
    requires FreeList(next, start, free) && n.Rec? && n !in free && n in next
    ensures FreeList(next[n := start], n, [n] + free)
  {
    var end := next[n];
    assert Path(next, [n], end);
    FreeListPrepend(next, next[n := start], start, free, [n], end);
  }

  /** All members of an lv ring, in limbo, go on the free list at once. */
  lemma Spliced(m: Mem, limbo: set<Node>, h: Node, m': Mem)
    requires Valid(m, limbo) && h in m.lvRing && m.lvRing[h] != []
    requires forall x :: x in m.lvRing[h] ==> x in limbo
    requires var r := m.lvRing[h];
             m' == m.(lvNext := m.lvNext[r[|r| - 1] := m.freePents][h := h], freePents := r[0],
                      lvRing := m.lvRing[h := []], lvOwn := m'.lvOwn, free := r + m.free)
    requires m'.lvOwn.Keys == m.lvOwn.Keys
    requires forall x :: x in m.lvOwn ==> m'.lvOwn[x] == if x in m.lvRing[h] then Null else m.lvOwn[x]
    ensures Valid(m', limbo - (set x | x in m.lvRing[h])) && Tab(m') == Tab(m)
  {
    hide EaSide, Tab, LvRings, LvRing, FreeList, Roles, Flags, Unlisted;
    var r := m.lvRing[h];
    LimboMembers(m, limbo);
    FreeMembers(m, limbo);
    LvRingShape(m.lvNext, m.lvRing, m.lvOwn, h);
    SplicedLinks(m.lvNext, m.lvRing, m.lvOwn, m.freePents, m.free, h, m'.lvNext, m'.lvOwn);
    RolesFreed(m.own, m.lvOwn, m.lvRing, m.free, limbo, r, m'.lvOwn, m'.lvRing);
    UnlistedFrame(m.own, m.lvOwn, m.lvNext, m'.lvOwn, m'.lvNext);
    EaSideLv(m, m');
    FlagsFreed(m.own, m.pent, limbo, set x | x in r);
  }

  lemma UnlistedFrame(own: Links, lvOwn: Links, lvNext: Links, lvOwn': Links, lvNext': Links)
    requires Unlisted(own, lvOwn, lvNext) && lvOwn'.Keys == lvOwn.Keys && lvNext'.Keys == lvNext.Keys
    requires forall x :: x in own && own[x] != Null && x.Rec? && x in lvOwn ==>
               lvOwn'[x] == lvOwn[x] && (lvOwn[x] == Null && x in lvNext ==> lvNext'[x] == lvNext[x])
    ensures Unlisted(own, lvOwn', lvNext')
  {
  }

  lemma SplicedLinks(next: Links, rings: Rings, own: Links, start: Node, free: seq<Node>, h: Node, next': Links,
                     own': Links)
    requires LvRings(next, rings, own) && FreeList(next, start, free) && h in rings && rings[h] != []
    requires forall x :: x in free ==> x in own && own[x] == Null && x.Rec? && x in next
    requires var r := rings[h]; next' == next[r[|r| - 1] := start][h := h]
    requires own'.Keys == own.Keys
    requires forall x :: x in own ==> own'[x] == if x in rings[h] then Null else own[x]
    ensures LvRings(next', rings[h := []], own') && FreeList(next', rings[h][0], rings[h] + free)
  {
    hide LvRings, LvRing, FreeList, Path, NoDup;
    var r := rings[h];
    LvRingShape(next, rings, own, h);
    LvRingPath(next, h, r);
    LvRingsMembers(next, rings, own);
    FreeListPrepend(next, next', start, free, r, h);
    LvRingAlone(next', h);
    LvRingsUpdate(next, next', rings, own, own', h, []);
  }

  lemma LvRingAlone(next: Links, h: Node)
    requires h in next && next[h] == h
    ensures LvRing(next, h, [])
  {
  }

  lemma LvRingPath(next: Links, h: Node, r: seq<Node>)
    requires LvRing(next, h, r)
    ensures Path(next, r, h) && NoDup(r)
    ensures forall i, j :: 0 <= i < j < |r| ==> r[i] != r[j]
  {
  }

  /** The first record of the free list is taken. */
  lemma Popped(m: Mem, limbo: set<Node>, m': Mem)
    requires Valid(m, limbo) && m.free != [] && m.freePents in m.lvNext
    requires m' == m.(freePents := m.lvNext[m.freePents], free := m.free[1..])
    ensures m.freePents == m.free[0] && Valid(m', limbo + {m.free[0]}) && Tab(m') == Tab(m)
  {
    hide EaSide, Tab, LvRings, Roles, Flags, Path;
    FreeMembers(m, limbo);
    FreeListPop(m.lvNext, m.lvNext, m.freePents, m.free);
    RolesPopped(m.own, m.lvOwn, m.lvRing, m.free, limbo);
    EaSideLv(m, m');
    FlagsFreed(m.own, m.pent, limbo, {m.free[0]});
  }

  lemma RolesPopped(own: Links, lvOwn: Links, lvRing: Rings, free: seq<Node>, limbo: set<Node>)
    requires Roles(own, lvOwn, lvRing, free, limbo) && free != [] && NoDup(free)
    ensures Roles(own, lvOwn, lvRing, free[1..], limbo + {free[0]})
  {
    forall x
      ensures x in free <==> x == free[0] || x in free[1..]
    {
      if x in free {
        var i :| 0 <= i < |free| && free[i] == x;
        assert i > 0 ==> free[1..][i - 1] == x;
      }
    }
    assert free[0] !in free[1..];
  }

  /** A record in limbo, on no lv ring, gets a NULL lv link. */
  lemma LvCleared(m: Mem, limbo: set<Node>, n: Node, m': Mem)
    requires Valid(m, limbo) && n in limbo && n.Rec? && n in m.lvOwn && m.lvOwn[n] == Null
    requires m' == m.(lvNext := m.lvNext[n := Null])
    ensures Valid(m', limbo) && Tab(m') == Tab(m)
  {
    hide EaSide, Tab, LvRings, FreeList, Roles, Flags;
    LimboMembers(m, limbo);
    FreeMembers(m, limbo);
    LvRingsElsewhere(m.lvNext, m.lvRing, m.lvOwn, m'.lvNext);
    FreeListFrame(m.lvNext, m'.lvNext, m.freePents, m.free);
    EaSideLv(m, m');
  }

  /** A record in limbo joins an lv ring, right after its head. */
  lemma LvAdded(m: Mem, limbo: set<Node>, h: Node, n: Node, m': Mem)
    requires Valid(m, limbo) && h in m.lvRing && h in m.lvNext && n in limbo && n.Rec? && n in m.lvOwn &&
             m.lvOwn[n] == Null
    requires m' == m.(lvNext := m.lvNext[n := m.lvNext[h]][h := n], lvRing := m.lvRing[h := [n] + m.lvRing[h]],
                      lvOwn := m.lvOwn[n := h])
    ensures Valid(m', limbo) && Tab(m') == Tab(m)
  {
    hide EaSide, Tab, LvRings, FreeList, Roles, Flags;
    LimboMembers(m, limbo);
    FreeMembers(m, limbo);
    LvRingsPush(m.lvNext, m.lvRing, m.lvOwn, h, n);
    FreeListFrame(m.lvNext, m'.lvNext, m.freePents, m.free);
    RolesLv(m.own, m.lvOwn, m.lvRing, m.free, limbo, n, h, [n] + m.lvRing[h]);
    EaSideLv(m, m');
  }

  // -------------------------------------------------- onto an ea ring (out of limbo)

  /** A word that puts a record on ring h: what pte_inserted packs. */
  ghost predicate FitsRing(m: Mem, n: Node, h: Node, p: Pent) {
    && h in m.eaRing && h.Slot? && h.tab in m.place && h.ind < 32 && m.place[h.tab].l2 < 64
    && p.topea < 32 && (p.bit14 <==> m.place[h.tab].l2 % 2 == 1)
    && (p.lvHead <==> n.Head?) && !p.unused
  }

  ghost function RingKey(m: Mem, h: Node, p: Pent): Key
    requires h.Slot? && h.tab in m.place
  {
    Key(m.place[h.tab].ent, PageOf(p.topea, m.place[h.tab].l2, h.ind), p.sv)
  }

  /** Record n, from limbo, becomes the first of ring h. */
  ghost predicate Linked(m: Mem, n: Node, h: Node, p: Pent, m': Mem) {
    && FitsRing(m, n, h, p) && RingKey(m, h, p) !in m.rec
    && (p.eaLast <==> m.eaRing[h] == [])
    && m' == m.(eaNext := m.eaNext[n := if m.eaRing[h] == [] then h else m.eaRing[h][0]][h := n],
                pent := m.pent[n := p], eaRing := m.eaRing[h := [n] + m.eaRing[h]],
                own := m.own[n := h], rec := m.rec[RingKey(m, h, p) := n])
  }

  lemma KeyedAdd(own: Links, pent: Pents, place: map<nat, Place>, rec: map<Key, Node>, n: Node, h: Node, p: Pent)
    requires Keyed(own, pent, place, rec) && n in own && own[n] == Null
    requires h.Slot? && h.tab in place && h.ind < 32 && place[h.tab].l2 < 64
    requires p.topea < 32 && (p.bit14 <==> place[h.tab].l2 % 2 == 1)
    requires Key(place[h.tab].ent, PageOf(p.topea, place[h.tab].l2, h.ind), p.sv) !in rec
    ensures Keyed(own[n := h], pent[n := p], place,
                  rec[Key(place[h.tab].ent, PageOf(p.topea, place[h.tab].l2, h.ind), p.sv) := n])
  {
    hide PageOf;
    forall x | x in own && x != n && own[x] != Null
      ensures HasKey(x, own[n := h], pent[n := p], place)
      ensures KeyOf(x, own[n := h], pent[n := p], place) == KeyOf(x, own, pent, place)
    {
    }
  }

  lemma TabAdd(own: Links, pent: Pents, place: map<nat, Place>, rec: map<Key, Node>, lvOwn: Links, k: Key, n: Node,
               p: Pent)
    requires Keyed(own, pent, place, rec) && n in own && own[n] == Null
    ensures TabOf(rec[k := n], pent[n := p], lvOwn) == TabOf(rec, pent, lvOwn)[k := Entry(p.index, LvOf(n, lvOwn))]
  {
    hide Keyed, LvOf, TabOf;
    KeyedMembers(own, pent, place, rec);
    var rec2, pent2 := rec[k := n], pent[n := p];
    TabHas(rec, pent, lvOwn);
    TabHas(rec2, pent2, lvOwn);
    assert TabOf(rec2, pent2, lvOwn) == TabOf(rec, pent, lvOwn)[k := Entry(p.index, LvOf(n, lvOwn))];
  }

  lemma TabHas(rec: map<Key, Node>, pent: Pents, lvOwn: Links)
    ensures forall k :: k in TabOf(rec, pent, lvOwn) <==> k in rec && rec[k] in pent
    ensures forall k :: k in rec && rec[k] in pent ==>
              TabOf(rec, pent, lvOwn)[k] == Entry(pent[rec[k]].index, LvOf(rec[k], lvOwn))
  {
    hide LvOf;
  }

  lemma EaRingsPush(next: Links, pent: Pents, rings: Rings, own: Links, h: Node, n: Node, p: Pent)
    requires EaRings(next, pent, rings, own) && h in rings && IsRecord(n) && n in own && own[n] == Null
    requires p.eaLast <==> rings[h] == []
    ensures EaRings(next[n := if rings[h] == [] then h else rings[h][0]][h := n], pent[n := p],
                    rings[h := [n] + rings[h]], own[n := h])
  {
    hide EaRings, EaRing;
    var r := rings[h];
    EaRingShape(next, pent, rings, own, h);
    EaRingsMembers(next, pent, rings, own);
    var next' := next[n := if r == [] then h else r[0]][h := n];
    EaRingPush(next, pent, next', pent[n := p], h, r, n);
    EaRingsUpdate(next, pent, next', pent[n := p], rings, own, own[n := h], h, [n] + r);
  }

  lemma LinkedEaSide(m: Mem, n: Node, h: Node, p: Pent, m': Mem)
    requires EaSide(m) && IsRecord(n) && n in m.own && m.own[n] == Null && Linked(m, n, h, p, m')
    ensures EaSide(m')
    ensures Tab(m') == Tab(m)[RingKey(m, h, p) := Entry(p.index, LvOf(n, m.lvOwn))]
  {
    hide EaRings, Keyed, FreeTables, Lev2Tables, TabOf, LvOf, PageOf;
    EaRingsPush(m.eaNext, m.pent, m.eaRing, m.own, h, n, p);
    KeyedAdd(m.own, m.pent, m.place, m.rec, n, h, p);
    TabAdd(m.own, m.pent, m.place, m.rec, m.lvOwn, RingKey(m, h, p), n, p);
    FreeTablesFrame(m.eaNext, m'.eaNext, m.freeTables, m.freeTabs, m.place);
    assert m'.eaRing.Keys == m.eaRing.Keys;
  }

  lemma RolesLinked(own: Links, lvOwn: Links, lvRing: Rings, free: seq<Node>, limbo: set<Node>, n: Node, h: Node)
    requires Roles(own, lvOwn, lvRing, free, limbo) && n in limbo && h != Null
    ensures Roles(own[n := h], lvOwn, lvRing, free, limbo - {n})
  {
  }

  lemma FlagsLinked(own: Links, pent: Pents, limbo: set<Node>, n: Node, h: Node, p: Pent)
    requires Flags(own, pent, limbo) && n in own && (p.lvHead <==> n.Head?) && !p.unused && h != Null
    ensures Flags(own[n := h], pent[n := p], limbo - {n})
  {
  }

  lemma LinkedKeeps(m: Mem, limbo: set<Node>, n: Node, h: Node, p: Pent, m': Mem)
    requires Valid(m, limbo) && n in limbo && Linked(m, n, h, p, m')
    requires n.Rec? && n in m.lvOwn && m.lvOwn[n] == Null ==> n in m.lvNext && m.lvNext[n] == Null
    ensures Valid(m', limbo - {n})
    ensures Tab(m') == Tab(m)[RingKey(m, h, p) := Entry(p.index, LvOf(n, m.lvOwn))]
  {
    hide EaSide, LvRings, FreeList, Roles, Flags, Tab, LvOf, RingKey;
    LimboMembers(m, limbo);
    FreeMembers(m, limbo);
    LinkedEaSide(m, n, h, p, m');
    RolesLinked(m.own, m.lvOwn, m.lvRing, m.free, limbo, n, h);
    FlagsLinked(m.own, m.pent, limbo, n, h, p);
  }

  // ------------------------------------------------- records that stay on their ring

  /** A record is pointed at another hash slot. */
  lemma IndexSet(m: Mem, limbo: set<Node>, n: Node, index: nat, m': Mem)
    requires Valid(m, limbo) && n in m.own && m.own[n] != Null && n in m.pent
    requires m' == m.(pent := m.pent[n := m.pent[n].(index := index)])
    ensures Valid(m', limbo)
    ensures HasKey(n, m.own, m.pent, m.place)
    ensures var key := KeyOf(n, m.own, m.pent, m.place);
            key in Tab(m) && Tab(m') == Tab(m)[key := Entry(index, Tab(m)[key].lv)]
  {
    hide LvSide, EaRings, Lev2Tables, FreeTables, Keyed, HasKey, KeyOf, TabOf;
    IndexKeyed(m.own, m.pent, m.place, m.rec, m.lvOwn, n, index);
    IndexEaRings(m.eaNext, m.pent, m.eaRing, m.own, n, index);
    assert LvSide(m', limbo) by { SameLvSide(m, m', limbo); }
  }

  lemma IndexEaRings(next: Links, pent: Pents, rings: Rings, own: Links, n: Node, index: nat)
    requires EaRings(next, pent, rings, own) && n in pent
    ensures EaRings(next, pent[n := pent[n].(index := index)], rings, own)
  {
    hide EaRings;
    EaRingsMembers(next, pent, rings, own);
    EaRingsFrame(next, pent, next, pent[n := pent[n].(index := index)], rings, own, own);
  }

  lemma SameLvSide(m: Mem, m': Mem, limbo: set<Node>)
    requires LvSide(m, limbo) && m' == m.(pent := m'.pent)
    ensures LvSide(m', limbo)
  {
    hide LvRings, FreeList, Roles, Unlisted;
  }

  lemma IndexKeyed(own: Links, pent: Pents, place: map<nat, Place>, rec: map<Key, Node>, lvOwn: Links, n: Node,
                   index: nat)
    requires Keyed(own, pent, place, rec) && n in own && own[n] != Null && n in pent
    ensures Keyed(own, pent[n := pent[n].(index := index)], place, rec)
    ensures HasKey(n, own, pent, place)
    ensures var key := KeyOf(n, own, pent, place); var tab := TabOf(rec, pent, lvOwn);
            && key in tab
            && TabOf(rec, pent[n := pent[n].(index := index)], lvOwn) == tab[key := Entry(index, tab[key].lv)]
  {
    var pent' := pent[n := pent[n].(index := index)];
    forall x | x in own && own[x] != Null
      ensures HasKey(x, own, pent', place)
      ensures KeyOf(x, own, pent', place) == KeyOf(x, own, pent, place)
    {
    }
    hide LvOf, PageOf;
    var key := KeyOf(n, own, pent, place);
    var tab := TabOf(rec, pent, lvOwn);
    assert TabOf(rec, pent', lvOwn) == tab[key := Entry(index, tab[key].lv)];
  }

  /** The lv ring of one record on an ea ring changes. */
  lemma TabLv(own: Links, pent: Pents, place: map<nat, Place>, rec: map<Key, Node>, lvOwn: Links, n: Node, h: Node)
    requires Keyed(own, pent, place, rec) && n in own && own[n] != Null && n.Rec? && h.Head?
    ensures HasKey(n, own, pent, place)
    ensures var key := KeyOf(n, own, pent, place); var tab := TabOf(rec, pent, lvOwn);
            && key in tab && tab[key].slot == pent[n].index && tab[key].lv == LvOf(n, lvOwn)
            && TabOf(rec, pent, lvOwn[n := h]) == tab[key := Entry(tab[key].slot, Some(LvId(h.rng, h.idx)))]
  {
    hide PageOf;
    var key := KeyOf(n, own, pent, place);
    var tab := TabOf(rec, pent, lvOwn);
    assert TabOf(rec, pent, lvOwn[n := h]) == tab[key := Entry(tab[key].slot, Some(LvId(h.rng, h.idx)))];
  }

  /** A record on an ea ring joins lv ring h; it was on none. */
  lemma LvJoined(m: Mem, limbo: set<Node>, h: Node, n: Node, m': Mem)
    requires Valid(m, limbo) && h in m.lvRing && h in m.lvNext
    requires n in m.own && m.own[n] != Null && n.Rec? && n in m.lvOwn && m.lvOwn[n] == Null
    requires m' == m.(lvNext := m.lvNext[n := m.lvNext[h]][h := n], lvRing := m.lvRing[h := [n] + m.lvRing[h]],
                      lvOwn := m.lvOwn[n := h])
    ensures Valid(m', limbo)
    ensures h.Head? && HasKey(n, m.own, m.pent, m.place)
    ensures var key := KeyOf(n, m.own, m.pent, m.place);
            key in Tab(m) && Tab(m') == Tab(m)[key := Entry(Tab(m)[key].slot, Some(LvId(h.rng, h.idx)))]
  {
    hide LvRings, FreeList, Roles, Flags, EaRings, Keyed, Lev2Tables, FreeTables, HasKey, KeyOf, TabOf;
    FreeMembers(m, limbo);
    LvRingsPush(m.lvNext, m.lvRing, m.lvOwn, h, n);
    FreeListFrame(m.lvNext, m'.lvNext, m.freePents, m.free);
    RolesLv(m.own, m.lvOwn, m.lvRing, m.free, limbo, n, h, [n] + m.lvRing[h]);
    TabLv(m.own, m.pent, m.place, m.rec, m.lvOwn, n, h);
  }

  /** A record on an ea ring goes from lv ring g to lv ring h. */
  ghost predicate MovedLv(m: Mem, g: Node, k: nat, h: Node, m': Mem) {
    && g in m.lvRing && k < |m.lvRing[g]| && h in m.lvRing && g != h
    && var n := m.lvRing[g][k]; var prev := Before(g, m.lvRing[g], k);
    && n in m.own && m.own[n] != Null
    && n in m.lvNext && prev in m.lvNext && h in m.lvNext
    && m' == m.(lvNext := m.lvNext[prev := m.lvNext[n]][n := m.lvNext[h]][h := n],
                lvRing := m.lvRing[g := Without(m.lvRing[g], k)][h := [n] + m.lvRing[h]],
                lvOwn := m.lvOwn[n := h])
  }

  lemma LvMovedValid(m: Mem, limbo: set<Node>, g: Node, k: nat, h: Node, m': Mem)
    requires Valid(m, limbo) && MovedLv(m, g, k, h, m')
    ensures Valid(m', limbo)
  {
    hide EaRings, Keyed, Lev2Tables, FreeTables, LvSide, Flags, Before, Without;
    LvMovedLvSide(m, limbo, g, k, h, m');
  }

  lemma LvMovedLvSide(m: Mem, limbo: set<Node>, g: Node, k: nat, h: Node, m': Mem)
    requires Valid(m, limbo) && MovedLv(m, g, k, h, m')
    ensures LvSide(m', limbo)
  {
    hide LvRings, LvRing, NoDup, FreeList, Roles, Flags, EaSide, Without, IsRecord, Unlisted;
    var n := m.lvRing[g][k];
    FreeMembers(m, limbo);
    LvRingShape(m.lvNext, m.lvRing, m.lvOwn, g);
    LvRingsMove(m.lvNext, m.lvRing, m.lvOwn, g, k, h);
    FreeListFrame(m.lvNext, m'.lvNext, m.freePents, m.free);
    RolesMove(m.own, m.lvOwn, m.lvRing, m.free, limbo, n, h, m'.lvRing);
    var prev := Before(g, m.lvRing[g], k);
    UnlistedMove(m.own, m.lvOwn, m.lvNext, n, prev, h);
  }

  lemma UnlistedMove(own: Links, lvOwn: Links, lvNext: Links, n: Node, prev: Node, h: Node)
    requires Unlisted(own, lvOwn, lvNext) && n in lvNext && prev in lvNext && h in lvNext && h != Null
    requires h.Head? && (prev.Rec? ==> prev in lvOwn && lvOwn[prev] != Null)
    ensures Unlisted(own, lvOwn[n := h], lvNext[prev := lvNext[n]][n := lvNext[h]][h := n])
  {
  }

  lemma LvMoved(m: Mem, limbo: set<Node>, g: Node, k: nat, h: Node, m': Mem)
    requires Valid(m, limbo) && MovedLv(m, g, k, h, m')
    ensures Valid(m', limbo)
    ensures var n := m.lvRing[g][k];
            && h.Head? && HasKey(n, m.own, m.pent, m.place)
            && var key := KeyOf(n, m.own, m.pent, m.place);
            key in Tab(m) && Tab(m') == Tab(m)[key := Entry(Tab(m)[key].slot, Some(LvId(h.rng, h.idx)))]
  {
    hide Valid, LvSide, EaSide, Keyed, HasKey, KeyOf, TabOf, Without, LvOf;
    LvMovedValid(m, limbo, g, k, h, m');
    FreeMembers(m, limbo);
    MovedRecord(m, limbo, g, k);
    TabLv(m.own, m.pent, m.place, m.rec, m.lvOwn, m.lvRing[g][k], h);
  }

  lemma MovedRecord(m: Mem, limbo: set<Node>, g: Node, k: nat)
    requires Valid(m, limbo) && g in m.lvRing && k < |m.lvRing[g]|
    ensures m.lvRing[g][k].Rec? && Keyed(m.own, m.pent, m.place, m.rec)
  {
    hide LvRings, LvRing, NoDup, FreeList, Roles, Flags, EaRings, Keyed, Lev2Tables, FreeTables;
    LvRingShape(m.lvNext, m.lvRing, m.lvOwn, g);
  }

  lemma RolesMove(own: Links, lvOwn: Links, lvRing: Rings, free: seq<Node>, limbo: set<Node>, n: Node, h: Node,
                  lvRing': Rings)
    requires Roles(own, lvOwn, lvRing, free, limbo) && lvRing'.Keys == lvRing.Keys
    requires n in own && n.Rec? && n !in free
    ensures Roles(own, lvOwn[n := h], lvRing', free, limbo)
  {
  }

  lemma LvRingsMove(next: Links, rings: Rings, own: Links, g: Node, k: nat, h: Node)
    requires LvRings(next, rings, own) && g in rings && k < |rings[g]| && h in rings && g != h
    ensures var n := rings[g][k]; var prev := Before(g, rings[g], k);
            && n in next && prev in next && h in next && n != prev && h != prev
            && LvRings(next[prev := next[n]][n := next[h]][h := n],
                       rings[g := Without(rings[g], k)][h := [n] + rings[h]], own[n := h])
  {
    hide LvRings, LvRing, Without;
    var n := rings[g][k];
    var prev := Before(g, rings[g], k);
    LvRingShape(next, rings, own, g);
    LvRingShape(next, rings, own, h);
    LvRingsRemove(next, rings, own, g, k);
    LvRingsPush(next[prev := next[n]], rings[g := Without(rings[g], k)], own[n := Null], h, n);
    assert own[n := Null][n := h] == own[n := h];
  }

  // ---------------------------------------------- one record in place of another

  /** Record x, from limbo, takes the place of record k of ring h. */
  ghost predicate Replaced(m: Mem, h: Node, k: nat, x: Node, p: Pent, m': Mem) {
    && h in m.eaRing && k < |m.eaRing[h]|
    && var r := m.eaRing[h]; var n := r[k]; var prev := Before(h, r, k);
    && n in m.pent && n in m.eaNext
    && (p.lvHead <==> x.Head?) && !p.unused
    && p == m.pent[n].(lvHead := p.lvHead, unused := p.unused)
    && HasKey(n, m.own, m.pent, m.place)
    && m' == m.(eaNext := m.eaNext[x := m.eaNext[n]][prev := x], pent := m.pent[x := p],
                eaRing := m.eaRing[h := r[k := x]], own := m.own[n := Null][x := h],
                rec := m.rec[KeyOf(n, m.own, m.pent, m.place) := x])
  }

  lemma EaRingsReplace(next: Links, pent: Pents, rings: Rings, own: Links, h: Node, k: nat, x: Node, p: Pent)
    requires EaRings(next, pent, rings, own) && h in rings && k < |rings[h]|
    requires IsRecord(x) && x in own && own[x] == Null
    requires rings[h][k] in pent && rings[h][k] in next && p.eaLast == pent[rings[h][k]].eaLast
    ensures EaRings(next[x := next[rings[h][k]]][Before(h, rings[h], k) := x], pent[x := p],
                    rings[h := rings[h][k := x]], own[rings[h][k] := Null][x := h])
  {
    hide EaRings, EaRing;
    var r := rings[h];
    var n := r[k];
    EaRingShape(next, pent, rings, own, h);
    EaRingsMembers(next, pent, rings, own);
    var next' := next[x := next[n]][Before(h, r, k) := x];
    EaRingReplace(next, pent, next', pent[x := p], h, r, k, x);
    SeqReplaceMembers(r, k, x);
    EaRingsUpdate(next, pent, next', pent[x := p], rings, own, own[n := Null][x := h], h, r[k := x]);
  }

  lemma SeqReplaceMembers(r: seq<Node>, k: nat, x: Node)
    requires k < |r| && NoDup(r) && x !in r
    ensures forall y :: y in r[k := x] <==> y == x || (y in r && y != r[k])
  {
    var w := r[k := x];
    forall y
      ensures y in w <==> y == x || (y in r && y != r[k])
    {
      assert w[k] == x;
      if y in r && y != r[k] {
        var i :| 0 <= i < |r| && r[i] == y;
        assert w[i] == y;
      }
    }
  }

  lemma KeyedReplace(own: Links, pent: Pents, place: map<nat, Place>, rec: map<Key, Node>, lvOwn: Links, n: Node,
                     x: Node, p: Pent)
    requires Keyed(own, pent, place, rec) && n in own && own[n] != Null && n in pent && x in own && own[x] == Null
    requires p.topea == pent[n].topea && p.sv == pent[n].sv && p.bit14 == pent[n].bit14
    ensures HasKey(n, own, pent, place)
    ensures var key := KeyOf(n, own, pent, place);
            && Keyed(own[n := Null][x := own[n]], pent[x := p], place, rec[key := x])
            && TabOf(rec[key := x], pent[x := p], lvOwn) ==
                 TabOf(rec, pent, lvOwn)[key := Entry(p.index, LvOf(x, lvOwn))]
  {
    hide Keyed, LvOf, TabOf;
    var key := KeyOf(n, own, pent, place) by { KeyedOne(own, pent, place, rec, n); }
    KeyedOne(own, pent, place, rec, n);
    KeyedRemove(own, pent, place, rec, n, pent);
    TabRemove(own, pent, place, rec, lvOwn, n, pent);
    KeyedAdd(own[n := Null], pent, place, rec - {key}, x, own[n], p);
    TabAdd(own[n := Null], pent, place, rec - {key}, lvOwn, key, x, p);
    assert (rec - {key})[key := x] == rec[key := x];
    var t := TabOf(rec, pent, lvOwn);
    var e := Entry(p.index, LvOf(x, lvOwn));
    assert (t - {key})[key := e] == t[key := e];
  }

  lemma KeyedOne(own: Links, pent: Pents, place: map<nat, Place>, rec: map<Key, Node>, n: Node)
    requires Keyed(own, pent, place, rec) && n in own && own[n] != Null
    ensures HasKey(n, own, pent, place)
    ensures own[n].ind < 32 && place[own[n].tab].l2 < 64 && pent[n].topea < 32
    ensures pent[n].bit14 <==> place[own[n].tab].l2 % 2 == 1
    ensures KeyOf(n, own, pent, place) in rec && rec[KeyOf(n, own, pent, place)] == n
  {
  }

  lemma ReplacedEaSide(m: Mem, h: Node, k: nat, x: Node, p: Pent, m': Mem)
    requires EaSide(m) && IsRecord(x) && x in m.own && m.own[x] == Null && Replaced(m, h, k, x, p, m')
    ensures EaSide(m') && m.eaRing[h][k] in m.own && m.own[m.eaRing[h][k]] == h && h.Slot?
    ensures Tab(m') == Tab(m)[KeyOf(m.eaRing[h][k], m.own, m.pent, m.place) := Entry(p.index, LvOf(x, m.lvOwn))]
  {
    hide EaRings, EaRing, NoDup, Keyed, FreeTables, Lev2Tables, TabOf, LvOf, KeyOf;
    EaRingShape(m.eaNext, m.pent, m.eaRing, m.own, h);
    EaRingsReplace(m.eaNext, m.pent, m.eaRing, m.own, h, k, x, p);
    KeyedReplace(m.own, m.pent, m.place, m.rec, m.lvOwn, m.eaRing[h][k], x, p);
    Lev2Slots(m.lev2, m.place, m.eaRing.Keys);
    FreeTablesFrame(m.eaNext, m'.eaNext, m.freeTables, m.freeTabs, m.place);
    assert m'.eaRing.Keys == m.eaRing.Keys;
  }

  lemma ReplacedKeeps(m: Mem, limbo: set<Node>, h: Node, k: nat, x: Node, p: Pent, m': Mem)
    requires Valid(m, limbo) && x in limbo && Replaced(m, h, k, x, p, m')
    requires x.Rec? && x in m.lvOwn && m.lvOwn[x] == Null ==> x in m.lvNext && m.lvNext[x] == Null
    ensures Valid(m', limbo - {x} + {m.eaRing[h][k]})
    ensures Tab(m') == Tab(m)[KeyOf(m.eaRing[h][k], m.own, m.pent, m.place) := Entry(p.index, LvOf(x, m.lvOwn))]
  {
    hide EaSide, LvRings, FreeList, Roles, Flags, Tab, LvOf, KeyOf, HasKey;
    LimboMembers(m, limbo);
    FreeMembers(m, limbo);
    ReplacedEaSide(m, h, k, x, p, m');
    var n := m.eaRing[h][k];
    RolesToLimbo(m.own, m.lvOwn, m.lvRing, m.free, limbo, n);
    RolesLinked(m.own[n := Null], m.lvOwn, m.lvRing, m.free, limbo + {n}, x, h);
    assert limbo + {n} - {x} == limbo - {x} + {n};
    FlagsToLimbo(m.own, m.pent, limbo, n);
    FlagsLinked(m.own[n := Null], m.pent, limbo + {n}, x, h, p);
  }

  lemma FlagsToLimbo(own: Links, pent: Pents, limbo: set<Node>, n: Node)
    requires Flags(own, pent, limbo) && n in own
    ensures Flags(own[n := Null], pent, limbo + {n})
  {
  }
}

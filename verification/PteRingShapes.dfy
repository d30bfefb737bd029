/**
 Shapes of the linked structures that hold the PTE records, and how single link
 edits change them.

 A record is threaded on two lists through two link fields.  The ea ring starts at
 a slot of a level-2 table and comes back to it: the slot is a bare pointer that the
 code reads as a record, since the ea link is a record's first field.  The lv ring
 starts and ends at a record that is resident in an lvrange.  The free list reuses
 the lv link.
 */
module PteRingShapes {

  /** Everything a link can point to. */
  datatype Node =
    | Null
    | Rec(id: nat)               // a record from a chunk of records
    | Head(rng: nat, idx: nat)   // the resident record of a page of an lvrange
    | Slot(tab: nat, ind: nat)   // a slot of a level-2 table

  /** The packed word of a record, field by field. */
  datatype Pent = Pent(lvHead: bool, unused: bool, bit14: bool, eaLast: bool, topea: nat, sv: bool, index: nat)

  type Links = map<Node, Node>
  type Pents = map<Node, Pent>

  ghost predicate NoDup(r: seq<Node>) {
    forall i, j :: 0 <= i < j < |r| ==> r[i] != r[j]
  }

  /** r[0] -> r[1] -> .. -> r[|r|-1] -> end */
  ghost predicate Path(next: Links, r: seq<Node>, end: Node) {
    && (forall i :: 0 <= i < |r| ==> r[i] in next)
    && (forall i, j :: 0 <= i < j < |r| && j == i + 1 ==> next[r[i]] == r[j])
    && (r != [] ==> next[r[|r| - 1]] == end)
  }

  /** The node before position k of the ring h, r[0], r[1], .. */
  function Before(h: Node, r: seq<Node>, k: nat): Node
    requires k <= |r|
  {
    if k == 0 then h else r[k - 1]
  }

  ghost predicate IsRecord(n: Node) {
    n.Rec? || n.Head?
  }

  /** An ea ring: NULL in the slot when empty, and one record marked as the last. */
  ghost predicate EaRing(next: Links, pent: Pents, h: Node, r: seq<Node>) {
    && h in next && next[h] == (if r == [] then Null else r[0])
    && Path(next, r, h)
    && NoDup(r)
    && (forall i :: 0 <= i < |r| ==> IsRecord(r[i]) && r[i] in pent && (pent[r[i]].eaLast <==> i == |r| - 1))
  }

  /** An lv ring: the head points to itself when it is alone. */
  ghost predicate LvRing(next: Links, h: Node, r: seq<Node>) {
    && h in next && next[h] == (if r == [] then h else r[0])
    && Path(next, r, h)
    && NoDup(r)
    && (forall i :: 0 <= i < |r| ==> r[i].Rec?)
  }

  ghost predicate FreeList(next: Links, start: Node, r: seq<Node>) {
    && start == (if r == [] then Null else r[0])
    && Path(next, r, Null)
    && NoDup(r)
    && (forall i :: 0 <= i < |r| ==> r[i].Rec?)
  }

  // --------------------------------------------------------------- single edits

  function Without(r: seq<Node>, k: nat): seq<Node>
    requires k < |r|
  {
    r[..k] + r[k + 1..]
  }

  lemma WithoutMembers(r: seq<Node>, k: nat)
    requires k < |r| && NoDup(r)
    ensures forall x :: x in Without(r, k) <==> x in r && x != r[k]
    ensures NoDup(Without(r, k))
  {
    var w := Without(r, k);
    forall x
      ensures x in w <==> x in r && x != r[k]
    {
      if x in r && x != r[k] {
        var i :| 0 <= i < |r| && r[i] == x;
        assert w[if i < k then i else i - 1] == x;
      }
    }
  }

  /** Links of a path are kept when its nodes keep theirs. */
  lemma PathFrame(next: Links, next': Links, r: seq<Node>, end: Node)
    requires Path(next, r, end)
    requires forall x :: x in r ==> x in next' && next'[x] == next[x]
    ensures Path(next', r, end)
  {
  }

  /** Unlinking position k of a closed path. */
  lemma PathWithout(next: Links, next': Links, h: Node, r: seq<Node>, end: Node, k: nat)
    requires Path(next, r, end) && NoDup(r) && h !in r && k < |r|
    requires forall x :: x in r && x != r[k] && x != Before(h, r, k) ==> x in next' && next'[x] == next[x]
    requires k > 0 ==> r[k - 1] in next' && next'[r[k - 1]] == next[r[k]]
    ensures Path(next', Without(r, k), end)
  {
    hide Path, Without;
    var w := Without(r, k);
    WithoutElements(r, k);
    forall i | 0 <= i < |w|
      ensures LinkAt(next', w, end, i)
    {
      var j := if i < k then i else i + 1;
      PathAt(next, r, end, k);
      PathAt(next, r, end, j);
      assert j != k && w[i] == r[j] && r[j] != r[k];
    }
    MakePath(next', w, end);
  }

  lemma WithoutElements(r: seq<Node>, k: nat)
    requires k < |r|
    ensures var w := Without(r, k);
            |w| == |r| - 1 && forall i :: 0 <= i < |w| ==> w[i] == r[if i < k then i else i + 1]
  {
  }

  /** The link of position i leads to the next position, or to the end. */
  ghost predicate LinkAt(next: Links, r: seq<Node>, end: Node, i: int)
    requires 0 <= i < |r|
  {
    r[i] in next && next[r[i]] == if i + 1 < |r| then r[i + 1] else end
  }

  lemma PathAt(next: Links, r: seq<Node>, end: Node, j: nat)
    requires Path(next, r, end) && j < |r|
    ensures LinkAt(next, r, end, j)
  {
  }

  lemma MakePath(next: Links, r: seq<Node>, end: Node)
    requires forall i :: 0 <= i < |r| ==> LinkAt(next, r, end, i)
    ensures Path(next, r, end)
  {
    forall i | 0 <= i < |r|
      ensures r[i] in next && (i + 1 < |r| ==> next[r[i]] == r[i + 1])
    {
      assert LinkAt(next, r, end, i);
    }
    if r != [] {
      assert LinkAt(next, r, end, |r| - 1);
    }
  }

  lemma EaRingFrame(next: Links, pent: Pents, next': Links, pent': Pents, h: Node, r: seq<Node>)
    requires EaRing(next, pent, h, r)
    requires h in next' && next'[h] == next[h]
    requires forall x :: x in r ==> x in next' && next'[x] == next[x] && x in pent' && pent'[x].eaLast == pent[x].eaLast
    ensures EaRing(next', pent', h, r)
  {
    PathFrame(next, next', r, h);
  }

  lemma EaRingRemove(next: Links, pent: Pents, next': Links, pent': Pents, h: Node, r: seq<Node>, k: nat)
    requires EaRing(next, pent, h, r) && h.Slot? && k < |r|
    requires forall x :: x in r + [h] && x != r[k] && x != Before(h, r, k) ==> x in next' && next'[x] == next[x]
    requires Before(h, r, k) in next' && next'[Before(h, r, k)] == if |r| == 1 then Null else next[r[k]]
    requires forall x :: x in r && x != r[k] ==>
               x in pent' && (pent'[x].eaLast <==> pent[x].eaLast || (pent[r[k]].eaLast && x == Before(h, r, k)))
    ensures EaRing(next', pent', h, Without(r, k))
  {
    var w := Without(r, k);
    WithoutMembers(r, k);
    assert h !in r;
    PathWithout(next, next', h, r, h, k);
    assert next[r[k]] == if k + 1 < |r| then r[k + 1] else h;
    assert h in r + [h];
    forall i | 0 <= i < |w|
      ensures IsRecord(w[i]) && w[i] in pent' && (pent'[w[i]].eaLast <==> i == |w| - 1)
    {
      var j := if i < k then i else i + 1;
      assert w[i] == r[j];
    }
  }

  lemma EaRingPush(next: Links, pent: Pents, next': Links, pent': Pents, h: Node, r: seq<Node>, n: Node)
    requires EaRing(next, pent, h, r) && h.Slot? && IsRecord(n) && n !in r
    requires h in next' && next'[h] == n
    requires n in next' && next'[n] == if r == [] then h else r[0]
    requires n in pent' && (pent'[n].eaLast <==> r == [])
    requires forall x :: x in r ==> x in next' && next'[x] == next[x] && x in pent' && pent'[x].eaLast == pent[x].eaLast
    ensures EaRing(next', pent', h, [n] + r)
  {
    var w := [n] + r;
    forall i | 0 <= i < |w|
      ensures w[i] in next' && next'[w[i]] == if i + 1 < |w| then w[i + 1] else h
    {
      if i > 0 {
        assert w[i] == r[i - 1];
        assert next[r[i - 1]] == if i < |r| then r[i] else h;
      }
    }
  }

  lemma PathReplace(next: Links, next': Links, h: Node, r: seq<Node>, end: Node, k: nat, m: Node)
    requires Path(next, r, end) && NoDup(r) && h !in r && k < |r|
    requires forall i :: 0 <= i < |r| && i != k && i != k - 1 ==> r[i] in next' && next'[r[i]] == next[r[i]]
    requires k > 0 ==> r[k - 1] in next' && next'[r[k - 1]] == m
    requires m in next' && next'[m] == next[r[k]]
    ensures Path(next', r[k := m], end)
  {
    var w := r[k := m];
    forall i | 0 <= i < |w|
      ensures w[i] in next' && next'[w[i]] == if i + 1 < |w| then w[i + 1] else end
    {
      assert next[r[i]] == if i + 1 < |r| then r[i + 1] else end;
    }
  }

  /** Record m takes the place of record k of the ring. */
  lemma EaRingReplace(next: Links, pent: Pents, next': Links, pent': Pents, h: Node, r: seq<Node>, k: nat, m: Node)
    requires EaRing(next, pent, h, r) && h.Slot? && IsRecord(m) && m !in r && k < |r|
    requires forall x :: x in r + [h] && x != r[k] && x != Before(h, r, k) ==> x in next' && next'[x] == next[x]
    requires Before(h, r, k) in next' && next'[Before(h, r, k)] == m
    requires m in next' && next'[m] == next[r[k]]
    requires m in pent' && pent'[m].eaLast == pent[r[k]].eaLast
    requires forall x :: x in r && x != r[k] ==> x in pent' && pent'[x].eaLast == pent[x].eaLast
    ensures EaRing(next', pent', h, r[k := m])
  {
    assert h in r + [h];
    assert h !in r;
    forall i | 0 <= i < |r| && i != k && i != k - 1
      ensures r[i] in next' && next'[r[i]] == next[r[i]]
    {
      assert r[i] in r + [h];
      assert k > 0 ==> r[i] != r[k - 1];
    }
    PathReplace(next, next', h, r, h, k, m);
    hide Path;
    var w := r[k := m];
    forall i | 0 <= i < |w|
      ensures IsRecord(w[i]) && w[i] in pent' && (pent'[w[i]].eaLast <==> i == |w| - 1)
    {
      assert i != k ==> r[i] != r[k];
    }
  }

  lemma LvRingFrame(next: Links, next': Links, h: Node, r: seq<Node>)
    requires LvRing(next, h, r)
    requires h in next' && next'[h] == next[h]
    requires forall x :: x in r ==> x in next' && next'[x] == next[x]
    ensures LvRing(next', h, r)
  {
    PathFrame(next, next', r, h);
  }

  lemma LvRingRemove(next: Links, next': Links, h: Node, r: seq<Node>, k: nat)
    requires LvRing(next, h, r) && h.Head? && k < |r|
    requires forall x :: x in r + [h] && x != r[k] && x != Before(h, r, k) ==> x in next' && next'[x] == next[x]
    requires Before(h, r, k) in next' && next'[Before(h, r, k)] == next[r[k]]
    ensures LvRing(next', h, Without(r, k))
  {
    WithoutMembers(r, k);
    assert h !in r;
    PathWithout(next, next', h, r, h, k);
    assert next[r[k]] == if k + 1 < |r| then r[k + 1] else h;
    assert h in r + [h];
  }

  lemma LvRingPush(next: Links, next': Links, h: Node, r: seq<Node>, n: Node)
    requires LvRing(next, h, r) && h.Head? && n.Rec? && n !in r
    requires h in next' && next'[h] == n
    requires n in next' && next'[n] == next[h]
    requires forall x :: x in r ==> x in next' && next'[x] == next[x]
    ensures LvRing(next', h, [n] + r)
  {
    var w := [n] + r;
    forall i | 0 <= i < |w|
      ensures w[i] in next' && next'[w[i]] == if i + 1 < |w| then w[i + 1] else h
    {
      if i > 0 {
        assert w[i] == r[i - 1];
        assert next[r[i - 1]] == if i < |r| then r[i] else h;
      }
    }
  }

  /** Putting a path of records in front of the free list. */
  lemma FreeListPrepend(next: Links, next': Links, start: Node, free: seq<Node>, r: seq<Node>, end: Node)
    requires FreeList(next, start, free)
    requires r != [] && Path(next, r, end) && NoDup(r)
    requires forall i :: 0 <= i < |r| ==> r[i].Rec? && r[i] !in free
    requires forall x :: x in free ==> x in next' && next'[x] == next[x]
    requires forall i :: 0 <= i < |r| - 1 ==> r[i] in next' && next'[r[i]] == next[r[i]]
    requires r[|r| - 1] in next' && next'[r[|r| - 1]] == start
    ensures FreeList(next', r[0], r + free)
  {
    var w := r + free;
    forall i | 0 <= i < |w|
      ensures w[i] in next' && next'[w[i]] == if i + 1 < |w| then w[i + 1] else Null
    {
      if i < |r| {
        assert next[r[i]] == if i + 1 < |r| then r[i + 1] else end;
      } else {
        assert w[i] == free[i - |r|];
        assert next[free[i - |r|]] == if i - |r| + 1 < |free| then free[i - |r| + 1] else Null;
      }
    }
  }

  lemma FreeListPop(next: Links, next': Links, start: Node, free: seq<Node>)
    requires FreeList(next, start, free) && free != []
    requires forall x :: x in free && x != start ==> x in next' && next'[x] == next[x]
    ensures FreeList(next', next[start], free[1..])
  {
    var w := free[1..];
    assert next[free[0]] == if 1 < |free| then free[1] else Null;
    forall i | 0 <= i < |w|
      ensures w[i] in next' && next'[w[i]] == if i + 1 < |w| then w[i + 1] else Null
    {
      assert w[i] == free[i + 1];
      assert next[free[i + 1]] == if i + 2 < |free| then free[i + 2] else Null;
    }
  }

  lemma FreeListFrame(next: Links, next': Links, start: Node, free: seq<Node>)
    requires FreeList(next, start, free)
    requires forall x :: x in free ==> x in next' && next'[x] == next[x]
    ensures FreeList(next', start, free)
  {
    PathFrame(next, next', free, Null);
  }

  // ------------------------------------------------------------ families of rings

  type Rings = map<Node, seq<Node>>

  /** Each record is on the ring its owner entry names, and on no other. */
  ghost predicate Owned(rings: Rings, own: Links) {
    && (forall h, n :: h in rings && n in rings[h] ==> n in own && own[n] == h)
    && (forall n :: n in own && own[n] != Null ==> own[n] in rings && n in rings[own[n]])
    && Null !in rings
  }

  ghost predicate EaRings(next: Links, pent: Pents, rings: Rings, own: Links) {
    && (forall h :: h in rings ==> h.Slot? && EaRing(next, pent, h, rings[h]))
    && Owned(rings, own)
  }

  ghost predicate LvRings(next: Links, rings: Rings, own: Links) {
    && (forall h :: h in rings ==> h.Head? && LvRing(next, h, rings[h]))
    && Owned(rings, own)
  }

  lemma OwnedUpdate(rings: Rings, own: Links, own': Links, h: Node, r: seq<Node>)
    requires Owned(rings, own) && h in rings
    requires forall x :: x in r ==> x in own' && own'[x] == h
    requires forall x :: x in own' && own'[x] == h ==> x in r
    requires forall x :: x in own' && own'[x] != h && own'[x] != Null ==> x in own && own[x] == own'[x]
    requires forall x :: x in own && own[x] != h && own[x] != Null ==> x in own' && own[x] == own'[x]
    ensures Owned(rings[h := r], own')
  {
  }

  /** One ring was changed; the members of the others kept link and flags. */
  lemma EaRingsUpdate(next: Links, pent: Pents, next': Links, pent': Pents,
                      rings: Rings, own: Links, own': Links, h: Node, r: seq<Node>)
    requires EaRings(next, pent, rings, own) && h in rings
    requires EaRing(next', pent', h, r)
    requires forall x :: x in rings && x != h ==> x in next' && next'[x] == next[x]
    requires forall x :: x in own && own[x] != Null && own[x] != h ==>
               x in next' && next'[x] == next[x] && x in pent' && pent'[x].eaLast == pent[x].eaLast
    requires forall x :: x in r ==> x in own' && own'[x] == h
    requires forall x :: x in own' && own'[x] == h ==> x in r
    requires forall x :: x in own' && own'[x] != h && own'[x] != Null ==> x in own && own[x] == own'[x]
    requires forall x :: x in own && own[x] != h && own[x] != Null ==> x in own' && own[x] == own'[x]
    ensures EaRings(next', pent', rings[h := r], own')
  {
    hide EaRing;
    OwnedUpdate(rings, own, own', h, r);
    forall g | g in rings && g != h
      ensures EaRing(next', pent', g, rings[g])
    {
      EaRingFrame(next, pent, next', pent', g, rings[g]);
    }
  }

  /** Nothing on any ring was touched. */
  lemma EaRingsFrame(next: Links, pent: Pents, next': Links, pent': Pents, rings: Rings, own: Links, own': Links)
    requires EaRings(next, pent, rings, own)
    requires forall x :: x in rings ==> x in next' && next'[x] == next[x]
    requires forall x :: x in own && own[x] != Null ==>
               x in next' && next'[x] == next[x] && x in pent' && pent'[x].eaLast == pent[x].eaLast
    requires forall x :: x in own' && own'[x] != Null ==> x in own && own[x] == own'[x]
    requires forall x :: x in own && own[x] != Null ==> x in own' && own[x] == own'[x]
    ensures EaRings(next', pent', rings, own')
  {
    hide EaRing;
    forall g | g in rings
      ensures EaRing(next', pent', g, rings[g])
    {
      EaRingFrame(next, pent, next', pent', g, rings[g]);
    }
  }

  lemma LvRingsUpdate(next: Links, next': Links, rings: Rings, own: Links, own': Links, h: Node, r: seq<Node>)
    requires LvRings(next, rings, own) && h in rings
    requires LvRing(next', h, r)
    requires forall x :: x in rings && x != h ==> x in next' && next'[x] == next[x]
    requires forall x :: x in own && own[x] != Null && own[x] != h ==> x in next' && next'[x] == next[x]
    requires forall x :: x in r ==> x in own' && own'[x] == h
    requires forall x :: x in own' && own'[x] == h ==> x in r
    requires forall x :: x in own' && own'[x] != h && own'[x] != Null ==> x in own && own[x] == own'[x]
    requires forall x :: x in own && own[x] != h && own[x] != Null ==> x in own' && own[x] == own'[x]
    ensures LvRings(next', rings[h := r], own')
  {
    hide LvRing;
    OwnedUpdate(rings, own, own', h, r);
    forall g | g in rings && g != h
      ensures LvRing(next', g, rings[g])
    {
      LvRingFrame(next, next', g, rings[g]);
    }
  }

  lemma LvRingsFrame(next: Links, next': Links, rings: Rings, own: Links, own': Links)
    requires LvRings(next, rings, own)
    requires forall x :: x in rings ==> x in next' && next'[x] == next[x]
    requires forall x :: x in own && own[x] != Null ==> x in next' && next'[x] == next[x]
    requires forall x :: x in own' && own'[x] != Null ==> x in own && own[x] == own'[x]
    requires forall x :: x in own && own[x] != Null ==> x in own' && own[x] == own'[x]
    ensures LvRings(next', rings, own')
  {
    hide LvRing;
    forall g | g in rings
      ensures LvRing(next', g, rings[g])
    {
      LvRingFrame(next, next', g, rings[g]);
    }
  }
}

/** The boot loader's allocator: first fit from a sorted table of free blocks. */
module BootHeap {
  import opened BootBlocks

  const NODES := 384
  const ZMEM_SIZE := 8

  /** The size of the block for a request: the next multiple of 16. */
  predicate IsRounded(size: nat, n: int) { size <= n < size + 16 && n % 16 == 0 }

  function Rounded(size: nat): nat { (size + 15) / 16 * 16 }

  lemma RoundedIs(size: nat)
    ensures forall n :: IsRounded(size, n) <==> n == Rounded(size)
    ensures Rounded(size) >= size
  {
  }

  /** zinsert: the nodes from an index on move up by one, the last is lost. */
  method ZInsert(a: array<Block>, ndx: nat)
    requires a.Length == NODES && ndx < NODES
    modifies a
    ensures a[..] == old(a[..])[..ndx + 1] + old(a[..])[ndx..NODES - 1]
  {
    var i := NODES - 2;
    while i >= ndx
      invariant ndx - 1 <= i <= NODES - 2
      invariant forall k :: 0 <= k <= i + 1 ==> a[k] == old(a[k])
      invariant forall k :: i + 2 <= k < NODES ==> a[k] == old(a[k - 1])
    {
      a[i + 1] := a[i];
      i := i - 1;
    }
  }

  /** zdelete: the nodes after an index move down by one. */
  method ZDelete(a: array<Block>, ndx: nat)
    requires a.Length == NODES && ndx < NODES
    modifies a
    ensures a[..] == old(a[..])[..ndx] + old(a[..])[ndx + 1..] + [old(a[NODES - 1])]
  {
    var i := ndx;
    while i < NODES - 1
      invariant ndx <= i <= NODES - 1
      invariant forall k :: ndx <= k < i ==> a[k] == old(a[k + 1])
      invariant forall k :: (0 <= k < ndx || i <= k < NODES) ==> a[k] == old(a[k])
    {
      a[i] := a[i + 1];
      i := i + 1;
    }
  }

  lemma Shifted(was: seq<Block>, now: seq<Block>, n: nat, i: nat)
    requires |was| == NODES && i < n <= NODES && now == was[..i] + was[i + 1..] + [was[NODES - 1]]
    ensures |now| == NODES && now[..n - 1] == Without(was[..n], i)
  {
  }

  lemma Opened(was: seq<Block>, now: seq<Block>, n: nat, i: nat, b: Block)
    requires |was| == NODES && i < n < NODES && |now| == NODES
    requires now == (was[..i + 1] + was[i..NODES - 1])[i := b]
    ensures now[..n + 1] == was[..n][..i] + [b] + was[..n][i..]
  {
    var t := was[..n][..i] + [b] + was[..n][i..];
    forall k | 0 <= k < n + 1
      ensures now[k] == t[k]
    {
    }
    assert now[..n + 1] == t;
  }

  lemma Merged(was: seq<Block>, mid: seq<Block>, now: seq<Block>, n: nat, i: nat)
    requires |was| == NODES && i + 1 < n <= NODES
    requires mid == was[i := Block(was[i].start, was[i].size + was[i + 1].size)]
    requires now == mid[..i + 1] + mid[i + 2..] + [mid[NODES - 1]]
    ensures |now| == NODES && now[..n - 1] == Joined(was[..n], i)
  {
    var joined := Joined(was[..n], i);
    assert |now| == NODES && |joined| == n - 1;
    forall k | 0 <= k < n - 1
      ensures now[k] == joined[k]
    {
    }
    assert now[..n - 1] == joined;
  }

  /** The bytes asked for are in no other block. */
  lemma NewestFront(free: seq<Block>, live: seq<Block>, b: Block, lo: int, hi: int, size: nat)
    requires HeapOk(free, live + [b], lo, hi) && 0 < size <= b.size
    ensures lo <= b.start && b.start + size <= hi
    ensures forall x :: b.start <= x < b.start + size ==> !Has(free, x) && !Has(live, x)
  {
    hide HeapOk, Has;
    NewestAlone(free, live, b, lo, hi, b.start);
    NewestAlone(free, live, b, lo, hi, b.start + size - 1);
    forall x | b.start <= x < b.start + size
      ensures !Has(free, x) && !Has(live, x)
    {
      NewestAlone(free, live, b, lo, hi, x);
    }
  }

  /** Two neighbours of a list touch. */
  ghost predicate Touch(s: seq<Block>, i: int) { 0 <= i < |s| - 1 && End(s[i]) == s[i + 1].start }

  class Heap {
    const alloced: array<Block>
    const available: array<Block>
    var nAlloced: nat
    var nAvailable: nat
    ghost const lo: int
    ghost const hi: int

    ghost predicate Tables()
      reads this
    {
      alloced != available && alloced.Length == NODES && available.Length == NODES &&
      nAlloced <= NODES && nAvailable <= NODES
    }

    ghost function Free(): seq<Block>
      reads this, available
      requires Tables()
    {
      available[..nAvailable]
    }

    ghost function Live(): seq<Block>
      reads this, alloced
      requires Tables()
    {
      alloced[..nAlloced]
    }

    ghost predicate Valid()
      reads this, alloced, available
    {
      Tables() && 0 < lo < hi && HeapOk(Free(), Live(), lo, hi)
    }

    /** malloc_init: the region starts after the two tables and has the size given, which
        the tables are not subtracted from. */
    constructor (start: nat, size: nat)
      requires size > 0
      ensures Valid() && fresh(alloced) && fresh(available)
      ensures lo == start + 2 * ZMEM_SIZE * NODES && hi == lo + size
      ensures Live() == [] && Free() == [Block(lo, size)]
    {
      var base := start + 2 * ZMEM_SIZE * NODES;
      alloced := new Block[NODES](_ => Block(0, 0));
      available := new Block[NODES](_ => Block(base, size));
      nAlloced, nAvailable := 0, 1;
      lo, hi := base, base + size;
      new;
      assert available[..1] == [Block(base, size)];
      OneBlock(base, size);
    }

    /** zallocate. */
    method ZAllocate(b: Block)
      requires Tables() && nAlloced < NODES
      modifies this`nAlloced, alloced
      ensures Tables() && nAlloced == old(nAlloced) + 1 && Live() == old(Live()) + [b]
    {
      alloced[nAlloced] := b;
      nAlloced := nAlloced + 1;
    }

    /** malloc: the front of the first free block that is large enough; 0 when none is. */
    method Malloc(size: nat) returns (ret: int)
      requires Valid() && size > 0 && nAlloced < NODES
      modifies this`nAlloced, this`nAvailable, alloced, available
      ensures Valid()
      ensures ret == 0 ==> Free() == old(Free()) && Live() == old(Live())
      ensures ret == 0 ==>
                forall i, n :: 0 <= i < |old(Free())| && IsRounded(size, n) ==> old(Free())[i].size < n
      ensures ret != 0 ==>
                exists n :: IsRounded(size, n) && Live() == old(Live()) + [Block(ret, n)] &&
                  FirstFit(old(Free()), n, ret, Free())
      ensures ret != 0 ==> lo <= ret && ret + size <= hi
      ensures ret != 0 ==> forall x :: ret <= x < ret + size ==> !Has(Free(), x) && !Has(old(Live()), x)
    {
      hide HeapOk, IsRounded, Rounded;
      ret := 0;
      var n := Rounded(size);
      RoundedIs(size);
      var i := 0;
      ghost var free, live := Free(), Live();
      while i < nAvailable
        invariant 0 <= i <= nAvailable && ret == 0 && nAvailable == old(nAvailable) && nAlloced == old(nAlloced)
        invariant Valid() && Free() == free && Live() == live
        invariant forall k :: 0 <= k < i ==> free[k].size < n
      {
        assert available[i] == free[i];
        if available[i].size >= n {
          StartsInside(free, live, lo, hi, i);
          ret := available[i].start;
          ghost var was := available[..];
          if available[i].size == n {
            TakenWhole(free, live, lo, hi, i);
            ZAllocate(Block(ret, n));
            ZDelete(available, i);
            Shifted(was, available[..], nAvailable, i);
            nAvailable := nAvailable - 1;
          } else {
            TakenFront(free, live, lo, hi, i, n);
            ZAllocate(Block(ret, n));
            available[i] := Block(available[i].start + n, available[i].size - n);
            assert available[..nAvailable] == free[i := Block(ret + n, free[i].size - n)];
          }
          NewestFront(Free(), live, Block(ret, n), lo, hi, size);
          return;
        }
        i := i + 1;
      }
    }

    /** zcoalesce: joins the first two neighbours that touch, if any do. */
    method ZCoalesce()
      requires Tables()
      modifies this`nAvailable, available
      ensures Tables()
      ensures (forall i :: !Touch(old(Free()), i)) ==> Free() == old(Free())
      ensures forall i: nat :: Touch(old(Free()), i) && (forall k :: k < i ==> !Touch(old(Free()), k)) ==>
                Free() == Joined(old(Free()), i)
    {
      var i := 0;
      ghost var free := Free();
      while i < nAvailable - 1
        invariant 0 <= i <= nAvailable == old(nAvailable) && Tables() && available[..] == old(available[..])
        invariant forall k :: k < i ==> !Touch(free, k)
      {
        if available[i].start + available[i].size == available[i + 1].start {
          assert Touch(free, i);
          ghost var was := available[..];
          available[i] := Block(available[i].start, available[i].size + available[i + 1].size);
          ghost var mid := available[..];
          ZDelete(available, i + 1);
          Merged(was, mid, available[..], nAvailable, i);
          nAvailable := nAvailable - 1;
          return;
        }
        assert !Touch(free, i);
        i := i + 1;
      }
      assert forall k :: !Touch(free, k);
    }

    /** The second half of free: the block is put back into the free list. */
    method PutBack(b: Block)
      requires Tables() && nAvailable < NODES && NotEmpty(Free()) && Apart(Free()) && Clear(Free(), b)
      modifies this`nAvailable, available
      ensures Tables() && Returned(old(Free()), b, Free())
    {
      hide NotEmpty, Apart, Clear, After, Returned, Touch;
      ghost var free := Free();
      ghost var was := available[..];
      var i := 0;
      StartAfter(free, b);
      while i < nAvailable
        invariant 0 <= i <= nAvailable == old(nAvailable) && Tables() && available[..] == was && After(free, b, i)
      {
        assert available[i] == free[i];
        if b.start + b.size == available[i].start {
          PutBefore(free, b, i);
          TouchBefore(free, b, i);
          available[i] := Block(b.start, b.size + available[i].size);
          assert Free() == free[i := Block(b.start, b.size + free[i].size)];
          ZCoalesce();
          return;
        }
        if i > 0 && available[i - 1].start + available[i - 1].size == b.start {
          NextIsLater(free, b, i);
          PutAfter(free, b, i);
          available[i - 1] := Block(available[i - 1].start, available[i - 1].size + b.size);
          TouchAfter(free, b, i);
          assert Free() == free[i - 1 := Block(free[i - 1].start, free[i - 1].size + b.size)];
          ZCoalesce();
          return;
        }
        if b.start + b.size < available[i].start {
          PutBetween(free, b, i);
          ZInsert(available, i);
          nAvailable := nAvailable + 1;
          available[i] := b;
          Opened(was, available[..], nAvailable - 1, i, b);
          return;
        }
        StillAfter(free, b, i);
        i := i + 1;
      }
      PutLast(free, b);
      TouchLast(free, b);
      available[i] := b;
      nAvailable := nAvailable + 1;
      assert Free() == free + [b];
      ZCoalesce();
    }

    /** The live block that starts at an address. */
    method FindLive(start: int) returns (j: nat)
      requires Tables()
      ensures j <= nAlloced
      ensures if j < nAlloced then alloced[j].start == start
              else forall k :: 0 <= k < |Live()| ==> Live()[k].start != start
    {
      j := 0;
      while j < nAlloced && alloced[j].start != start
        invariant j <= nAlloced && forall k :: 0 <= k < j ==> alloced[k].start != start
      {
        j := j + 1;
      }
    }

    /** free: a pointer to no live block is ignored; else its block leaves the live blocks
        and goes back to the free list. */
    method FreeBlock(start: int)
      requires Valid() && nAvailable < NODES
      modifies this`nAlloced, this`nAvailable, alloced, available
      ensures Valid()
      ensures (forall k :: 0 <= k < |old(Live())| ==> old(Live())[k].start != start) ==>
                Free() == old(Free()) && Live() == old(Live())
      ensures forall k: nat :: k < |old(Live())| && old(Live())[k].start == start ==>
                Live() == Without(old(Live()), k) && Returned(old(Free()), old(Live())[k], Free())
    {
      hide Returned, Clear;
      if start == 0 {
        NoneAtZero(Free(), Live(), lo, hi);
        return;
      }
      var j := FindLive(start);
      if j == nAlloced {
        return;
      }
      ghost var free, live, was := Free(), Live(), alloced[..];
      var b := alloced[j];
      assert b == live[j];
      LiveClear(free, live, lo, hi, j);
      OnlyOne(live, j);
      ZDelete(alloced, j);
      Shifted(was, alloced[..], nAlloced, j);
      nAlloced := nAlloced - 1;
      PutBack(b);
      GivenBack(free, live, lo, hi, j, Free());
    }
  }

  lemma NoneAtZero(free: seq<Block>, live: seq<Block>, lo: int, hi: int)
    requires HeapOk(free, live, lo, hi) && 0 < lo
    ensures forall k :: 0 <= k < |live| ==> live[k].start != 0
  {
    forall k | 0 <= k < |live|
      ensures live[k].start != 0
    {
      assert InBlock(live[k], live[k].start);
      assert Has(live, live[k].start);
    }
  }

  lemma OnlyOne(live: seq<Block>, j: nat)
    requires Disjoint(live) && NotEmpty(live) && j < |live|
    ensures forall k :: 0 <= k < |live| && live[k].start == live[j].start ==> k == j
  {
  }

  lemma LiveClear(free: seq<Block>, live: seq<Block>, lo: int, hi: int, j: nat)
    requires HeapOk(free, live, lo, hi) && j < |live|
    ensures Clear(free, live[j])
  {
    forall i | 0 <= i < |free|
      ensures End(live[j]) <= free[i].start || End(free[i]) <= live[j].start
    {
      LiveApart(free, live, lo, hi, j, i);
    }
  }

  lemma StartAfter(free: seq<Block>, b: Block)
    ensures After(free, b, 0)
  {
  }

  lemma StillAfter(free: seq<Block>, b: Block, i: nat)
    requires After(free, b, i) && i < |free| && Clear(free, b) && End(b) >= free[i].start && End(b) != free[i].start
    ensures After(free, b, i + 1)
  {
  }

  lemma NextIsLater(free: seq<Block>, b: Block, i: nat)
    requires 0 < i < |free| && Clear(free, b) && NotEmpty(free) && Apart(free) && End(b) != free[i].start &&
             End(free[i - 1]) == b.start
    ensures End(b) < free[i].start
  {
  }

  /** After a merge with the block behind it, only the block before it can touch. */
  lemma TouchBefore(free: seq<Block>, b: Block, i: nat)
    requires NotEmpty(free) && Apart(free) && Clear(free, b) && After(free, b, i) && i < |free| &&
             End(b) == free[i].start
    ensures var t := free[i := Block(b.start, b.size + free[i].size)];
            forall k :: Touch(t, k) <==> k == i - 1 && i > 0 && End(free[i - 1]) == b.start
  {
  }

  lemma TouchAfter(free: seq<Block>, b: Block, i: nat)
    requires NotEmpty(free) && Apart(free) && 0 < i < |free| && End(b) < free[i].start &&
             End(free[i - 1]) == b.start && Clear(free, b)
    ensures var t := free[i - 1 := Block(free[i - 1].start, free[i - 1].size + b.size)]; forall k :: !Touch(t, k)
  {
  }

  lemma TouchLast(free: seq<Block>, b: Block)
    requires NotEmpty(free) && Apart(free) && After(free, b, |free|)
    ensures forall k :: Touch(free + [b], k) <==> k == |free| - 1 && k >= 0 && End(free[k]) == b.start
  {
  }

  /** An allocation takes the front of the first free block that is large enough. */
  ghost predicate FirstFit(free: seq<Block>, n: int, ret: int, free': seq<Block>) {
    exists i: nat :: i < |free| && free[i].start == ret && free[i].size >= n &&
      (forall k :: 0 <= k < i ==> free[k].size < n) &&
                free' == if free[i].size == n then Without(free, i) else free[i := Block(ret + n, free[i].size - n)]
  }

  lemma OneBlock(lo: int, size: int)
    requires size > 0
    ensures HeapOk([Block(lo, size)], [], lo, lo + size)
  {
    forall x
      ensures Has([Block(lo, size)], x) <==> lo <= x < lo + size
    {
      assert InBlock([Block(lo, size)][0], x) <==> lo <= x < lo + size;
    }
  }

  lemma StartsInside(free: seq<Block>, live: seq<Block>, lo: int, hi: int, i: nat)
    requires HeapOk(free, live, lo, hi) && i < |free|
    ensures lo <= free[i].start && free[i].size > 0
  {
    assert InBlock(free[i], free[i].start);
    assert Has(free, free[i].start);
  }

  /** When everything has been freed, one free block is left: the whole region. */
  lemma FreedAll(heap: Heap)
    requires heap.Valid() && heap.Live() == []
    ensures heap.Free() == [Block(heap.lo, heap.hi - heap.lo)]
  {
    AllFree(heap.Free(), heap.lo, heap.hi);
  }
}

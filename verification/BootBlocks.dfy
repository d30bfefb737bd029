/** The tables of the boot allocator as sequences of blocks. */
module BootBlocks {

  datatype Block = Block(start: int, size: int)

  function End(b: Block): int { b.start + b.size }

  predicate InBlock(b: Block, x: int) { b.start <= x < End(b) }

  ghost predicate Has(s: seq<Block>, x: int) { exists i :: 0 <= i < |s| && InBlock(s[i], x) }

  ghost predicate NotEmpty(s: seq<Block>) { forall i :: 0 <= i < |s| ==> s[i].size > 0 }

  /** The free list: in order, no two blocks touching. */
  ghost predicate Apart(s: seq<Block>) { forall i, j :: 0 <= i < j < |s| ==> End(s[i]) < s[j].start }

  ghost predicate Disjoint(s: seq<Block>) {
    forall i, j :: 0 <= i < |s| && 0 <= j < |s| && i != j ==> End(s[i]) <= s[j].start || End(s[j]) <= s[i].start
  }

  /** Free and live blocks tile the region: every address of it is in exactly one. */
  ghost predicate Tiles(free: seq<Block>, live: seq<Block>, lo: int, hi: int) {
    (forall x :: lo <= x < hi <==> Has(free, x) || Has(live, x)) && (forall x :: !(Has(free, x) && Has(live, x)))
  }

  ghost predicate HeapOk(free: seq<Block>, live: seq<Block>, lo: int, hi: int) {
    NotEmpty(free) && NotEmpty(live) && Apart(free) && Disjoint(live) && Tiles(free, live, lo, hi)
  }

  function Without(s: seq<Block>, i: nat): seq<Block>
    requires i < |s|
  {
    s[..i] + s[i + 1..]
  }

  /** Two neighbours of a list as one block. */
  function Joined(s: seq<Block>, i: nat): seq<Block>
    requires i + 1 < |s|
  {
    s[..i] + [Block(s[i].start, s[i].size + s[i + 1].size)] + s[i + 2..]
  }

  /** A freed block and the blocks that touch it become one; the others stay. */
  ghost predicate Returned(free: seq<Block>, b: Block, free': seq<Block>) {
    NotEmpty(free') && Apart(free') && forall x :: Has(free', x) <==> Has(free, x) || InBlock(b, x)
  }

  // ------------------------------------------------------------------- sets of addresses

  lemma HasWithout(s: seq<Block>, i: nat)
    requires i < |s| && Disjoint(s)
    ensures forall x :: Has(Without(s, i), x) <==> Has(s, x) && !InBlock(s[i], x)
    ensures Disjoint(Without(s, i))
  {
    var t := Without(s, i);
    assert forall j :: 0 <= j < |t| ==> t[j] == s[if j < i then j else j + 1];
    forall x
      ensures Has(t, x) <==> Has(s, x) && !InBlock(s[i], x)
    {
      if Has(s, x) && !InBlock(s[i], x) {
        var j :| 0 <= j < |s| && InBlock(s[j], x);
        assert t[if j < i then j else j - 1] == s[j];
      }
    }
  }

  lemma HasPlus(s: seq<Block>, b: Block)
    ensures forall x :: Has(s + [b], x) <==> Has(s, x) || InBlock(b, x)
  {
    var t := s + [b];
    forall x
      ensures Has(t, x) <==> Has(s, x) || InBlock(b, x)
    {
      if Has(s, x) {
        var j :| 0 <= j < |s| && InBlock(s[j], x);
        assert t[j] == s[j];
      }
      assert t[|s|] == b;
    }
  }

  /** No byte of a live block is free or in a block that was live before it. */
  lemma NewestAlone(free: seq<Block>, live: seq<Block>, b: Block, lo: int, hi: int, x: int)
    requires HeapOk(free, live + [b], lo, hi) && InBlock(b, x)
    ensures lo <= x < hi && !Has(free, x) && !Has(live, x)
  {
    var all := live + [b];
    assert all[|live|] == b && Has(all, x);
    forall j | 0 <= j < |live|
      ensures !InBlock(live[j], x)
    {
      assert all[j] == live[j];
    }
  }

  lemma ApartIsDisjoint(s: seq<Block>)
    requires Apart(s)
    ensures Disjoint(s)
  {
  }

  /** Blocks that share no address are disjoint. */
  lemma DisjointPlus(s: seq<Block>, b: Block)
    requires Disjoint(s) && NotEmpty(s) && b.size > 0 && forall x :: !(Has(s, x) && InBlock(b, x))
    ensures Disjoint(s + [b])
  {
    forall j | 0 <= j < |s|
      ensures End(s[j]) <= b.start || End(b) <= s[j].start
    {
      var x := if s[j].start < b.start then b.start else s[j].start;
      assert InBlock(s[j], x) ==> Has(s, x);
    }
  }

  /** Replacing a block changes the addresses of the list by its own. */
  lemma HasReplaced(s: seq<Block>, i: nat, b: Block)
    requires i < |s| && Disjoint(s)
    ensures forall x :: Has(s[i := b], x) <==> (Has(s, x) && !InBlock(s[i], x)) || InBlock(b, x)
  {
    var t := s[i := b];
    forall x
      ensures Has(t, x) <==> (Has(s, x) && !InBlock(s[i], x)) || InBlock(b, x)
    {
      if Has(t, x) {
        var j :| 0 <= j < |t| && InBlock(t[j], x);
        assert j == i || InBlock(s[j], x);
      }
      if Has(s, x) && !InBlock(s[i], x) {
        var j :| 0 <= j < |s| && InBlock(s[j], x);
        assert t[j] == s[j];
      }
      assert t[i] == b;
    }
  }

  lemma HasInserted(s: seq<Block>, i: nat, b: Block)
    requires i <= |s|
    ensures forall x :: Has(s[..i] + [b] + s[i..], x) <==> Has(s, x) || InBlock(b, x)
  {
    var t := s[..i] + [b] + s[i..];
    forall x
      ensures Has(t, x) <==> Has(s, x) || InBlock(b, x)
    {
      if Has(t, x) {
        var j :| 0 <= j < |t| && InBlock(t[j], x);
        assert t[j] == if j < i then s[j] else if j == i then b else s[j - 1];
      }
      if Has(s, x) {
        var j :| 0 <= j < |s| && InBlock(s[j], x);
        assert t[if j < i then j else j + 1] == s[j];
      }
      assert t[i] == b;
    }
  }

  /** Joining two blocks that touch does not change the addresses. */
  lemma HasJoined(s: seq<Block>, i: nat)
    requires i + 1 < |s| && End(s[i]) == s[i + 1].start && NotEmpty(s)
    ensures forall x :: Has(Joined(s, i), x) <==> Has(s, x)
  {
    var t := Joined(s, i);
    var both := Block(s[i].start, s[i].size + s[i + 1].size);
    assert forall j :: 0 <= j < |t| ==> t[j] == if j < i then s[j] else if j == i then both else s[j + 1];
    forall x
      ensures Has(t, x) <==> Has(s, x)
    {
      if Has(t, x) {
        var j :| 0 <= j < |t| && InBlock(t[j], x);
        assert if j < i then InBlock(s[j], x)
               else if j == i then InBlock(s[i], x) || InBlock(s[i + 1], x)
               else InBlock(s[j + 1], x);
      }
      if Has(s, x) {
        var j :| 0 <= j < |s| && InBlock(s[j], x);
        var k := if j <= i then j else j - 1;
        assert InBlock(t[k], x);
      }
    }
  }

  // ------------------------------------------------------------------ allocate and free

  /** A whole free block becomes live. */
  lemma TakenWhole(free: seq<Block>, live: seq<Block>, lo: int, hi: int, i: nat)
    requires HeapOk(free, live, lo, hi) && i < |free|
    ensures HeapOk(Without(free, i), live + [free[i]], lo, hi)
  {
    ApartIsDisjoint(free);
    HasWithout(free, i);
    HasPlus(live, free[i]);
    forall x
      ensures InBlock(free[i], x) ==> Has(free, x)
    {
    }
    DisjointPlus(live, free[i]);
  }

  /** The front of a free block becomes live. */
  lemma TakenFront(free: seq<Block>, live: seq<Block>, lo: int, hi: int, i: nat, n: int)
    requires HeapOk(free, live, lo, hi) && i < |free| && 0 < n < free[i].size
    ensures HeapOk(free[i := Block(free[i].start + n, free[i].size - n)], live + [Block(free[i].start, n)], lo, hi)
  {
    hide Has, Tiles, Disjoint;
    var b, rest := Block(free[i].start, n), Block(free[i].start + n, free[i].size - n);
    FrontTiles(free, live, lo, hi, i, b, rest);
    assert Apart(free[i := rest]) && NotEmpty(free[i := rest]) && NotEmpty(live + [b]);
    DisjointPlus(live, b);
  }

  /** A free block in two parts, of which the first becomes live. */
  lemma FrontTiles(free: seq<Block>, live: seq<Block>, lo: int, hi: int, i: nat, b: Block, rest: Block)
    requires Tiles(free, live, lo, hi) && Apart(free) && NotEmpty(free) && i < |free|
    requires b.start == free[i].start && End(b) == rest.start && End(rest) == End(free[i])
    requires b.size > 0 && rest.size > 0
    ensures Tiles(free[i := rest], live + [b], lo, hi)
    ensures forall x :: InBlock(b, x) ==> !Has(live, x)
  {
    hide Has, Apart, NotEmpty, Disjoint;
    ApartIsDisjoint(free);
    HasReplaced(free, i, rest);
    HasPlus(live, b);
    var t, l := free[i := rest], live + [b];
    forall x
      ensures InBlock(b, x) ==> !Has(live, x)
      ensures (lo <= x < hi <==> Has(t, x) || Has(l, x)) && !(Has(t, x) && Has(l, x))
    {
      BlockHas(free, i, x);
      assert InBlock(free[i], x) <==> InBlock(b, x) || InBlock(rest, x);
      assert Has(t, x) <==> (Has(free, x) && !InBlock(free[i], x)) || InBlock(rest, x);
      assert Has(l, x) <==> Has(live, x) || InBlock(b, x);
    }
  }

  lemma BlockHas(s: seq<Block>, i: nat, x: int)
    requires i < |s|
    ensures InBlock(s[i], x) ==> Has(s, x)
  {
  }

  /** A live block becomes free. */
  lemma GivenBack(free: seq<Block>, live: seq<Block>, lo: int, hi: int, j: nat, free': seq<Block>)
    requires HeapOk(free, live, lo, hi) && j < |live| && Returned(free, live[j], free')
    ensures HeapOk(free', Without(live, j), lo, hi)
  {
    HasWithout(live, j);
    forall x
      ensures InBlock(live[j], x) ==> Has(live, x)
    {
    }
    assert NotEmpty(Without(live, j));
  }

  /** A live block is before or after each free block. */
  lemma LiveApart(free: seq<Block>, live: seq<Block>, lo: int, hi: int, j: nat, i: nat)
    requires HeapOk(free, live, lo, hi) && j < |live| && i < |free|
    ensures End(live[j]) <= free[i].start || End(free[i]) <= live[j].start
  {
    var x := if live[j].start < free[i].start then free[i].start else live[j].start;
    assert InBlock(live[j], x) ==> Has(live, x);
    assert InBlock(free[i], x) ==> Has(free, x);
  }

  // --------------------------------------------------------------------- where it is put

  /** Every free block is clear of a block that is being freed. */
  ghost predicate Clear(free: seq<Block>, b: Block) {
    b.size > 0 && forall i :: 0 <= i < |free| ==> End(b) <= free[i].start || End(free[i]) <= b.start
  }

  /** The free blocks before an index are all before the block. */
  ghost predicate After(free: seq<Block>, b: Block, i: nat) {
    i <= |free| && forall k :: 0 <= k < i ==> End(free[k]) <= b.start
  }

  /** The block ends where a free block starts; it may start where the one before ends. */
  lemma PutBefore(free: seq<Block>, b: Block, i: nat)
    requires NotEmpty(free) && Apart(free) && Clear(free, b) && After(free, b, i) && i < |free| &&
             End(b) == free[i].start
    ensures var t := free[i := Block(b.start, b.size + free[i].size)];
            Returned(free, b, if i > 0 && End(free[i - 1]) == b.start then Joined(t, i - 1) else t)
  {
    hide Has;
    var big := Block(b.start, b.size + free[i].size);
    var t := free[i := big];
    GrownHas(free, b, i, big);
    if i > 0 && End(free[i - 1]) == b.start {
      HasJoined(t, i - 1);
      JoinedApart(free, t, i);
    }
  }

  /** A free block extended down by a block that ends where it starts. */
  lemma GrownHas(free: seq<Block>, b: Block, i: nat, big: Block)
    requires Apart(free) && NotEmpty(free) && i < |free| && End(b) == free[i].start && b.size > 0
    requires big == Block(b.start, b.size + free[i].size)
    ensures forall x :: Has(free[i := big], x) <==> Has(free, x) || InBlock(b, x)
  {
    var t := free[i := big];
    ApartIsDisjoint(free);
    HasReplaced(free, i, big);
    forall x
      ensures Has(t, x) <==> Has(free, x) || InBlock(b, x)
    {
      assert InBlock(free[i], x) ==> Has(free, x);
      assert InBlock(big, x) <==> InBlock(b, x) || InBlock(free[i], x);
    }
  }

  lemma JoinedApart(free: seq<Block>, t: seq<Block>, i: nat)
    requires Apart(free) && NotEmpty(free) && 0 < i < |free| == |t| && t == free[i := t[i]]
    requires NotEmpty(t) && End(t[i]) == End(free[i]) && End(t[i - 1]) == t[i].start
    ensures Apart(Joined(t, i - 1)) && NotEmpty(Joined(t, i - 1))
  {
    var w := Joined(t, i - 1);
    assert forall j :: 0 <= j < |w| && j != i - 1 ==> w[j] == free[if j < i then j else j + 1];
    assert w[i - 1].start == free[i - 1].start && End(w[i - 1]) == End(free[i]);
  }

  /** The block starts where a free block ends, and touches no other. */
  lemma PutAfter(free: seq<Block>, b: Block, i: nat)
    requires NotEmpty(free) && Apart(free) && Clear(free, b) && 0 < i < |free| && After(free, b, i)
    requires End(b) < free[i].start && End(free[i - 1]) == b.start
    ensures Returned(free, b, free[i - 1 := Block(free[i - 1].start, free[i - 1].size + b.size)])
  {
    var big := Block(free[i - 1].start, free[i - 1].size + b.size);
    ApartIsDisjoint(free);
    HasReplaced(free, i - 1, big);
    forall x
      ensures Has(free[i - 1 := big], x) <==> Has(free, x) || InBlock(b, x)
    {
      assert InBlock(free[i - 1], x) ==> Has(free, x);
    }
  }

  /** The block touches no free block. */
  lemma PutBetween(free: seq<Block>, b: Block, i: nat)
    requires NotEmpty(free) && Apart(free) && Clear(free, b) && i < |free| && After(free, b, i)
    requires End(b) < free[i].start && (i > 0 ==> End(free[i - 1]) != b.start)
    ensures Returned(free, b, free[..i] + [b] + free[i..])
  {
    hide Has;
    HasInserted(free, i, b);
    InsertedApart(free, b, i, free[..i] + [b] + free[i..]);
  }

  lemma InsertedApart(free: seq<Block>, b: Block, i: nat, t: seq<Block>)
    requires NotEmpty(free) && Apart(free) && i < |free| && t == free[..i] + [b] + free[i..] && b.size > 0
    requires End(b) < free[i].start && (i > 0 ==> End(free[i - 1]) < b.start)
    ensures NotEmpty(t) && Apart(t)
  {
    forall j | 0 <= j < i
      ensures End(free[j]) < b.start
    {
      assert j < i - 1 ==> End(free[j]) < free[i - 1].start;
    }
    forall j | i <= j < |free|
      ensures End(b) < free[j].start
    {
      assert i < j ==> End(free[i]) < free[j].start;
    }
  }

  /** The block is after every free block; it may touch the last. */
  lemma PutLast(free: seq<Block>, b: Block)
    requires NotEmpty(free) && Apart(free) && Clear(free, b) && After(free, b, |free|)
    ensures var t, n := free + [b], |free|;
            Returned(free, b, if n > 0 && End(free[n - 1]) == b.start then Joined(t, n - 1) else t)
  {
    var t, n := free + [b], |free|;
    HasPlus(free, b);
    if n > 0 && End(free[n - 1]) == b.start {
      HasJoined(t, n - 1);
      assert forall j :: 0 <= j < n - 1 ==> Joined(t, n - 1)[j] == free[j];
    }
  }

  /** With nothing live, the whole region is one free block. */
  lemma AllFree(free: seq<Block>, lo: int, hi: int)
    requires HeapOk(free, [], lo, hi) && lo < hi
    ensures free == [Block(lo, hi - lo)]
  {
    forall x
      ensures Has(free, x) <==> lo <= x < hi
    {
      assert !Has([], x);
    }
    assert Has(free, lo) && Has(free, hi - 1);
    Ends(free);
    if |free| > 1 {
      Gap(free);
    }
  }

  lemma Ends(free: seq<Block>)
    requires free != [] && NotEmpty(free)
    ensures Has(free, free[0].start) && Has(free, End(free[0]) - 1)
  {
    assert InBlock(free[0], free[0].start) && InBlock(free[0], End(free[0]) - 1);
  }

  /** Between the first two free blocks there is an address that is in none. */
  lemma Gap(free: seq<Block>)
    requires NotEmpty(free) && Apart(free) && |free| > 1
    ensures !Has(free, End(free[0])) && End(free[0]) < free[1].start && Has(free, free[1].start)
  {
    assert InBlock(free[1], free[1].start);
  }
}

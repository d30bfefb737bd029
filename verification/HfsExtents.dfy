/**
 Reading a fork of an HFS or HFS Plus file through its extents.

 A fork's first extents are in its catalog record; the others are in records of the same
 length in the extents tree, each found under the number of the fork's blocks before it.
 */
module HfsExtents {
  import opened Options
  import opened HfsNames
  import opened BlockCache
  import HfsBTree

  datatype Extent = Extent(start: nat, count: nat)

  /** The extents tree: records of extents by file, fork and first block. */
  datatype Overflow = Overflow(tree: HfsBTree.Tree<ExtentsKey, seq<Extent>>, root: nat, ghost height: nat, file: nat)

  /** A volume: its device, by handle, and where its allocation blocks start. */
  datatype Volume = Volume(disk: Disk, ih: nat, alloc: nat)

  /** Blocks of some extents together. */
  function Blocks(es: seq<Extent>): nat {
    if es == [] then 0 else Blocks(es[..|es| - 1]) + es[|es| - 1].count
  }

  /** HFS has 3 extents in a record, HFS Plus 8. */
  predicate Density(density: nat) { density == 3 || density == 8 }

  /** Which record an extent is in, and which of its extents it is. */
  function RecordOf(density: nat, e: nat): nat
    requires Density(density)
  {
    e / density
  }

  function IndexIn(density: nat, e: nat): (i: nat)
    requires Density(density)
    ensures i < density && i <= e
  {
    if density == 3 then e % 3 else e % 8
  }

  /** A fork: how many extents a record has, those in the catalog, the extents tree, and all
      its extents in order. */
  ghost predicate WellFormed(density: nat, inline: seq<Extent>, overflow: Overflow, all: seq<Extent>) {
    Density(density) && |inline| == density && |all| % density == 0 && |all| >= density && all[..density] == inline &&
    (|all| > density ==> HfsBTree.WellFormed(CompareExtents, overflow.tree, overflow.root, overflow.height)) &&
    forall k: nat :: density <= k < |all| && IndexIn(density, k) == 0 ==> RecordAt(density, overflow, all, k)
  }

  /** The tree has a record of the data fork under a first block. */
  ghost predicate HasRecord(o: Overflow, startBlock: nat, rec: seq<Extent>) {
    HfsBTree.Holds(o.tree, o.root, o.height, ExtentsKey(o.file, 0, startBlock), rec)
  }

  ghost predicate RecordAt(density: nat, overflow: Overflow, all: seq<Extent>, k: nat)
    requires k < |all|
  {
    k + density <= |all| && HasRecord(overflow, Blocks(all[..k]), all[k..k + density])
  }

  /** ReadExtentsEntry, for a record that the tree has. */
  method ReadExtentsEntry(o: Overflow, startBlock: nat, ghost rec: seq<Extent>) returns (r: seq<Extent>)
    requires HfsBTree.WellFormed(CompareExtents, o.tree, o.root, o.height) && HasRecord(o, startBlock, rec)
    ensures r == rec
  {
    hide HfsBTree.WellFormed, HfsBTree.Holds, TotalPreorder, CompareExtents;
    var key := ExtentsKey(o.file, 0, startBlock);
    ExtentsOrder();
    HfsBTree.FirstIsLeast(CompareExtents, o.tree, o.root, o.height, key, rec);
    var e := HfsBTree.ReadBTreeEntry(CompareExtents, o.tree, o.root, o.height, key);
    if e.Some? {
      ghost var k :| CompareExtents(key, k) == 0 && HfsBTree.Holds(o.tree, o.root, o.height, k, e.value);
      HfsBTree.OneRecord(CompareExtents, o.tree, o.root, o.height, key, rec, k, e.value);
    }
    r := if e.Some? then e.value else [];
  }

  /** The extent that has a block, and the blocks before it. */
  ghost predicate InExtent(all: seq<Extent>, e: nat, block: nat) {
    e < |all| && Blocks(all[..e]) <= block < Blocks(all[..e]) + all[e].count
  }

  /** The byte of the volume that a byte of the fork is. */
  ghost function Where(all: seq<Extent>, blockSize: nat, e: nat, offs: nat): int
    requires blockSize > 0 && e < |all|
  {
    (all[e].start + offs / blockSize - Blocks(all[..e])) * blockSize + offs % blockSize
  }

  /** A byte of the fork. */
  ghost predicate IsByte(all: seq<Extent>, blockSize: nat, vol: Volume, offs: nat, b: nat)
    requires blockSize > 0
  {
    exists e: nat :: InExtent(all, e, offs / blockSize) && Where(all, blockSize, e, offs) >= 0 &&
                b == vol.disk(vol.ih, vol.alloc + Where(all, blockSize, e, offs))
  }

  lemma {:induction false} BlocksGrow(all: seq<Extent>, i: nat, j: nat)
    requires i <= j <= |all|
    ensures Blocks(all[..i]) <= Blocks(all[..j])
  {
    if i < j {
      BlocksGrow(all, i, j - 1);
      BlocksNext(all, j - 1);
    }
  }

  lemma BlocksNext(all: seq<Extent>, i: nat)
    requires i < |all|
    ensures Blocks(all[..i + 1]) == Blocks(all[..i]) + all[i].count
  {
    assert all[..i + 1][..i] == all[..i];
  }

  /** A block is in one extent only. */
  lemma OneExtent(all: seq<Extent>, e: nat, f: nat, block: nat)
    requires InExtent(all, e, block) && InExtent(all, f, block)
    ensures e == f
  {
    if e < f {
      BlocksGrow(all, e + 1, f);
      BlocksNext(all, e);
    } else if f < e {
      BlocksGrow(all, f + 1, e);
      BlocksNext(all, f);
    }
  }

  /** The search for the extent of a block: the extents before it are counted, and an
      overflow record is read when its first extent is reached. */
  method FindExtent(density: nat, inline: seq<Extent>, overflow: Overflow, ghost all: seq<Extent>, block: nat,
                    next0: nat, counted0: nat, record0: nat, buf0: seq<Extent>)
    returns (next: nat, counted: nat, record: nat, buf: seq<Extent>, e: Extent)
    requires WellFormed(density, inline, overflow, all) && block < Blocks(all)
    requires next0 < |all| && counted0 == Blocks(all[..next0]) <= block && Loaded(density, all, next0, record0, buf0)
    ensures InExtent(all, next, block) && counted == Blocks(all[..next]) && e == all[next]
    ensures Loaded(density, all, next, record, buf)
  {
    hide RecordOf, IndexIn, HfsBTree.WellFormed, HasRecord;
    next, counted, record, buf := next0, counted0, record0, buf0;
    while true
      invariant next <= |all| && counted == Blocks(all[..next]) <= block
      invariant next < |all| ==> Loaded(density, all, next, record, buf)
      decreases |all| - next
    {
      AllCounted(all, next, block);
      InFirstRecord(density, next);
      BlocksNext(all, next);
      if next < density {
        assert inline[next] == all[next];
        if counted + inline[next].count - 1 < block {
          counted := counted + inline[next].count;
          StillLoaded(density, all, next, record, buf);
          next := next + 1;
        } else {
          return next, counted, record, buf, inline[next];
        }
      } else {
        if record != RecordOf(density, next) {
          assert RecordAt(density, overflow, all, next);
          buf := ReadExtentsEntry(overflow, counted, all[next..next + density]);
          record := RecordOf(density, next);
        }
        CurrentExtent(density, all, next, record, buf);
        var size := buf[IndexIn(density, next)].count;
        if counted + size - 1 >= block {
          return next, counted, record, buf, buf[IndexIn(density, next)];
        }
        counted := counted + size;
        StillLoaded(density, all, next, record, buf);
        next := next + 1;
      }
    }
  }

  /** The buffer has the record of the extent that is next, or that is next is the first of
      a record not yet read. */
  ghost predicate Loaded(density: nat, all: seq<Extent>, next: nat, record: nat, buf: seq<Extent>) {
    Density(density) &&
    var first := next - IndexIn(density, next);
    if record == RecordOf(density, next) then
      record > 0 ==> first + density <= |all| && buf == all[first..first + density]
    else IndexIn(density, next) == 0 && record + 1 == RecordOf(density, next)
  }

  lemma StillLoaded(density: nat, all: seq<Extent>, next: nat, record: nat, buf: seq<Extent>)
    requires Loaded(density, all, next, record, buf) && record == RecordOf(density, next)
    ensures Loaded(density, all, next + 1, record, buf)
  {
    hide RecordOf, IndexIn;
    NextIn(density, next);
  }

  lemma NextIn(density: nat, e: nat)
    requires Density(density)
    ensures if IndexIn(density, e + 1) == 0 then RecordOf(density, e + 1) == RecordOf(density, e) + 1
            else RecordOf(density, e + 1) == RecordOf(density, e) && IndexIn(density, e + 1) == IndexIn(density, e) + 1
  {
    if density == 3 {
    } else {
    }
  }

  lemma CurrentExtent(density: nat, all: seq<Extent>, next: nat, record: nat, buf: seq<Extent>)
    requires Loaded(density, all, next, record, buf) && record == RecordOf(density, next) && record > 0 && next < |all|
    ensures |buf| == density && buf[IndexIn(density, next)] == all[next]
  {
    hide RecordOf, IndexIn;
  }

  lemma InFirstRecord(density: nat, next: nat)
    requires Density(density)
    ensures next < density <==> RecordOf(density, next) == 0
  {
    if density == 3 {
    } else {
    }
  }

  lemma AllCounted(all: seq<Extent>, next: nat, block: nat)
    requires next <= |all| && Blocks(all[..next]) <= block < Blocks(all)
    ensures next < |all|
  {
    assert all[..|all|] == all;
  }

  // ------------------------------------------------------------------------- the read

  lemma DivBounds(x: nat, d: nat, c: nat, n: nat)
    requires d > 0 && c * d <= x < (c + n) * d
    ensures c <= x / d < c + n
  {
    var q, r := x / d, x % d;
    assert x == q * d + r;
    MulMinus(q + 1, q, d);
    MulMonotone(q + 1, c, d);
    MulMonotone(c + n, q, d);
  }

  lemma DivLess(x: nat, d: nat, n: nat)
    requires d > 0 && x < n * d
    ensures x / d < n
  {
    DivBounds(x, d, 0, n);
  }

  /** Within an extent, bytes of the fork follow each other on the volume. */
  lemma WhereIs(all: seq<Extent>, blockSize: nat, e: nat, offs: nat)
    requires blockSize > 0 && e < |all| &&
             Blocks(all[..e]) * blockSize <= offs < (Blocks(all[..e]) + all[e].count) * blockSize
    ensures InExtent(all, e, offs / blockSize)
    ensures Where(all, blockSize, e, offs) == all[e].start * blockSize + offs - Blocks(all[..e]) * blockSize
  {
    var c, q := Blocks(all[..e]), offs / blockSize;
    DivBounds(offs, blockSize, c, all[e].count);
    assert offs == q * blockSize + offs % blockSize;
    assert (all[e].start + q - c) * blockSize == all[e].start * blockSize + q * blockSize - c * blockSize;
  }

  lemma ByteAt(all: seq<Extent>, blockSize: nat, vol: Volume, e: nat, offs: nat)
    requires blockSize > 0 && e < |all| &&
             Blocks(all[..e]) * blockSize <= offs < (Blocks(all[..e]) + all[e].count) * blockSize
    ensures var at := all[e].start * blockSize + offs - Blocks(all[..e]) * blockSize;
            IsByte(all, blockSize, vol, offs, vol.disk(vol.ih, vol.alloc + at))
  {
    hide Where, InExtent;
    WhereIs(all, blockSize, e, offs);
    assert InExtent(all, e, offs / blockSize);
  }

  /** A byte of the fork is one byte of the volume. */
  lemma OneByte(all: seq<Extent>, blockSize: nat, vol: Volume, offs: nat, a: nat, b: nat)
    requires blockSize > 0 && IsByte(all, blockSize, vol, offs, a) &&
             IsByte(all, blockSize, vol, offs, b)
    ensures a == b
  {
    hide Where;
    var e: nat :| InExtent(all, e, offs / blockSize) && Where(all, blockSize, e, offs) >= 0 &&
                  a == vol.disk(vol.ih, vol.alloc + Where(all, blockSize, e, offs));
    var f: nat :| InExtent(all, f, offs / blockSize) && Where(all, blockSize, f, offs) >= 0 &&
                  b == vol.disk(vol.ih, vol.alloc + Where(all, blockSize, f, offs));
    OneExtent(all, e, f, offs / blockSize);
  }

  /** The bytes of the fork from an offset. */
  ghost predicate AreBytes(all: seq<Extent>, blockSize: nat, vol: Volume, offs: nat, buf: seq<nat>)
    requires blockSize > 0
  {
    forall i: nat :: i < |buf| ==> IsByte(all, blockSize, vol, offs + i, buf[i])
  }

  lemma MoreBytes(all: seq<Extent>, blockSize: nat, vol: Volume, offs: nat, a: seq<nat>, b: seq<nat>)
    requires blockSize > 0 && AreBytes(all, blockSize, vol, offs, a) &&
             AreBytes(all, blockSize, vol, offs + |a|, b)
    ensures AreBytes(all, blockSize, vol, offs, a + b)
  {
    hide IsByte;
    forall i: nat | i < |a + b|
      ensures IsByte(all, blockSize, vol, offs + i, (a + b)[i])
    {
      if i >= |a| {
        assert IsByte(all, blockSize, vol, offs + |a| + (i - |a|), b[i - |a|]);
      }
    }
  }

  /** One read from one extent. */
  lemma ReadPart(all: seq<Extent>, blockSize: nat, vol: Volume, e: nat, offs: nat, n: nat)
    requires blockSize > 0 && e < |all| && Blocks(all[..e]) * blockSize <= offs &&
             offs + n <= (Blocks(all[..e]) + all[e].count) * blockSize
    ensures var at := all[e].start * blockSize + offs - Blocks(all[..e]) * blockSize;
            AreBytes(all, blockSize, vol, offs, DiskRead(vol.disk, vol.ih, vol.alloc + at, n))
  {
    hide IsByte;
    var at := all[e].start * blockSize + offs - Blocks(all[..e]) * blockSize;
    var buf := DiskRead(vol.disk, vol.ih, vol.alloc + at, n);
    forall i: nat | i < |buf|
      ensures IsByte(all, blockSize, vol, offs + i, buf[i])
    {
      ByteAt(all, blockSize, vol, e, offs + i);
    }
  }

  /** The arithmetic of one round: where in the extent to read, and how much it has left. */
  lemma InExtentBytes(blockSize: nat, offs: nat, counted: nat, count: nat)
    requires blockSize > 0 && counted <= offs / blockSize < counted + count
    ensures (offs / blockSize - counted) * blockSize + offs % blockSize == offs - counted * blockSize
    ensures counted * blockSize <= offs < (counted + count) * blockSize
    ensures count * blockSize - (offs - counted * blockSize) == (counted + count) * blockSize - offs
  {
    var q := offs / blockSize;
    assert offs == q * blockSize + offs % blockSize;
    MulMinus(q, counted, blockSize);
    MulMinus(counted + count, counted, blockSize);
    MulMinus(q + 1, q, blockSize);
    MulMonotone(q + 1, counted + count, blockSize);
    MulMonotone(counted, q, blockSize);
  }

  lemma MulMinus(a: int, b: int, d: int)
    ensures (a - b) * d == a * d - b * d
  {
  }

  lemma MulMonotone(a: int, b: int, d: nat)
    ensures a <= b ==> a * d <= b * d
  {
  }

  /** ReadExtent, for a request inside the fork: exactly the fork's bytes, whatever the
      cache of blocks holds and whether or not it is used. */
  method ReadExtent(density: nat, inline: seq<Extent>, overflow: Overflow, ghost all: seq<Extent>, extentSize: nat,
                    blockSize: nat, vol: Volume, offset: nat, size: nat, blocks: Cache, cached: bool)
    returns (buf: seq<nat>)
    requires WellFormed(density, inline, overflow, all) && blockSize > 0
    requires blocks.Valid() && blocks.disk == vol.disk && vol.ih != 0
    requires offset < extentSize ==> offset + size <= extentSize <= Blocks(all) * blockSize
    modifies blocks
    ensures blocks.Valid()
    ensures offset >= extentSize ==> buf == []
    ensures offset < extentSize ==> |buf| == size && AreBytes(all, blockSize, vol, offset, buf)
  {
    hide WellFormed, IsByte, InExtent, Loaded, AreBytes, Blocks, EntriesOk;
    buf := [];
    if offset >= extentSize {
      return;
    }
    var offs := offset;
    var next: nat, counted: nat, record: nat, extents: seq<Extent> := 0, 0, 0, [];
    Start(density, inline, overflow, all, blockSize, vol, offset);
    while offs < offset + size
      invariant offs == offset + |buf| <= offset + size && AreBytes(all, blockSize, vol, offset, buf)
      invariant next < |all| && counted == Blocks(all[..next]) && counted <= offs / blockSize
      invariant Loaded(density, all, next, record, extents) && blocks.Valid()
    {
      var block, e := offs / blockSize, Extent(0, 0);
      DivLess(offs, blockSize, Blocks(all));
      next, counted, record, extents, e :=
        FindExtent(density, inline, overflow, all, block, next, counted, record, extents);
      InExtentParts(all, next, block);
      InExtentBytes(blockSize, offs, counted, e.count);
      var readOffset := (block - counted) * blockSize + offs % blockSize;
      var readSize := e.count * blockSize - readOffset;
      if readSize > size - |buf| {
        readSize := size - |buf|;
      }
      readOffset := readOffset + e.start * blockSize;
      ReadPart(all, blockSize, vol, next, offs, readSize);
      var part := blocks.Read(vol.ih, vol.alloc + readOffset, readSize, cached);
      MoreBytes(all, blockSize, vol, offset, buf, part);
      buf := buf + part;
      Later(offs, offs + readSize, blockSize);
      offs := offs + readSize;
    }
  }

  lemma Later(a: nat, b: nat, d: nat)
    requires a <= b && d > 0
    ensures a / d <= b / d
  {
    var q, p := a / d, b / d;
    assert a == q * d + a % d && b == p * d + b % d;
    MulMonotone(p + 1, q, d);
    MulMinus(p + 1, p, d);
  }

  lemma InExtentParts(all: seq<Extent>, e: nat, block: nat)
    requires InExtent(all, e, block)
    ensures e < |all| && Blocks(all[..e]) <= block < Blocks(all[..e]) + all[e].count
  {
  }

  lemma Start(density: nat, inline: seq<Extent>, overflow: Overflow, all: seq<Extent>,
              blockSize: nat, vol: Volume, offset: nat)
    requires WellFormed(density, inline, overflow, all) && blockSize > 0
    ensures 0 < |all| && Blocks(all[..0]) == 0 && Loaded(density, all, 0, 0, []) &&
            AreBytes(all, blockSize, vol, offset, [])
  {
  }
}

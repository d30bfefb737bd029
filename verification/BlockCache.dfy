/** The boot loader's cache of file system blocks. */
module BlockCache {

  /** Bytes of a device, by its handle and an offset.  The device does not change. */
  type Disk = (nat, int) -> nat

  const CACHE_SIZE := 0x8_0000
  const MIN_BLOCK_SIZE := 0x200
  const MAX_BLOCK_SIZE := 0x4000

  /** An entry of the cache: the handle, 0 for none, the time of its last use, the offset
      of its block, and the block. */
  datatype Entry = Entry(ih: nat, time: int, offset: int, data: seq<nat>)

  function DiskRead(disk: Disk, ih: nat, offset: int, n: nat): seq<nat> {
    seq(n, i requires 0 <= i < n => disk(ih, offset + i))
  }

  ghost predicate Used(e: Entry) { e.ih != 0 }

  /** When a block was last asked for: how many requests had been made by then. */
  ghost function LastUse(history: seq<int>, offset: int): (n: nat)
    ensures n <= |history| && (n > 0 ==> history[n - 1] == offset)
  {
    if history == [] then 0
    else if history[|history| - 1] == offset then |history|
    else LastUse(history[..|history| - 1], offset)
  }

  /** An entry in use holds a block of the device and the time of its last use. */
  ghost predicate EntryOk(e: Entry, ih: nat, blockSize: nat, history: seq<int>, disk: Disk) {
    && e.ih == ih && e.data == DiskRead(disk, ih, e.offset, blockSize)
    && e.time == LastUse(history, e.offset) && e.time > 0
  }

  ghost predicate EntriesOk(es: seq<Entry>, ih: nat, blockSize: nat, history: seq<int>, disk: Disk) {
    (forall i :: 0 <= i < |es| && Used(es[i]) ==> EntryOk(es[i], ih, blockSize, history, disk)) &&
    (forall i, j :: 0 <= i < j < |es| && Used(es[i]) && Used(es[j]) ==> es[i].offset != es[j].offset)
  }

  /** An entry holds a block. */
  ghost predicate Holds(es: seq<Entry>, i: int, ih: nat, offset: int) {
    0 <= i < |es| && es[i].ih == ih && es[i].offset == offset
  }

  /** The block that was least recently used, of a full cache. */
  ghost predicate LeastRecent(es: seq<Entry>, history: seq<int>, v: nat) {
    v < |es| && forall j :: 0 <= j < |es| ==>
      Used(es[j]) && (j != v ==> LastUse(history, es[v].offset) < LastUse(history, es[j].offset))
  }

  /** The entry that a block is put into: the first free one, else the least recently used. */
  ghost predicate Placed(es: seq<Entry>, history: seq<int>, v: nat) {
    v < |es| && if Used(es[v]) then LeastRecent(es, history, v) else forall j :: 0 <= j < v ==> Used(es[j])
  }

  lemma LastUseGrows(history: seq<int>, x: int, offset: int)
    ensures LastUse(history + [x], offset) == if x == offset then |history| + 1 else LastUse(history, offset)
  {
    assert (history + [x])[..|history|] == history;
  }

  /** Blocks last used at the same time are the same. */
  lemma TimesDiffer(es: seq<Entry>, ih: nat, blockSize: nat, history: seq<int>, disk: Disk)
    requires EntriesOk(es, ih, blockSize, history, disk)
    ensures forall i, j :: 0 <= i < j < |es| && Used(es[i]) && Used(es[j]) ==> es[i].time != es[j].time
  {
    forall i, j | 0 <= i < j < |es| && Used(es[i]) && Used(es[j])
      ensures es[i].time != es[j].time
    {
      assert EntryOk(es[i], ih, blockSize, history, disk) && EntryOk(es[j], ih, blockSize, history, disk);
    }
  }

  /** A request makes an entry current; the others keep their time. */
  lemma EntrySet(es: seq<Entry>, ih: nat, blockSize: nat, history: seq<int>, disk: Disk, v: nat, offset: int)
    requires EntriesOk(es, ih, blockSize, history, disk) && v < |es| && ih != 0
    requires forall i :: 0 <= i < |es| && i != v && Used(es[i]) ==> es[i].offset != offset
    ensures var es2 := es[v := Entry(ih, |history| + 1, offset, DiskRead(disk, ih, offset, blockSize))];
            EntriesOk(es2, ih, blockSize, history + [offset], disk)
  {
    var es2 := es[v := Entry(ih, |history| + 1, offset, DiskRead(disk, ih, offset, blockSize))];
    forall i | 0 <= i < |es2| && Used(es2[i])
      ensures EntryOk(es2[i], ih, blockSize, history + [offset], disk)
    {
      LastUseGrows(history, offset, es2[i].offset);
    }
  }

  class Cache {
    const disk: Disk
    var ih: nat
    var blockSize: nat
    var time: int
    var entries: seq<Entry>

    /** The cacheable requests since the cache was set up. */
    ghost var history: seq<int>

    ghost predicate Valid()
      reads this
    {
      time == |history| && EntriesOk(entries, ih, blockSize, history, disk) &&
      (ih != 0 ==> |entries| >= 2 && blockSize > 0)
    }

    constructor (d: Disk)
      ensures Valid() && disk == d && ih == 0
    {
      disk := d;
      ih, blockSize, time, entries, history := 0, 0, 0, [], [];
    }

    /** CacheInit: a block size out of range changes nothing. */
    method Init(newIh: nat, newBlockSize: nat)
      requires Valid()
      modifies this
      ensures Valid()
      ensures if MIN_BLOCK_SIZE <= newBlockSize < MAX_BLOCK_SIZE
              then ih == newIh && blockSize == newBlockSize && |entries| == CACHE_SIZE / blockSize &&
                   forall i :: 0 <= i < |entries| ==> !Used(entries[i])
              else ih == old(ih) && blockSize == old(blockSize) && entries == old(entries) && history == old(history)
    {
      if newBlockSize < MIN_BLOCK_SIZE || newBlockSize >= MAX_BLOCK_SIZE {
        return;
      }
      var n := CACHE_SIZE / newBlockSize;
      EnoughEntries(newBlockSize);
      ih, blockSize, time, history := newIh, newBlockSize, 0, [];
      entries := seq(n, _ => Entry(0, 0, 0, []));
    }

    /** The entry that holds a block, the number of entries when none does. */
    method Find(h: nat, offset: int) returns (i: nat)
      requires h != 0
      ensures i <= |entries|
      ensures if i < |entries| then entries[i].ih == h && entries[i].offset == offset
              else forall j :: 0 <= j < |entries| && entries[j].ih == h ==> entries[j].offset != offset
    {
      i := 0;
      while i < |entries| && !(entries[i].ih == h && entries[i].offset == offset)
        invariant i <= |entries| && forall j :: 0 <= j < i && entries[j].ih == h ==> entries[j].offset != offset
      {
        i := i + 1;
      }
    }

    /** The entry to load a block into. */
    method Victim() returns (v: nat)
      requires Valid() && ih != 0
      ensures Placed(entries, history, v)
    {
      hide EntryOk;
      TimesDiffer(entries, ih, blockSize, history, disk);
      TimesKnown(entries, ih, blockSize, history, disk);
      var oldest, oldestTime := 0, time;
      v := 0;
      while v < |entries| && entries[v].ih != 0
        invariant v <= |entries| && (forall j :: 0 <= j < v ==> Used(entries[j])) && oldestTime <= time
        invariant oldest < |entries|
        invariant if oldestTime == time then oldest == 0 && forall j :: 0 <= j < v ==> entries[j].time == time
                  else oldest < v && entries[oldest].time == oldestTime &&
                       forall j :: 0 <= j < v ==> oldestTime <= entries[j].time
      {
        if entries[v].time < oldestTime {
          oldest, oldestTime := v, entries[v].time;
        }
        v := v + 1;
      }
      if v == |entries| {
        v := oldest;
      }
    }

    /** CacheRead, with a nonzero handle: returns what a read of the device returns.  A
        cacheable block ends up in the cache; loading it takes the place of the least
        recently used block when no entry is free. */
    method Read(h: nat, offset: int, length: nat, cache: bool) returns (buf: seq<nat>)
      requires Valid() && h != 0
      modifies this
      ensures Valid() && buf == DiskRead(disk, h, offset, length) && ih == old(ih) && blockSize == old(blockSize)
      ensures if !(cache && old(ih) == h && length == old(blockSize)) then entries == old(entries) &&
              history == old(history)
              else history == old(history) + [offset] &&
                   exists v: nat :: v < |old(entries)| &&
                     entries == old(entries)[v := Entry(h, |history|, offset, buf)] &&
                     if exists i :: Holds(old(entries), i, h, offset) then Holds(old(entries), v, h, offset)
                     else Placed(old(entries), old(history), v)
    {
      hide Placed, LastUse;
      if cache && ih == h && length == blockSize {
        var v := Find(h, offset);
        if v < |entries| {
          HeldBlock(entries, ih, blockSize, history, disk, v);
          buf := entries[v].data;
          EntrySet(entries, ih, blockSize, history, disk, v, offset);
        } else {
          buf := DiskRead(disk, h, offset, length);
          v := Victim();
          PlacedInside(entries, history, v);
          EntrySet(entries, ih, blockSize, history, disk, v, offset);
        }
        time, history := time + 1, history + [offset];
        entries := entries[v := Entry(h, time, offset, buf)];
        assert Holds(old(entries), v, h, offset) || Placed(old(entries), old(history), v);
        return;
      }
      buf := DiskRead(disk, h, offset, length);
    }
  }

  lemma TimesKnown(es: seq<Entry>, ih: nat, blockSize: nat, history: seq<int>, disk: Disk)
    requires EntriesOk(es, ih, blockSize, history, disk)
    ensures forall i :: 0 <= i < |es| && Used(es[i]) ==>
              0 < es[i].time <= |history| && es[i].time == LastUse(history, es[i].offset)
  {
    forall i | 0 <= i < |es| && Used(es[i])
      ensures 0 < es[i].time <= |history| && es[i].time == LastUse(history, es[i].offset)
    {
      assert EntryOk(es[i], ih, blockSize, history, disk);
    }
  }

  lemma HeldBlock(es: seq<Entry>, ih: nat, blockSize: nat, history: seq<int>, disk: Disk, v: nat)
    requires EntriesOk(es, ih, blockSize, history, disk) && v < |es| && Used(es[v])
    ensures es[v].data == DiskRead(disk, ih, es[v].offset, blockSize)
    ensures forall i :: 0 <= i < |es| && i != v && Used(es[i]) ==> es[i].offset != es[v].offset && es[i].ih == ih
  {
    assert EntryOk(es[v], ih, blockSize, history, disk);
    forall i | 0 <= i < |es| && i != v && Used(es[i])
      ensures es[i].offset != es[v].offset && es[i].ih == ih
    {
      assert EntryOk(es[i], ih, blockSize, history, disk);
    }
  }

  lemma PlacedInside(es: seq<Entry>, history: seq<int>, v: nat)
    requires Placed(es, history, v)
    ensures v < |es|
  {
  }

  lemma EnoughEntries(blockSize: nat)
    requires 0 < blockSize < MAX_BLOCK_SIZE
    ensures CACHE_SIZE / blockSize >= 32
  {
    var q := CACHE_SIZE / blockSize;
    assert CACHE_SIZE == q * blockSize + CACHE_SIZE % blockSize;
    Product(q, blockSize);
  }

  lemma Product(q: nat, d: nat)
    ensures q < 32 && d < MAX_BLOCK_SIZE ==> q * d + d <= 32 * d
  {
  }
}

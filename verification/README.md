# Mac-on-Linux, verified models

This project models the parts of Mac-on-Linux (MOL) whose correctness rests on invariants
that no single function shows, and proves what they promise.

* **The PTE reverse map** (`ReverseMap`, `PteRingShapes`, `PteMem`, `PteTables`,
  `PteRings`, `PteSystem`).  The kernel module enters PTEs into the host's hash table and
  keeps records from which each can be found again, by guest address or by Linux page.
  `ReverseMap` treats the records as a plain map and follows every run of the insertion
  protocol interleaved with Linux tearing pages down.  No translation outlives its page as
  long as four rules are kept.  Ranges are registered in whole pages and do not overlap.
  Linux does not report the page of an insertion in flight that has gone stale by another
  address than its first.  `get_phys_page` does not take its `bad_area` exit, unless the
  insertion is lost in any case.  No PTE is stored for an address that another slot
  translates.  For each of the four there is a run that breaks the property and keeps the
  other three.  `PteRings` keeps the same map in rings that are
  edited in place, and ties every method to the functions of `ReverseMap`.  `PteSystem`
  shows that the operations on the rings are the steps of that machine, so that the
  theorem holds of the rings.
* **Hashed page tables** (`PteHash`).  Choosing a slot in the host's table, finding a PTE in
  the guest's table, rebuilding its address from the table, and deriving the table from SDR1.
* **VSIDs** (`Contexts`) and the **skiplist** that indexes them (`SkipListShapes`,
  `SkipList`, `SkipListOrder`).
* **The asynchronous block driver** (`BlockRequest`, `BlockRing`, `BlockOrder`, `RingLock`,
  `ListQueue`).  The ring between the Mac driver and MOL's I/O thread, the driver's counting
  lock, and its queues, each as a state machine whose steps are the accesses to shared
  memory, in any order the threads and the interrupt can bring about.  The two stores that
  reserve the overflow buffer are separate steps; filling in a slot that the other side
  does not look at yet, together with the completion queue, is one.
* **The boot loader**: its allocator (`BootBlocks`, `BootHeap`), its HFS and HFS Plus
  reader (`HfsNames`, `HfsBTree`, `HfsCatalog`, `HfsExtents`, `Utf8`, `BlockCache`), and the
  rewriting of privileged instructions (`Ppc`, `InstRewrite`, `InstPasses`,
  `InstMeaning`).
* **Address translation** (`IoTranslation`): the block table and the list of I/O pages.

Objects that the source updates in place are classes whose methods are proved against
functions of the old state; loops are loops with invariants.  Large predicates are hidden
with `hide` where a proof does not need them.

Numbers are unbounded unless the source's width matters.  Where it does, words are `bv32`
(`PteHash`, `Ppc`, `InstRewrite`, `InstPasses`, `InstMeaning`) or the wrap is written out (`Contexts`,
`IoTranslation`, `BlockOrder.WrappedComparison`).

## Where the code and its own words differ

* `mac-drivers/shared/queue.h` says that `fifo_get` is always safe, and also that
  `dequeue_first`, which it stands for, needs a lock.  `ListQueue.FirstNeedsLock` is a run
  from the empty queue in which two calls overlap and an element is handed out twice.  With
  any number of enqueues, but no two calls of `dequeue_first` at once, the list is always
  the queue (`ListQueue.RunInv`).
* The driver reserves its overflow buffer in two stores, the count and then the completion
  number.  An interrupt between them compares with the number of the last use and frees the
  buffer again, and then two requests can share it (`BlockOrder.OverflowShared`).  The
  buffer stays reserved while it is used if and only if no interrupt comes in between
  (`BlockOrder.ReservedIff`).
* The comment on `get_phys_page` says that it never fails.  For an address without a vma it
  returns 0, and `insert_pte` enters and records a PTE for physical page 0
  (`ReverseMap.BadAreaRun`); `ReverseMap.BadAreaBreaks` says exactly when that is left in
  the table.
* `flush_all_PTEs` is to clear the PTEs of a session.  It compares a context number without
  its segment bits to bounds that have them, so it clears none (`Contexts.NeverSwept`).
* `utf_encodestr` is given the size of its buffer, and writes the terminating NUL one byte
  past it exactly when some leading characters fill it (`Utf8.EncodeString`).
* The loop in `get_physical_segment` that joins contiguous pages never advances along the
  table, so it joins two at most.  The segments still cover the transfer
  (`BlockRequest.DescsTile`).
* `mac-drivers/blk_driver/src/main.c` leaves the flags of ring element 0 clear; MOL sets
  them when the channel is started, as `mac-drivers/shared/ablk_sh.h` allows.  The runs of
  `BlockOrder` start there.
* `malloc_init` does not take its tables off the size it is given.  The region of
  `BootHeap` is the one it installs.
* Neighbouring sessions share sixteen contexts (`Contexts.SharedContexts`).
* Ranges of Linux addresses may be registered over each other.  `flush_lvptr` goes to the
  range registered last, and misses records entered through another: with ranges of page
  0x1000 registered twice, a PTE entered through the first outlives the page
  (`ReverseMap.OverlapBreaks`).  A flush leaves no record of a page, whatever the records
  are, if and only if one registered range at most holds the address
  (`ReverseMap.FlushLeavesNoneIff`).
* `flush_lvptr` flushes the page of any address, but a reservation is lost only for the very
  address that was reserved (`ReverseMap.UnalignedFlushBreaks`).  When a page is reported
  between the store of its PTE and the commit, the property holds afterwards if and only if
  the address was the first of the page, or the PTE is the one Linux has now, or the flush
  has cleared its slot and its TLB entry through other records
  (`ReverseMap.FlushStoredIff`); between the mark and the store there is nothing yet to
  clear (`ReverseMap.FlushMarkedIff`).
* `find_pte_slot` can return a slot although another translates the address, when it is told
  that there is no PTE.  The record of the address then names the new slot, and the old PTE
  outlives its page (`ReverseMap.DuplicateBreaks`).  `PteHash.HostHash.InsertPte` says
  exactly when that happens.

## Model

| member | source | states |
|---|---|---|
| ReverseMap.FlushTwice | mol-kernel-merge/mtable.c:129-187 | two flushes one after the other are one flush of the union of their records |
| ReverseMap.FlushKeeps | mol-kernel-merge/mtable.c:129-278 | a flush that drops some records and clears the slots they name leaves every remaining translation with its record |
| ReverseMap.FlushLeavesNoneIff | mol-kernel-merge/mtable.c:238-278 | a flush of an address leaves no record of its page, whatever the records, if and only if at most one registered range holds the address |
| ReverseMap.LocateOwnRange | mol-kernel-merge/mtable.c:238-250 | an address is looked up in a range that holds it if and only if no range registered later holds it |
| ReverseMap.FlushLvEmpties | mol-kernel-merge/mtable.c:238-278 | where ranges do not overlap, after flush_lvptr of any address of a page no slot and no TLB entry maps the page, but for the slot of an insertion that has not committed |
| ReverseMap.FlushEaEmpties | mol-kernel-merge/mtable.c:129-198 | after flush_vsid_ea no slot and no TLB entry translates the address under either Linux VSID of the entry |
| ReverseMap.UnrecordedEntIsUnused | mol-kernel-merge/mtable.c:761-806 | a VSID entry without records has no translation left, so reclaiming it loses none |
| ReverseMap.RegisterKeeps | mol-kernel-merge/mtable.c:812-845 | registering a range of whole pages that overlaps none leaves every record on the ring that a flush of its page goes to |
| ReverseMap.FreeRangeKeeps | mol-kernel-merge/mtable.c:847-869 | freeing a range leaves no translation of its pages, and every other one on its ring |
| ReverseMap.StepKeeps | mol-kernel-merge/fault.c:499-535 | every step of the insertion, of the flushes, of the ranges and of Linux that keeps the four rules keeps the invariant |
| ReverseMap.NoTranslationOutlivesItsPage | mol-kernel-merge/fault.c:53-115 | over every interleaving of reserve, mark, store and commit with teardown, flush by any address, ranges and vmas that keeps the four rules, with no insertion in flight, every translation of a page that has no flush outstanding is the one Linux has now |
| ReverseMap.OverlapBreaks | mol-kernel-merge/mtable.c:238-250 | a run that keeps the other rules, with two ranges over one page, in which a translation outlives its page although Linux has reported it |
| ReverseMap.UnalignedFlushBreaks | mol-kernel-merge/mtable.c:281-289 | a run that keeps the other rules, in which Linux reports a page by another of its addresses before the commit, and the translation outlives the page |
| ReverseMap.FlushStoredIff | mol-kernel-merge/mtable.c:281-289 | the page of a PTE that is stored and not yet recorded is reported by any of its addresses: after the commit no translation outlives its page if and only if the address is the first of the page, or the PTE is the one Linux has now, or records on the ring of the address name its slot and agree in its TLB bits, as far as it is in the table and in the TLB |
| ReverseMap.FlushMarkedIff | mol-kernel-merge/mtable.c:281-289 | the same before the store: if and only if the address is the first of the page or the frame is the one Linux has now |
| ReverseMap.FlushBetweenStores | mol-kernel-merge/mtable.h:49-53 | a flush between the two stores of a reservation comes to the same as one before them |
| ReverseMap.DuplicateBreaks | mol-kernel-merge/fault.c:393-453 | a run that keeps the other rules, with a second PTE of an address, in which the first outlives its page |
| ReverseMap.OnePteIff | mol-kernel-merge/mtable.c:597-666 | storing and recording a PTE leaves every slot with a record that names it if and only if no other slot translates the address |
| ReverseMap.BadAreaRun | mol-kernel-merge/fault.c:92-115 | a run that keeps the other rules, in which an address has no vma, and a PTE for frame 0 stays in the table |
| ReverseMap.BadAreaBreaks | mol-kernel-merge/fault.c:92-115 | after the bad_area exit, the store and the commit, the property holds if and only if the reservation was lost before or a flush of the page is outstanding |
| ReverseMap.EveryPteIsRecorded | mol-kernel-merge/mtable.c:597-666 | over the same runs, with no insertion in flight, each valid slot has a record with its index and its address, on the ring that a flush of its page goes to |
| ReverseMap.StoredFrame | mol-kernel-merge/fault.c:499-533 | what is stored is the address of the insertion with the frame looked up for its Linux page, or with the physical frame when it has none |
| ReverseMap.PhysicalFrameKept | mol-kernel-merge/fault.c:499-533 | over every run: a slot without a Linux page keeps the address and the frame it was stored with until it is cleared or stored to again |
| PteMem.PageSplits | mol-kernel-merge/mtable.c:597-666 | the three index fields of an address make up its page index again |
| PteRings.PteTable.constructor | mol-kernel-merge/mtable.c:878-898 | an empty table is valid and records nothing |
| PteRings.PteTable.EaNeighbours | mol-kernel-merge/mtable.c:200-236 | the walk round an ea ring ends, and returns the pelist slot that closes the ring and the node before the record |
| PteRings.PteTable.LvHeadOf | mol-kernel-merge/mtable.c:546-595 | the walk round an lv ring ends at its head record |
| PteRings.PteTable.LvPrevFrom | mol-kernel-merge/mtable.c:546-595 | the walk from the head ends at the node before the record |
| PteRings.PteTable.PentFlushUnlinkEa | mol-kernel-merge/mtable.c:200-236 | the record leaves its ring, its slot is cleared and its address, rebuilt from where the record was, is invalidated |
| PteRings.PteTable.FlushVsidEa | mol-kernel-merge/mtable.c:129-187 | acts on the map as a flush of the records of the address, and keeps all rings well-formed |
| PteRings.PteTable.FlushEaRing | mol-kernel-merge/mtable.c:129-187 | the walk of a ring that is being edited visits every record once and drops exactly those of the address |
| PteRings.PteTable.FlushLvHead | mol-kernel-merge/mtable.c:238-278 | drops every record of a page, head and members, and leaves the head idle and alone |
| PteRings.PteTable.FlushLvptrLocked | mol-kernel-merge/mtable.c:238-278 | acts as a flush of the page that the first matching range gives the address |
| PteRings.PteTable.FlushLvptr | mol-kernel-merge/mtable.c:281-289 | the same, and a reservation of the very address is lost; if one registered range at most holds the address, no record of its page is left; the free list does not become empty |
| PteRings.PteTable.FlushLvRange | mol-kernel-merge/mtable.c:291-299 | acts as a flush of every page of the range, a last partial one included |
| PteRings.PteTable.FlushEaRange | mol-kernel-merge/mtable.c:301-343 | acts as a flush of the pages of the range in every entry |
| PteRings.PteTable.FlushVsid | mol-kernel-merge/mtable.c:345-377 | every record of the entry goes, then its level-2 tables, all of whose heads are NULL |
| PteRings.PteTable.FreeTable | mol-kernel-merge/mtable.c:345-377 | a table is freed only with 32 NULL heads |
| PteRings.PteTable.FreeChunks | mol-kernel-merge/mtable.c:405-422 | when all chunks go, nothing that stays refers into them |
| PteRings.PteTable.GetFreePent | mol-kernel-merge/mtable.c:434-468 | a new record is the idle head of its page or comes off the free list and joins the page's ring |
| PteRings.PteTable.Lev2Alloc | mol-kernel-merge/mtable.c:470-495 | a chunk of tables joins the free tables |
| PteRings.PteTable.PentAlloc | mol-kernel-merge/mtable.c:497-519 | a chunk of records joins the free list |
| PteRings.PteTable.MemoryCheck | mol-kernel-merge/mtable.c:521-539 | when it succeeds both free lists are non-empty, which is what the next insertion requires |
| PteRings.PteTable.RelinkLv | mol-kernel-merge/mtable.c:546-595 | the record moves to the ring of another page; of the map only the page of its entry changes |
| PteRings.PteTable.PteInserted | mol-kernel-merge/mtable.c:597-666 | commits the PTE to the map, or, when the reservation is lost, clears its slot and records nothing |
| PteRings.PteTable.FindRecord | mol-kernel-merge/mtable.c:597-666 | finds the record of an address exactly when the map has one |
| PteRings.PteTable.AllocVsidEnt | mol-kernel-merge/mtable.c:687-704 | a new entry has no records and no tables; everything is cleared first when the contexts wrap; NULL exactly when a chunk is needed and not to be had |
| PteRings.PteTable.ClearAllVsids | mol-kernel-merge/mtable.c:706-731 | every record goes and every lv ring is a lone unused head, so nothing refers into the chunks freed |
| PteRings.PteTable.Reclaim | mol-kernel-merge/mtable.c:761-806 | drops exactly the entries that have no record and that nothing refers to |
| PteRings.PteTable.RegisterLvrange | mol-kernel-merge/mtable.c:812-845 | every page of the range gets an idle head, the map stays |
| PteRings.PteTable.FreeLvrange | mol-kernel-merge/mtable.c:847-869 | a range that no later one overlaps goes with all records of its pages |
| PteSystem.PteSystem.NoPteOutlivesItsPage | mol-kernel-merge/fault.c:53-115 | for the rings, after any sequence of the calls below and of steps of Linux that keeps the four rules: every translation of a page that has no flush outstanding is the one Linux has now |
| PteSystem.PteSystem.FlushInFlightIff | mol-kernel-merge/mtable.c:281-289 | for the rings after such a sequence, with a PTE stored and not yet recorded: after a flush of any address of its page and the commit the property holds exactly under the condition of ReverseMap.FlushStoredIff |
| PteSystem.SlotKeepsRule | mol-kernel-merge/fault.c:393-453 | a slot of the host's table keeps the rule of one PTE for an address if and only if no other slot of the table translates the address |
| PteSystem.PteSystem.FlushLeavesPageUnmapped | mol-kernel-merge/mtable.c:238-278 | for the rings after such a sequence: a flush of an address leaves its page mapped by no slot and no TLB entry, but for an insertion in flight |
| PteSystem.PteSystem.constructor | mol-kernel-merge/mtable.c:878-898 | the rings start in the first state of the machine |
| PteSystem.PteSystem.MakeLvptrReservation | mol-kernel-merge/mtable.h:49-53 | is the two stores of the reservation, one after the other |
| PteSystem.PteSystem.StorePte | mol-kernel-merge/fault.c:533 | is the store step, of the PTE the insertion has come to |
| PteSystem.PteSystem.PteInserted | mol-kernel-merge/mtable.c:597-666 | on the rings is the commit step of the machine |
| PteSystem.PteSystem.FlushLvptr | mol-kernel-merge/mtable.c:281-289 | on the rings is the flush step, for every address |
| PteSystem.PteSystem.FlushVsidEa | mol-kernel-merge/mtable.c:129-198 | on the rings is the flush of a guest address |
| PteSystem.PteSystem.FlushEaRange | mol-kernel-merge/mtable.c:301-343 | is a series of flushes of guest addresses of the range, after which no entry has a record of one |
| PteSystem.PteSystem.FlushLvRange | mol-kernel-merge/mtable.c:291-299 | is a flush of the ring of each page of the range, in order, none of which breaks a reservation |
| PteSystem.PteSystem.FlushVsid | mol-kernel-merge/mtable.c:345-377 | on the rings is the flush of an entry |
| PteSystem.PteSystem.AllocVsidEnt | mol-kernel-merge/mtable.c:687-704 | is the clearing of everything, if the contexts wrap, and then the new entry, if there is memory |
| PteSystem.PteSystem.ClearAllVsids | mol-kernel-merge/mtable.c:706-731 | on the rings is the clearing of everything |
| PteSystem.PteSystem.Reclaim | mol-kernel-merge/mtable.c:761-806 | is a series of steps that each drop an entry without records |
| PteSystem.PteSystem.MemoryCheck | mol-kernel-merge/mtable.c:521-539 | is no step, or the clearing of everything |
| PteSystem.PteSystem.RegisterLvrange | mol-kernel-merge/mtable.c:812-845 | on the rings is the registering of the range |
| PteSystem.PteSystem.FreeLvrange | mol-kernel-merge/mtable.c:847-869 | on the rings is the freeing of the range |
| PteHash.Placed | mol-kernel-merge/fault.c:393-453 | the compare word in the primary group, and the word with H in the secondary group, are valid PTEs of the address in the group whose offset has, bit by bit, the hash that their H bit calls for |
| PteHash.OnlyTwoPlaces | mol-kernel-merge/mmu.c:198-253 | a valid, well-placed PTE of an address is one of those two words in one of those two groups |
| PteHash.HashBits | mol-kernel-merge/fault.c:405-412 | for each of the nineteen hash bits k, bit k + 6 of the primary group is bit k of the page index exclusive-or bit k of the VSID where the mask has the bit, the secondary group has the complement there, and neither has a bit outside the mask |
| PteHash.OneGroup | mol-kernel-merge/fault.c:405-412 | those bits name one group |
| PteHash.VsidsApart | mol-kernel-merge/fault.c:405-412 | two VSIDs that differ in a hash bit which the mask has put a page into different groups, primary and secondary |
| PteHash.ProbeHashBits | mol-kernel-merge/fault.c:283-290 | the two groups that lookup_mac_pte probes have the same bits of the page index of the address and of the VSID |
| PteHash.OffsetsApart | mol-kernel-merge/fault.c:290-305 | no two PTEs of the guest's table share an offset |
| PteHash.PtegMask | mol-kernel-merge/hash.c:88-91 | every SDR1 gives a mask of at least 1024 groups, which with the offsets inside a group is the mask of the table that SDR1 describes |
| PteHash.HostHash.FindPresent | mol-kernel-merge/fault.c:416-434 | the search of both groups succeeds exactly when the address has a PTE |
| PteHash.HostHash.ChooseSlot | mol-kernel-merge/fault.c:439-452 | the first free slot of the first group, else of the second, else the one of the first whose turn it is |
| PteHash.HostHash.FindPteSlot | mol-kernel-merge/fault.c:393-453 | the word is a PTE of the address, in the group that the bits of its hash name; an existing PTE is replaced exactly when there is one and the flag says so |
| PteHash.HostHash.InsertPte | mol-kernel-merge/fault.c:499-533 | every PTE stays in the group that the bits of its hash name; no address gets two PTEs if and only if no other slot than the one stored to translates the address, and if and only if the flag was set, or there was none, or both groups are full and the slot next to be stolen holds it |
| PteHash.StoreDuplicates | mol-kernel-merge/mmu.c:215-253 | a store makes a duplicate exactly when another slot translates the address |
| PteHash.TlbieRebuilds | mol-kernel-merge/ptaccess.c:26-46 | the VSID and address rebuilt from a PTE and its offset are those of the look-up that the PTE answers, primary or secondary |
| PteHash.GuestMmu.LookupMacPte | mol-kernel-merge/fault.c:271-307 | finds a PTE exactly when the mapped table has one of the address in a group that the bits of its hash name; the offset is that of such a PTE, inside the table, and a store to it flushes that very address |
| PteHash.GuestMmu.HighestBit | mol-kernel-merge/emu.c:49-50 | the highest of the nine mask bits that is set |
| PteHash.GuestMmu.Mtsdr1 | mol-kernel-merge/emu.c:40-62 | for every value the table is a power of two of at least 64K, aligned and inside RAM, and a value that describes such a table is honoured |
| PteHash.InsideTable | mol-kernel-merge/emu.c:49-62 | no byte of the table is beyond its last one |
| Contexts.DecodeRecovers | mol-kernel-merge/context.c:24-30 | multiplying by the inverse recovers the context number, the low bits are the segment |
| Contexts.NeverSwept | mol-kernel-merge/context.c:24-36 | no VSID decodes to a number within the bounds of a session |
| Contexts.FlushAllPtes | mol-kernel-merge/context.c:18-47 | so the sweep clears no PTE |
| Contexts.VsidInjective | mol-kernel-merge/context.h:38-46 | no two 24-bit contexts have one VSID |
| Contexts.LinuxVsidIsVsid | mol-kernel-merge/context.h:30-36 | Linux's own VSIDs are those of the context numbers below 32768 |
| Contexts.SharedContexts | mol-kernel-merge/context.h:48-54 | two sessions share contexts exactly when they are neighbours, and then the sixteen at the border |
| Contexts.Allocator.AllocContext | mol-kernel-merge/context.c:76-81 | a VSID that is not in use, of the session's range and of none of Linux's contexts |
| Contexts.Allocator.InitContexts | mol-kernel-merge/context.c:49-59 | only the VSID for illegal accesses is in use |
| Contexts.Allocator.HandleContextWrap | mol-kernel-merge/context.c:66-74 | wraps exactly when n more contexts do not fit; afterwards they do |
| Contexts.Allocator.AllocBatch | mol-kernel-merge/mtable.c:673-704 | the VSIDs of a whole chunk of entries are pairwise distinct, new, and in the session's range |
| SkipList.Search | mol-kernel-merge/skiplist.c:174-194 | from any start level, finds what the map has for the key |
| SkipList.LinkIn | mol-kernel-merge/skiplist.c:122-135 | the element is linked at every level up to its height, and at no other |
| SkipList.Unlink | mol-kernel-merge/skiplist.c:149-161 | the element leaves every level, and the first level it is found at is its height |
| SkipList.CutElements | mol-kernel-merge/skiplist.c:72-85 | cuts as many elements as fit, each with the links of its height |
| SkipList.SkipList.constructor | mol-kernel-merge/skiplist.c:196-214 | stands for the empty map |
| SkipList.SkipList.Lookup | mol-kernel-merge/skiplist.c:174-194 | looks the key up in the map |
| SkipList.SkipList.Insert | mol-kernel-merge/skiplist.c:101-138 | map update, for an absent key; nothing without a free element |
| SkipList.SkipList.Delete | mol-kernel-merge/skiplist.c:140-172 | map removal; the element goes back with the height it was allocated with |
| SkipList.SkipList.Prealloc | mol-kernel-merge/skiplist.c:64-99 | the map stays; new free elements of the given heights, the last first, as many as fit |
| SkipListOrder.ChainVisits | mol-kernel-merge/skiplist.c:19-29 | a level visits exactly its members, in key order |
| SkipListOrder.LevelIsSublist | mol-kernel-merge/skiplist.c:19-29 | each level is the level below without the elements that are not as high |
| SkipListOrder.Iterate | mol-kernel-merge/skiplist.h:46-65 | visits every element once, in key order |
| SkipListOrder.IterateDeleting | mol-kernel-merge/mtable.c:773-805 | so does a walk that deletes the current element of its choice, and exactly the elements chosen go |
| BlockRequest.GetPhysicalSegment | mac-drivers/blk_driver/src/main.c:161-190 | computes the segment at an offset, or that there is none |
| BlockRequest.SegmentAddress | mac-drivers/blk_driver/src/main.c:161-190 | every byte of a segment is at the physical address that the page table of the request has for it |
| BlockRequest.SegmentKind | mac-drivers/blk_driver/src/main.c:161-190 | a segment is physical exactly where the buffer is prepared and has an address, and then reaches the end of its page or of the transfer; otherwise it is what fits the overflow buffer |
| BlockRequest.DescsTile | mac-drivers/blk_driver/src/main.c:234-276 | the buffers of a request cover it exactly, one after the other, and only the last raises the interrupt |
| BlockRequest.HeadThenBuffers | mac-drivers/blk_driver/src/main.c:218-276 | the first descriptor of a request carries its operation, unit and first block and raises the interrupt exactly when there are no bytes; the rest are buffers that hold its bytes, of which only the last raises it |
| BlockRing.RingKept | mac-drivers/shared/ablk_sh.h:70-92 | every step of the driver and of the I/O thread keeps each unreleased descriptor in its slot and the proceed fields right |
| BlockRing.CheckKeeps | mac-drivers/blk_driver/src/main.c:205-214 | a slot with clear flags belongs to no unreleased descriptor |
| BlockRing.ClearProceedKeeps | mol-src/src/drivers/disk/ablk.c:160-166 | clearing the old head's proceed field is safe even if the driver has taken its slot by then |
| BlockRing.AdvanceKeeps | mol-src/src/drivers/disk/ablk.c:160-207 | the I/O thread takes the next descriptor written |
| BlockOrder.OrderKept | mac-drivers/blk_driver/src/main.c:197-286 | what is written and what is still to be written stay together the descriptors of the requests, in order |
| BlockOrder.NothingLostOrMixed | mac-drivers/shared/ablk_sh.h:70-92 | over every run: no descriptor is overwritten before it is released, MOL takes the descriptors in the order written, and they are the descriptors of the requests issued, one whole request after the other |
| BlockOrder.EachRequestAsIssued | mac-drivers/blk_driver/src/main.c:218-276 | over every run: the descriptor after those of the first k requests, once it is written, is a head with the operation, unit and first block of request k, and the ones after it are that request's buffers |
| BlockOrder.CompletedInOrder | mac-drivers/blk_driver/src/main.c:327-382 | over every run: requests complete once, in the order issued, and only when MOL has counted their last descriptor |
| BlockOrder.OneOverflow | mac-drivers/blk_driver/src/main.c:237-263 | over every run in which no interrupt comes between the two stores that reserve the buffer: of the descriptors not acknowledged, one at most uses the overflow buffer |
| BlockOrder.OverflowShared | mac-drivers/blk_driver/src/main.c:237-263 | with such an interrupt there is a run in which two do |
| BlockOrder.GapAckReleases | mac-drivers/blk_driver/src/main.c:343-357 | an interrupt between the stores compares with a number that has been acknowledged, so it always frees the buffer |
| BlockOrder.GapAckFrees | mac-drivers/blk_driver/src/main.c:237-276 | the driver then sends the descriptor, not acknowledged, with its buffer free |
| BlockOrder.ReservedIff | mac-drivers/blk_driver/src/main.c:237-357 | over every run: the buffer is reserved whenever it is used or about to be, if and only if no interrupt comes between the two stores |
| BlockOrder.WrappedComparison | mac-drivers/blk_driver/src/main.c:349-365 | comparing wrapped counters by the sign of their difference is right exactly up to a distance of 2^31 |
| RingLock.OneHolder | mac-drivers/blk_driver/src/main.c:288-302 | over every run: one thread at most makes a pass, so dequeues are serialized |
| RingLock.NoLostRequest | mac-drivers/blk_driver/src/main.c:288-302 | over every run: with the lock free and no thread between its enqueue and its increment, the queue is empty or the last pass ended in saturation |
| ListQueue.StepRefines | mac-drivers/shared/queue.c:26-84 | every step of any number of threads of which no two are in dequeue_first is a step of a plain queue with return to the front, and returns what it takes |
| ListQueue.RunInv | mac-drivers/shared/queue.h:20-31 | over every run in which dequeue and enqueue_tail hold the lock and no call of dequeue_first overlaps another that takes elements out, with any number of enqueues, the list is the queue |
| ListQueue.HeadIsNewest | mac-drivers/shared/queue.c:26-47 | the head is NULL exactly when the queue is empty |
| ListQueue.FirstNeedsLock | mac-drivers/shared/queue.c:49-59 | a run from the empty queue of two calls of dequeue_first that overlap, after which the queue is empty and the next call hands an element out a second time |
| BootHeap.ZInsert | mol-src/bootx/libc/zalloc.c:209-224 | the nodes from the index on move up by one |
| BootHeap.ZDelete | mol-src/bootx/libc/zalloc.c:226-240 | the nodes after the index move down by one |
| BootHeap.Heap.constructor | mol-src/bootx/libc/zalloc.c:67-84 | one free block, the region after the two tables |
| BootHeap.Heap.Malloc | mol-src/bootx/libc/zalloc.c:91-131 | takes the front of the first free block that is large enough, as a live block of the next multiple of 16; 0 only when no free block has that size; the bytes asked for are inside the region and meet no other live block and no free block; live and free blocks go on tiling the region |
| BootHeap.Heap.ZCoalesce | mol-src/bootx/libc/zalloc.c:242-256 | joins the first two neighbours that touch |
| BootHeap.Heap.PutBack | mol-src/bootx/libc/zalloc.c:166-193 | one merge suffices: the list stays sorted with no two blocks touching, and gains exactly the block's addresses |
| BootHeap.Heap.FreeBlock | mol-src/bootx/libc/zalloc.c:133-194 | the block leaves the live blocks and its addresses become free; an unknown pointer changes nothing |
| BootHeap.FreedAll | mol-src/bootx/libc/zalloc.c:133-194 | with nothing live the whole region is one free block |
| BootBlocks.AllFree | mol-src/bootx/libc/zalloc.c:242-256 | a sorted list without neighbours that touch, covering a region, is one block |
| HfsNames.FastUnicodeCompare | mol-src/bootx/fs/HFSCompare.c:160-199 | is the lexicographic comparison of the folded names without ignorable characters; names of one length with equal folds everywhere compare equal |
| HfsNames.FoldedOne | mol-src/bootx/fs/HFSCompare.c:172-188 | a character counts as what it folds to, and not at all if that is 0 |
| HfsNames.FoldedAppend | mol-src/bootx/fs/HFSCompare.c:172-188 | names are folded character by character |
| HfsNames.SameFolded | mol-src/bootx/fs/HFSCompare.c:172-188 | names of one length whose characters fold alike are compared as one name |
| HfsNames.IgnoredAnywhere | mol-src/bootx/fs/HFSCompare.c:172-188 | a character that folds to 0 changes no comparison, wherever it is put in |
| HfsNames.NamesDiffer | mol-src/bootx/fs/HFSCompare.c:190-199 | after beginnings that fold alike, the name whose next character that counts folds lower, or that ends, comes first |
| HfsNames.CatalogOrder | mol-src/bootx/fs/hfs.c:720-746 | catalog keys are totally preordered, a smaller parent first, and in a folder the empty name first |
| HfsNames.CompareEqual | mol-src/bootx/fs/hfs.c:720-746 | keys compare equal exactly when the parents are the same, both names are empty or neither is, and the names fold to the same characters |
| HfsNames.ExtentsOrder | mol-src/bootx/fs/hfs.c:748-814 | extents keys are totally ordered: by file, by fork in one file, by start block in one fork |
| HfsBTree.SearchNode | mol-src/bootx/fs/hfs.c:503-534 | the binary search ends at the last record not after the key |
| HfsBTree.ReadBTreeEntry | mol-src/bootx/fs/hfs.c:491-544 | for a key not before the first of the tree the descent ends and finds a record exactly when one has an equal key |
| HfsBTree.OneRecord | mol-src/bootx/fs/hfs.c:491-544 | records of a well-formed tree with equal keys are one record, so the search has one answer |
| HfsCatalog.ReadCatalogEntry | mol-src/bootx/fs/hfs.c:405-429 | decodes the file name, up to 256 characters of it, and finds a record exactly when the folder has one whose name differs at most in case and in ignorable characters; a record whose name has the same length and folds alike in every character is the one found |
| HfsExtents.ReadExtentsEntry | mol-src/bootx/fs/hfs.c:431-449 | returns the record of the fork that the extents tree has under the first block |
| HfsExtents.FindExtent | mol-src/bootx/fs/hfs.c:616-651 | finds the extent of a block, inline or in an overflow record, with the blocks before it counted |
| HfsExtents.ReadExtent | mol-src/bootx/fs/hfs.c:593-672 | a request inside the fork gets exactly the fork's bytes, through the block cache or not, whatever it holds |
| HfsExtents.WhereIs | mol-src/bootx/fs/hfs.c:653-662 | inside an extent the bytes of the fork follow each other from the start of the extent on the volume |
| HfsExtents.OneByte | mol-src/bootx/fs/hfs.c:653-662 | a byte of the fork is one byte of the volume |
| Utf8.EncodeString | mol-src/bootx/fs/HFSCompare.c:228-263 | encodes the characters that fit, all of them in three bytes for each; the NUL goes one byte past the buffer exactly when some leading characters fill it |
| Utf8.DecodeString | mol-src/bootx/fs/HFSCompare.c:273-328 | the decoded string, or as much of it as fills the buffer |
| Utf8.EncodedString | mol-src/bootx/fs/HFSCompare.c:228-263 | an encoded name is a NUL-terminated string with no NUL before its end |
| Utf8.RoundTrip | mol-src/bootx/fs/HFSCompare.c:228-328 | decoding an encoded name gives the name without its NULs |
| BlockCache.Cache.Init | mol-src/bootx/fs/cache.c:56-73 | an empty cache for the block size, or no change when it is out of range |
| BlockCache.Cache.Victim | mol-src/bootx/fs/cache.c:112-130 | the first free entry, else the one used least recently |
| BlockCache.Cache.Read | mol-src/bootx/fs/cache.c:76-140 | returns what a read of the device returns; a cacheable block replaces exactly the least recently used one of a full cache |
| IoTranslation.AddPages | mol-kernel-merge/mmu_io.c:241-287 | the list stays sorted, and the double words of the range, and no others, get the datum; a datum other than 0 leaves no page without data |
| IoTranslation.BoundsTouch | mol-kernel-merge/mmu_io.c:248-251 | the aligned bounds are less than 8 bytes away from those of the range, and between them are exactly the double words that it touches; a range of no bytes that starts inside a double word touches that one |
| IoTranslation.RemovePages | mol-kernel-merge/mmu_io.c:289-352 | the same for removal; a page without data is left only if it was there before and the range does not touch it |
| IoTranslation.InsertIndex | mol-kernel-merge/mmu_io.c:182-188 | the place of a new block |
| IoTranslation.IoData.constructor | mol-kernel-merge/mmu_io.c:54-60 | empty tables |
| IoTranslation.IoData.AddIo | mol-kernel-merge/mmu_io.c:241-287 | every address of a double word that the range touches gets the datum, every other keeps its own |
| IoTranslation.IoData.RemoveIo | mol-kernel-merge/mmu_io.c:289-352 | every address of a double word that the range touches loses its datum, every other keeps its own; no page that the call has emptied is left |
| IoTranslation.IoData.AddBlock | mol-kernel-merge/mmu_io.c:133-205 | blocks put first stay a prefix of the table; refused when full |
| IoTranslation.IoData.RemoveBlock | mol-kernel-merge/mmu_io.c:207-236 | the block with the number goes, the others keep their order |
| IoTranslation.ListedIffDatum | mol-kernel-merge/mmu_io.c:417-430 | when every page of the list has data, a page is in it exactly when one of its addresses has a datum |
| IoTranslation.DifferenceIsOffset | mol-kernel-merge/mmu_io.c:389-390 | the unsigned comparison holds exactly when some byte of the block, counted round the address space, is the first of the page, and the difference is the offset of that byte |
| IoTranslation.CoversBetween | mol-kernel-merge/mmu_io.c:389-390 | for a block that does not wrap, exactly when the page is between its bounds |
| IoTranslation.IoData.MphysToPte | mol-kernel-merge/mmu_io.c:365-432 | resolves a page as the priority look-up over accelerator page, blocks and I/O, to the offset of the page in the first block that has it; to I/O, when every page of the list has data, exactly when an address of the page has a datum and nothing comes before |
| Ppc.HiPlusLow | mol-src/bootx/accel/mol.c:98-116 | the adjusted upper half and the signed lower half add up to the address |
| Ppc.DecodeBranch | mol-src/bootx/accel/mol.c:106-107 | a branch in reach decodes to the distance to its target |
| Ppc.DecodeLwzx | mol-src/bootx/accel/mol.c:108-109 | the fields of the indexed load come apart again |
| InstRewrite.ReadPreserved | mol-src/bootx/accel/mol.c:143-158 | for a register other than 0 the code leaves the emulated register in it, changes no other and resumes after the instruction |
| InstRewrite.ReadZeroPreserved | mol-src/bootx/accel/mol.c:143-158 | the same for register 0 |
| InstRewrite.DecPreserved | mol-src/bootx/accel/mol.c:160-179 | the same for the decrementer, around the emulator's update of it |
| InstRewrite.DecZeroPreserved | mol-src/bootx/accel/mol.c:160-179 | the same into register 0 |
| InstPasses.RoomSuffices | mol-src/bootx/accel/mol.c:381-418 | the real pass emits no more words than the dry pass has counted |
| InstPasses.DryPass | mol-src/bootx/accel/mol.c:381-418 | counts the words, and makes no-ops of what is to be one |
| InstPasses.RealPass | mol-src/bootx/accel/mol.c:381-418 | the words of each instruction are in a row where it now branches to |
| InstPasses.InstReplacements | mol-src/bootx/accel/mol.c:359-420 | both passes: everything fits the room allocated |
| InstMeaning.ReadsExactly | mol-src/bootx/accel/mol.c:187-357 | a word is classified as the read of a register exactly when it is mfmsr, mfsr of one of the sixteen segment registers or mfspr of a mirrored special register, the halves of whose number are swapped, into that destination |
| InstMeaning.DecExactly | mol-src/bootx/accel/mol.c:221-254 | the decrementer is read exactly by mfspr of its number |
| InstMeaning.InPlaceExactly | mol-src/bootx/accel/mol.c:208-313 | a word is replaced in place exactly when it is rfi, mtmsr, mtsr of one of the sixteen or mtspr of an accelerated register |
| InstMeaning.NopExactly | mol-src/bootx/accel/mol.c:294-313 | a word becomes a no-op exactly when it is eieio or tlbie |
| InstMeaning.CountingPassKeeps | mol-src/bootx/accel/mol.c:381-418 | the dry pass changes the code only where an eieio or a tlbie is, into a no-op |
| InstMeaning.RewriteMeaning | mol-src/bootx/accel/mol.c:187-418 | for every destination and every readable register: where mfmsr, mfsr or mfspr was, the rewritten code leaves that register's value in memory in the destination, changes nothing else and resumes after the instruction |
| InstMeaning.RewriteDecMeaning | mol-src/bootx/accel/mol.c:160-418 | the same where mfspr read the decrementer, around the emulator's update of it |
| InstMeaning.RewriteInPlace | mol-src/bootx/accel/mol.c:125-141 | where rfi or an accelerated write was, the code branches to the target that OSI_EmuAccel has returned and changes nothing else; without a target the word stays |
| InstMeaning.RewriteNop | mol-src/bootx/accel/mol.c:294-313 | where eieio or tlbie was, the code goes on with every register as it was |
| InstMeaning.OthersKept | mol-src/bootx/accel/mol.c:320-357 | every other instruction stays |

## Left out

- tlbie, the store of a PTE and Linux's page table hooks are atomic steps; other processors' caches are not modelled.
- ReverseMap: a vma with the right to the access is one condition; which of the two get_phys_page misses, and the signal it sends, are not modelled.
- ReverseMap.NoTranslationOutlivesItsPage: holds under the four rules of Meets, each with a run that breaks the property and keeps the others. What is exact about a rule is stated of the step it is about (ReverseMap.FlushLeavesNoneIff, ReverseMap.FlushStoredIff, ReverseMap.FlushMarkedIff, ReverseMap.BadAreaBreaks, ReverseMap.OnePteIff), not of a whole run, in which a later step can make up for it.
- PteHash.GuestMmu.Mtsdr1: does not model the remapping of the guest's table into the kernel nor the in-use bits.
- PteRings.PteTable.Reclaim: which entries the segment registers refer to is a parameter.
- PteRings.PteTable.MemoryCheck: the chunks that the allocator hands out, or its failure, are parameters; alloc_limit is not modelled.
- PteRings.PteTable.RegisterLvrange: requires a size of whole pages; the source makes no record for a last partial page, and a flush of it would read past its records.
- PteRings.PteTable.FreeLvrange: requires that no range registered later holds an address of the range, since the flush would look such an address up there.
- PteSystem.PteSystem.RegisterLvrange: the same as PteRings.PteTable.RegisterLvrange.
- PteSystem.PteSystem.FreeLvrange: the same as PteRings.PteTable.FreeLvrange.
- PteSystem.PteSystem.MakeLvptrReservation: the two stores of one call are not interrupted; ReverseMap has them as two steps, and ReverseMap.FlushBetweenStores shows that a flush between them adds nothing.
- PteSystem.SlotKeepsRule: the numbering of the slots and the conversion of words are parameters.
- do_intercept_tlbie_block, the EMULATE_603 paths, relocate_inst and kvm.c are not part of this model.
- SkipList.SkipList.Insert: requires that the key is absent, as its caller sees to with a look-up.
- SkipList.SkipList.Prealloc: the random heights are a parameter; the callback that gives new elements their VSIDs is Contexts.Allocator.AllocBatch.
- Contexts.Allocator.InitContexts: its sweep of the hash table is Contexts.FlushAllPtes.
- Contexts.Allocator.HandleContextWrap: the clearing of all VSIDs that goes with a wrap is in PteRings.PteTable.AllocVsidEnt.
- Clearing all VSIDs re-initializes the skiplist; the skiplist and the reverse map are separate modules, so PteRings.PteTable.Reclaim goes over a set of entries, and SkipListOrder.IterateDeleting shows that the walk over the skiplist does.
- BlockRing is a state machine, not a class, since its point is the interleaving; do_work's error exits, the kick and the interrupt line are not modelled, and the bytes copied through the overflow buffer, with obuf_dest, are not.
- BlockOrder uses unbounded request numbers; BlockOrder.WrappedComparison says how far the 32-bit ones agree.
- ListQueue and RingLock: an element is put into a queue by one thread at a time, and a thread's loads and swaps are atomic steps.
- BootHeap.Heap.Malloc: requires a size above 0 and a free node in the table, which the source does not check; the contents of blocks and the error hook are not modelled. realloc is not part of this model.
- BootHeap.Heap.FreeBlock: requires a free node in the table of free blocks, which the source does not check.
- HfsNames: the contents of the case table are a parameter; FastRelString of plain HFS is not modelled.
- HfsBTree.ReadBTreeEntry: requires a key that is not before the first of the tree, since the source would use record -1; nodes are read as values, record layout and the directory index it returns are not modelled.
- HfsCatalog.ReadCatalogEntry: requires a key that is not before the first of the tree, as HfsBTree.ReadBTreeEntry does; the keys of plain HFS are not modelled.
- HfsExtents.ReadExtentsEntry: requires that the tree has a record under the first block; the source does not look at the result.
- HfsExtents.ReadExtent: requires a request that ends inside the fork, past which the source goes on to extents there are none of; byte order and 32-bit file offsets are not modelled.
- BlockCache.Cache.Read: requires a handle other than 0, which marks free entries; the hit, miss and eviction counters are not modelled.
- IoTranslation.AddPages: allocation of I/O pages succeeds, and ranges do not wrap round the address space.
- IoTranslation.RemovePages: ranges do not wrap round the address space.
- IoTranslation.IoData.AddIo: the same as IoTranslation.AddPages.
- IoTranslation.IoData.RemoveIo: the same as IoTranslation.RemovePages.
- IoTranslation.IoData.AddBlock: the BAT of the block and the flush of overridden translations are not modelled.
- IoTranslation.IoData.RemoveBlock: the flush and the freeing of the range are not modelled; PteRings.PteTable.FreeLvrange is the latter.
- IoTranslation.IoData.MphysToPte: the cache and protection bits of the PTE are not modelled, nor the BAT of a frame buffer.
- InstPasses: which special registers are kept in memory and where is a parameter; the loop that shifts out the register number is the field it extracts; the code behind an accelerated branch is a parameter.
- ext2fs.c and ufs.c, the graphical interface and the other drivers are not part of this model.

# duckOS kernel: verified models

Dafny models of the parts of the duckOS kernel whose correctness is hardest to see from the code: the memory stack
(copy-on-write objects, buddy allocator, address-space list, kernel heap), the AVL map, the write-back disk cache, and
four smaller cores (run queue, path resolution, TCP in-order receipt, the Internet checksum).

Code that updates objects in place is modelled as classes with the same fields, and the methods are proved against
functions on plain values (a sequence of pieces for the region list, a tree value for the AVL nodes, a set of blocks
for the buddy lists, a flat disk for the cache). The properties are proved about those functions and carried over
whole runs. `dafny verify dfyconfig.toml` checks the project.

The main results, by component:

- **Copy-on-write** (`CowState`, `CowSteps`, `ForkIsolation`, `LastStore`, `VirtualMemory`): every run of forks, page
  faults, loads, stores, mappings and unmappings of the kernel is a run of a reference model in which fork copies
  every byte at once, and an operation fails in it if and only if it is not permitted, out of range or in need of a
  page when none is free (`Kernel.Run`, `ViewsRun`). Over such runs a load that succeeds returns the byte last stored
  at its address, through forks, and 0 if there was no store since the mapping (`LoadsRemember`); a space only changes
  through operations on that space, and a child sees its parent's bytes as they were at the fork (`RunIsolated`,
  `ForkIsolated`). Every state satisfies: a page's count is the number of slots holding it, a page in two slots is CoW
  in both, and a page is free exactly when no slot holds it and the allocator has not set its reserved flag; other
  pages that no slot holds stay lost (`LeakedForever`).
- **Buddy allocator** (`Powers`, `BuddyModel`, `FreeLists`, `BuddySteps`, `BuddyZone`, `ZoneRun`, `RegionSteps`,
  `PhysicalRegion`, `RegionRun`, `BlockRun`, `SharedLinks`): in any run on one zone every request gets a block nobody
  holds, is refused, or stops the kernel, each exactly when it must; the counter is the free pages plus what requests
  were rounded up by; with everything back the zone is one block again (`ZoneRun.Run`, `CounterDrifts`). All zones
  keep their links in one table of pages. A request leaves a region in order if and only if it does not make a zone
  empty a list while the page before that zone is listed behind another (`AllocPagesKeeps`); runs of one-page requests
  never do (`RegionRun.Run`), and runs of power-of-two requests go as they should up to the first that does
  (`OrderlyUntilBroken`).
- **Counted pages** (`LinkWrites`, `PhysicalPages`, `PageRun`, `PageLeaks`): a page's link and its reference count and
  reserved flag are the same bytes. On a region whose pages are handed out one by one, `alloc_physical_page`, `ref`
  and `unref` are the operations that copy-on-write builds on (`TakePhysical`, `UnrefPhysical`, `PageRun.Run`), with
  the page whose flag is set named exactly. Which regions lose pages is decided by the number of their zones.
- **AVL map** (`AvlTree`, `AvlHeap`, `AvlMap`, `AvlIterator`): insert and the four shapes of erase keep search order,
  exact heights, balance, parent links, root and size, and change the key-value map exactly; lookups look at
  logarithmically many nodes; iteration meets every key once in ascending order.
- **Address-space list** (`RegionModel`, `RegionList`): any run keeps an exact tiling without free neighbours, exact
  links and an exact count of used bytes; a mapping is exactly the bytes asked for, all free before; freeing undoes
  allocation; first fit is complete on every list that is reached with non-empty requests; fork copies the list piece
  by piece.
- **Kernel heap** (`HeapModel`, `HeapLinks`, `KernelHeap`, `HeapRun`): headers in memory, linked into a list of blocks
  and a list of allocations per block, which every way of placing and freeing keeps right; what callers hold is
  aligned, disjoint and clear of all headers; which block serves a request is decided by the best bet, and new pages
  are requested only if no gap fits; in any run exactly the pointers handed out and not returned are live, and once
  everything is freed the heap holds no pages (`HeapRun.Run`).
- **Disk cache** (`LruCache`, `RingQueue`, `DiskCacheModel`, `DiskCache`): any run of reads, writes, writebacks and
  evictions returns for each read what was last written (`DiskSystem.Run`, `ReadRemembers`). A writeback that does not
  give up puts exactly the regions queued on the raw disk, and a write queues its regions unless the scan of the queue
  is misled (`WriteReaches`, `UnqueuedAfter`). Evictions take the regions used longest ago (`FreePages`).
- **Scheduler** (`Scheduler`, `TaskManager`): the queue loses no runnable thread; a preemption wakes exactly the
  blocked threads whose blocker is ready, and each of them is picked within a bounded number of preemptions
  (`WokenInTurn`).
- **Paths** (`PathModel`, `PathResolution`): resolution ends on every directory graph; what each name of a path does,
  dots, links and mounts included, and how a path is resolved in two parts (`LastName`, `NextName`, `ResolveThen`);
  the full path of a node leads back to it.
- **TCP** (`TcpReceive`) and **checksums** (`Checksum`): see the table.

Several claims one might expect do not hold of the code. Each is stated with the exact condition under which it does,
and with an input on which it fails:

- A region of several zones does not stay in order. A zone that empties a list writes the link of the page before it,
  which is the last page of the zone before (`RegionSteps.AllocPagesKeeps`, `BuddySteps.ClipKeeps`). The run in
  `SharedLinks.Trace` has only powers of two and ends in a failed assert with two pages counted as free.
- A page that nobody holds is not always free. The write that a zone makes to the page before it sets the reserved
  flag of that page if it is in use, and its last reference then does not free it. A request writes to a page in use
  if and only if its zone empties a list and the page lies right before that zone (`LinkWrites.WritesUsedPage`); a
  page is free if and only if nobody holds it and its flag is not set (`CowSteps.FreeExactlyWhenUnheld`). In a region
  of one zone that never happens (`PageLeaks.OneZoneNeverLeaks`), and in every region of several zones a run of
  one-page requests loses a page (`PageLeaks.SeveralZonesLeak`, `PageLeaks.LosePage`; with numbers in
  `SharedLinks.LostPage`).
- `alloc_block` keeps its counter exact only for powers of two (`ZoneRun.CounterDrifts`, `ZoneRun.NoSurplus`).
- `alloc_space_at` places a request at the requested address unless the free region is exactly as large and starts
  elsewhere (`RegionModel.PlacedExactly`, `RegionModel.Misplaced`).
- `alloc_space_at` accepts the address that `find_free_space` found unless the region found is empty
  (`RegionModel.FoundIsAccepted`, `RegionModel.FoundEmptyIsRefused`).
- The full path of a node that was reached as a kept link resolves to it only with the keep-link option
  (`PathModel.RoundTrip`, `PathModel.KeptLinkDiffers`).
- `queue::contains` may meet vacated slots, since its scan stops at a position reduced by the size instead of the
  capacity (`RingQueue.ScanCovers`, `RingQueue.StaleValues`). So a block that was written is on the disk after the
  next writeback only if the scan was not misled about its region when the write queued it, and that is exactly when
  (`DiskCacheModel.InvalidatedHas`, `DiskCache.WriteReaches`). In `DiskCache.LostWrite` four writes to a new device
  suffice for one that is not.

Further corner cases of the code are kept as they are: `map_stack`, when nothing fits, and an empty write to a disk
read through a null pointer, a full path of more than 128 names overruns its array, the writeback task gives up for
good when a queued region was evicted, a FIN on a segment refused by a full receive queue is acknowledged all the
same, a read into a short buffer drops the rest of the payload, a doubled slash behind a symbolic link restarts at the
root, and stepping back from the first iterator leads to the end.

## Model

| member | source | states |
|---|---|---|
| `VirtualMemory.MemoryManager.Ref` | kernel/memory/PhysicalPage.h:13-16 | one more reference; the overflow panic is raised exactly at 0xFFFF |
| `VirtualMemory.MemoryManager.Unref` | kernel/memory/PhysicalPage.h:18-23 | one reference fewer; with the last one the page is freed, unless its reserved flag is set, and then it is lost |
| `CowSteps.DropSlot` | kernel/memory/PhysicalPage.h:18-23 | dropping a slot's reference keeps every count equal to the number of slots holding the page |
| `CowSteps.FreeExactlyWhenUnheld` | kernel/memory/PhysicalPage.h:13-45 | in every valid state a page is free iff no slot holds it and its flag is not set, lost iff no slot holds it and it is not free, in use iff some slot holds it; away from the zone borders it is free iff unheld |
| `PhysicalPages.RefPhysical` | kernel/memory/PhysicalPage.h:13-16 | on the bytes that links share with counts: a stop iff the count is 0xFFFF, else one reference more and nothing else changes |
| `PhysicalPages.UnrefPhysical` | kernel/memory/PhysicalPage.h:18-23 | the same bytes: one reference fewer, and with the last one the page goes back to its region iff its flag is not set; never stops, region in order, no other page touched |
| `VirtualMemory.LeakedForever` | kernel/memory/PhysicalPage.cpp:12-16 | over any run of the kernel a page whose last reference left it flagged is never free and never held again |
| `VirtualMemory.MemoryManager.AllocPhysicalPage` | kernel/memory/MemoryManager.cpp:185-204 | some free page leaves the free set with count one and no flag; one page in use at a zone border may be flagged; fails exactly when there is none |
| `PhysicalPages.TakePhysical` | kernel/memory/MemoryManager.cpp:185-204 | on the region's own tables: refused iff no page is free, never stops; the page, its count and flag, and exactly which page in use is flagged; all others unchanged |
| `PhysicalPages.TakeLeaves` | kernel/memory/MemoryManager.cpp:185-204 | the count of a page in use survives the request, and its flag is set iff it is the page before the zone that serves by emptying a list |
| `PageRun.Perform` | kernel/memory/MemoryManager.cpp:185-317 | each call has the outcome and effect that the free pages, counts and flags demand |
| `PageRun.Run` | kernel/memory/MemoryManager.cpp:185-317 | any run of requests, ref and unref on a region as set up is, step by step, that of counted pages; only ref can stop it, at 0xFFFF |
| `VirtualMemory.MemoryManager.CopyPage` | kernel/memory/MemoryManager.cpp:300-304 | the destination page holds the source page's bytes and no other page changes |
| `VirtualMemory.VMObject.constructor` | kernel/memory/VMObject.cpp:7-19 | slots from the pages given; with all-CoW exactly the committed slots are CoW |
| `VirtualMemory.VMObject.Destroy` | kernel/memory/VMObject.cpp:21-25 | every committed slot's reference is dropped |
| `CowSteps.UnrefToKeeps` | kernel/memory/VMObject.cpp:21-25 | dropping the slots one by one keeps all counts exact, even if a page sits in several slots |
| `VirtualMemory.VMObject.TryCowPage` | kernel/memory/VMObject.cpp:31-53 | EINVAL iff the slot is not CoW, ENOMEM iff CoW and no page is free, else the slot gets a private copy of the bytes and loses its CoW bit |
| `CowSteps.CopySlotKeeps` | kernel/memory/VMObject.cpp:31-53 | copying a slot keeps counts, CoW marks and the free set right and changes no byte any object shows |
| `VirtualMemory.VMObject.BecomeCowAndRefPages` | kernel/memory/VMObject.cpp:59-67 | exactly the committed slots become CoW, every page gains one reference per slot, the overflow panic is raised iff some count passes 0xFFFF |
| `CowSteps.CloneObject` | kernel/memory/VMObject.cpp:59-67 | a clone sharing all pages, both objects CoW, keeps counts exact and shared pages CoW |
| `CowSteps.SharedPagesAreCow` | kernel/memory/VMObject.cpp:59-67 | in every valid state a page held by two slots is CoW in both and its count is the number of holders |
| `VirtualMemory.Kernel.MapAnonymous` | kernel/memory/AnonymousVMObject.cpp:18-31 | a fresh uncommitted object reads as zeros where it is mapped, and nothing else changes for any program; the kernel stops iff the mapping is not readable |
| `VirtualMemory.VMObject.Clone` | kernel/memory/AnonymousVMObject.cpp:99-105 | the clone shares every page; both objects have exactly their committed slots CoW |
| `VirtualMemory.VMObject.TryFaultInPage` | kernel/memory/AnonymousVMObject.cpp:107-119 | EINVAL iff past the bound the source tests, a stop iff exactly at it, ENOMEM iff uncommitted and no page is free, else an uncommitted slot gets a zeroed page of its own |
| `CowSteps.FaultInKeeps` | kernel/memory/AnonymousVMObject.cpp:107-119 | committing a zeroed page keeps the invariant and changes no byte any object shows |
| `VirtualMemory.VMSpace.MapPages` | kernel/memory/PageDirectory.cpp:8-46 | the entries of the committed pages in the range, never writable while CoW; uncommitted pages are skipped; the kernel stops iff the region is not readable |
| `VirtualMemory.VMSpace.UnmapPages` | kernel/memory/PageDirectory.cpp:48-71 | exactly the entries of the region are gone |
| `CowSteps.MapEntriesAt` | kernel/memory/PageDirectory.cpp:8-46 | what the map loop leaves at every virtual page, inside and outside the range |
| `CowSteps.WritableIsPrivate` | kernel/memory/PageDirectory.cpp:32-36 | a page reached through a writable entry is held by no other slot of any object |
| `CowSteps.EntryReads` | kernel/memory/PageDirectory.cpp:8-46 | a present entry leads to the very bytes the reference model holds at that address |
| `CowSteps.StoreKeeps` | kernel/memory/PageDirectory.cpp:32-36 | a store through a writable entry changes that byte of that object in the reference model and nothing else |
| `CowSteps.ForkRegionKeeps` | kernel/memory/VMSpace.cpp:33-88 | one turn of the fork loop keeps the whole invariant |
| `CowSteps.ForkRegionCopies` | kernel/memory/VMSpace.cpp:33-88 | one turn of the fork loop, which shares pages, is a copy of the region's bytes in the reference model |
| `VirtualMemory.Kernel.CloneRegion` | kernel/memory/VMSpace.cpp:33-88 | the same of the code: the child gains its own copy of the bytes, the other spaces keep their regions |
| `VirtualMemory.Kernel.Fork` | kernel/memory/VMSpace.cpp:33-88 | the state programs see after a fork is that of a full copy into a new space of the same range; the overflow panic is raised iff some count passes 0xFFFF |
| `LastStore.StoreCell` | kernel/memory/VMSpace.cpp:223-277 | a store changes one byte of one page of one space; no other page of any space changes |
| `LastStore.ForkCell` | kernel/memory/VMSpace.cpp:33-88 | a fork gives the new space every page of the old one, bytes and protection, and changes no other |
| `LastStore.MapCell` | kernel/memory/VMSpace.cpp:90-116 | a mapping shows zeros on the pages of its range with the protection asked for, and changes no other page |
| `LastStore.UnmapCell` | kernel/memory/VMSpace.cpp:146-188 | unmapping takes away the pages of the region and no other |
| `LastStore.StepCell` | kernel/memory/VMSpace.cpp:33-277 | every operation does to the pages of every space just that, and one that fails does nothing |
| `LastStore.RunRemembers` | kernel/memory/VMSpace.cpp:33-277 | in every state of a run each mapped byte is the one last stored there by the space, or before a fork by its parent, and 0 if none was since the mapping |
| `VirtualMemory.LoadsRemember` | kernel/memory/VMSpace.cpp:223-277 | over any run of a new kernel a load that succeeds returns that byte |
| `ForkIsolation.ForkCopies` | kernel/memory/VMSpace.cpp:33-88 | the child observes exactly the regions and bytes the parent observed |
| `ForkIsolation.StepIsolated` | kernel/memory/VMSpace.cpp:33-277 | an operation that does not store, map or unmap in a space leaves all that space observes |
| `ForkIsolation.RunIsolated` | kernel/memory/VMSpace.cpp:33-277 | over any run a space changes only through operations on that space |
| `ForkIsolation.ForkIsolated` | kernel/memory/VMSpace.cpp:33-277 | after a fork child and parent keep the bytes of the moment of the fork until an operation names them, whatever all others do |
| `ForkIsolation.StepSeparate` | kernel/memory/VMSpace.cpp:33-188 | every operation keeps each region on an object of its own |
| `VirtualMemory.Kernel.FaultCommitted` | kernel/memory/VMSpace.cpp:252-263 | a committed page is copied if CoW and writable, then mapped; no program sees a change |
| `VirtualMemory.Kernel.FaultUncommitted` | kernel/memory/VMSpace.cpp:265-271 | an uncommitted page is zeroed, committed and mapped; no program sees a change |
| `VirtualMemory.Kernel.TryPagefault` | kernel/memory/VMSpace.cpp:223-277 | which error for which fault, each exactly when (ENOMEM iff the fault needs a page and none is free), no program sees a change, and on success the entry is writable exactly if the region is |
| `VirtualMemory.Kernel.Load` | kernel/memory/VMSpace.cpp:223-277 | a load gives the byte of the reference model; it fails iff the page is not mapped or not readable, or has no entry, needs a page and none is free |
| `VirtualMemory.Kernel.Store` | kernel/memory/VMSpace.cpp:223-277 | one fault suffices: a store is the store of the reference model; it fails, without effect, iff the page is not mapped or not writable, or has no writable entry, needs a page and none is free |
| `CowSteps.RemappedKeeps` | kernel/memory/VMSpace.cpp:252-271 | mapping a settled page keeps the invariant and what every program sees |
| `CowSteps.MapKeeps` | kernel/memory/VMSpace.cpp:90-116 | mapping an uncommitted object over free pages keeps the invariant and maps zeros in the reference model |
| `CowSteps.UnmapKeeps` | kernel/memory/VMSpace.cpp:146-188 | unmapping a region and destroying its object keeps the invariant and removes exactly that region for programs |
| `VirtualMemory.Kernel.UnmapRegion` | kernel/memory/VMSpace.cpp:146-188 | the same of the code |
| `VirtualMemory.Kernel.Perform` | kernel/memory/VMSpace.cpp:33-277 | each operation is a step of the reference model and fails iff not permitted, out of range, or in need of a page when none is free; a load that does not fail returns the byte |
| `VirtualMemory.Kernel.Run` | kernel/memory/VMSpace.cpp:33-277 | every run of the kernel is step by step one of the reference model, every state on the way satisfies the invariant, and each step fails iff it is not permitted, out of range or in need of a page when none is free |
| `VirtualMemory.ViewsRun` | kernel/memory/VMSpace.cpp:33-277 | what programs see along such a run is a run of the reference model: lazy sharing behaves like eager copying |
| `Powers.OrderFor` | kernel/memory/BuddyZone.h:57-61 | the least order whose blocks hold the request |
| `Powers.OrderForPow2` | kernel/memory/BuddyZone.h:57-61 | a power of two has exactly its own order |
| `Powers.ThreePagesTakeFour` | kernel/memory/BuddyZone.h:57-61 | a request that is rounded up |
| `Powers.Nested` | kernel/memory/BuddyZone.h:27-29 | two aligned blocks that share a page are nested |
| `BuddyModel.PairFacts` | kernel/memory/BuddyZone.h:27-29 | the bit index is in range and names the pair the block is one half of |
| `BuddyModel.PairUnique` | kernel/memory/BuddyZone.h:27-29 | a block has the bit of one pair only |
| `BuddyZone.BuddyZone.constructor` | kernel/memory/BuddyZone.cpp:7-28 | the tables of a zone whose pages are all free in one block of the top order |
| `BuddyZone.BuddyZone.AllocBlockInternal` | kernel/memory/BuddyZone.cpp:51-83 | pops or splits as the recursion does, on any contents of the tables that do not lead outside them; links of other pages are untouched |
| `BuddyZone.BuddyZone.PopBlock` | kernel/memory/BuddyZone.cpp:71-82 | takes the head off its list, writing also the link before the zone when the list runs empty; stops iff the bit is not MIXED |
| `BuddyZone.BuddyZone.FreeBlockInternal` | kernel/memory/BuddyZone.cpp:85-114 | merges or pushes as the recursion does, on any contents of the tables |
| `BuddyZone.BuddyZone.RemoveFromFreelist` | kernel/memory/BuddyZone.cpp:116-126 | what is written to links and list heads; stops iff the head of the list has a back link |
| `BuddyZone.BuddyZone.AllocBlock` | kernel/memory/BuddyZone.cpp:34-41 | the whole state after a request: error iff the counter is below it, else a stop or a block, with the counter down by the pages asked for |
| `BuddyZone.BuddyZone.FreeBlock` | kernel/memory/BuddyZone.cpp:43-49 | the whole state after a return; stops before any change iff outside the zone or no power of two |
| `BuddySteps.AllocKeeps` | kernel/memory/BuddyZone.cpp:51-83 | on a zone in order: stops iff no list from the order on has a block, else takes an aligned block of free pages and leaves the zone in order; the link before the zone is cleared iff the list that served it runs empty |
| `BuddySteps.AllocComplete` | kernel/memory/BuddyZone.cpp:51-83 | served iff some aligned block of that size is free as a whole |
| `BuddySteps.FreeKeeps` | kernel/memory/BuddyZone.cpp:85-114 | on a zone in order, giving back a block in use never stops, makes exactly its pages free and leaves the zone in order |
| `BuddySteps.PushKeeps` | kernel/memory/BuddyZone.cpp:102-113 | a block whose buddy is not free joins its list; lists, links and bits stay consistent |
| `BuddySteps.PopKeeps` | kernel/memory/BuddyZone.cpp:71-82 | the head leaves its list; its bit was MIXED, as the source asserts |
| `BuddySteps.SplitKeeps` | kernel/memory/BuddyZone.cpp:55-69 | a split gives up the first half and lists the second |
| `BuddySteps.TakeKeeps` | kernel/memory/BuddyZone.cpp:89-98 | a block is taken out of the middle of its list and its pair's bit cleared |
| `BuddySteps.NewKeeps` | kernel/memory/BuddyZone.cpp:7-28 | a new zone is in order, with every page free |
| `BuddySteps.Coalesced` | kernel/memory/BuddyZone.cpp:85-114 | with every page free the lists are those of a new zone |
| `BuddySteps.ClipKeeps` | kernel/memory/BuddyZone.cpp:78-80 | clearing the back link of a zone's last page leaves its lists right iff that page is not listed behind another |
| `BuddySteps.ClipBreaks` | kernel/memory/BuddyZone.cpp:78-80 | otherwise the links spell no lists at all |
| `FreeLists.PushChain` | kernel/memory/BuddyZone.cpp:102-113 | pushing keeps the doubly linked list consistent and touches only links of that list |
| `FreeLists.PopChain` | kernel/memory/BuddyZone.cpp:71-82 | popping keeps the list consistent; outside the list only the link before the zone is written |
| `FreeLists.UnlinkChain` | kernel/memory/BuddyZone.cpp:116-126 | unlinking any entry keeps the list consistent and touches only links of that list |
| `BuddyModel.AddBlock` | kernel/memory/BuddyZone.cpp:85-114 | freeing a block whose buddy is not free keeps blocks apart and every bit MIXED exactly when one half is free |
| `BuddyModel.RemoveBlock` | kernel/memory/BuddyZone.cpp:51-83 | the same for taking a block, with the free pages exactly those pages fewer |
| `BuddyModel.MixedMeansBuddyFree` | kernel/memory/BuddyZone.cpp:85-114 | the bit of a block in use is MIXED if and only if its buddy is on that order's list; never at the top order |
| `BuddyModel.FreeBitIsMixed` | kernel/memory/BuddyZone.cpp:74-75 | the bit of a block on a list is MIXED, so the assert on allocation holds |
| `BuddyModel.FreeBlockWhole` | kernel/memory/BuddyZone.cpp:85-114 | an aligned block that is free as a whole lies in one listed block: merging leaves no two free halves |
| `LinkWrites.AllocWrites` | kernel/memory/BuddyZone.cpp:51-83 | taking a block writes no link of another page in use of its zone |
| `LinkWrites.FreeWrites` | kernel/memory/BuddyZone.cpp:85-114 | returning a block writes no link of another page in use of its zone |
| `LinkWrites.ListedIsMaximal` | kernel/memory/BuddyZone.cpp:85-114 | the listed blocks are exactly the maximal aligned blocks of free pages |
| `LinkWrites.EmptiesIs` | kernel/memory/BuddyZone.cpp:71-82 | a request empties a list iff the block it is cut from is the only one of its order |
| `BuddyModel.FullyFreeIsOneBlock` | kernel/memory/BuddyZone.cpp:85-114 | if every page is free the zone is one block of the top order |
| `BuddyModel.BuddyHalves` | kernel/memory/BuddyZone.cpp:93-101 | a block and its buddy are exactly the block one order up |
| `FreeLists.FullyFreeLists` | kernel/memory/BuddyZone.cpp:85-114 | then the top list holds block 0 and all lower lists are empty |
| `ZoneRun.Perform` | kernel/memory/BuddyZone.cpp:34-49 | each operation has the outcome that the pages held and the counter demand, and the zone goes on listing exactly the pages not held |
| `ZoneRun.Run` | kernel/memory/BuddyZone.cpp:34-126 | any run on a new zone: each request gets an aligned block that nobody holds, is refused iff the counter is too small, or stops the kernel iff no aligned block of its size is free; the zone lists exactly the pages not held and with all back is one block again |
| `ZoneRun.CounterDrifts` | kernel/memory/BuddyZone.cpp:34-49 | in every run the counter is the number of free pages plus the pages by which requests were rounded up |
| `ZoneRun.NoSurplus` | kernel/memory/BuddyZone.cpp:34-49 | that surplus is 0 iff every request served was a power of two |
| `PhysicalRegion.ZoneSize` | kernel/memory/PhysicalRegion.cpp:19-23 | the largest power of two that fits, up to the largest order |
| `PhysicalRegion.MakeZones` | kernel/memory/PhysicalRegion.cpp:17-34 | new zones that tile the range exactly and share no buckets |
| `PhysicalRegion.PhysicalRegion.constructor` | kernel/memory/PhysicalRegion.cpp:7-35 | an unreserved region is cut into new zones, a reserved one has none |
| `PhysicalRegion.PhysicalRegion.Init` | kernel/memory/PhysicalRegion.cpp:103-112 | the first link of every zone is set and no other; the region is then ready for requests |
| `RegionSteps.ReadyKeeps` | kernel/memory/PhysicalRegion.cpp:7-112 | a region that is ready is in order, with exact counters and every page free |
| `RegionSteps.TilesCover` | kernel/memory/PhysicalRegion.cpp:84-97 | every page of the region lies in some zone |
| `RegionSteps.TilesOrder` | kernel/memory/PhysicalRegion.cpp:84-97 | zones do not overlap |
| `PhysicalRegion.PhysicalRegion.AllocPage` | kernel/memory/PhysicalRegion.cpp:42-59 | asks the zones in order, on any contents of the tables; refused without effect when reserved or with a counter of 0 |
| `PhysicalRegion.PhysicalRegion.AllocPages` | kernel/memory/PhysicalRegion.cpp:61-82 | the same for several pages; EINVAL iff the order is too large for any zone |
| `PhysicalRegion.PhysicalRegion.FreePage` | kernel/memory/PhysicalRegion.cpp:84-97 | hands the page to the zone that contains it; stops for a reserved region and outside the region |
| `RegionSteps.AllocPagesKeeps` | kernel/memory/PhysicalRegion.cpp:61-82 | on a region in order: when refused, invalid, or stopping, each exactly; which block is taken; the region stays in order iff no zone empties a list while the page before it is listed behind another; counters stay exact iff a power of two |
| `RegionSteps.ScanKeeps` | kernel/memory/PhysicalRegion.cpp:73-79 | the same for the loop over the zones |
| `RegionSteps.ChangeKeeps` | kernel/memory/PhysicalRegion.cpp:73-79 | a change that keeps its own zone in order keeps all zones in order iff its write to the page before it does not hit a list |
| `RegionSteps.HitBreaks` | kernel/memory/PhysicalRegion.cpp:73-79 | a write that hits leaves links that spell no lists |
| `RegionSteps.TookFree` | kernel/memory/PhysicalRegion.cpp:73-79 | exactly the pages of the block stop being free in the whole region |
| `RegionSteps.TookExact` | kernel/memory/PhysicalRegion.cpp:76 | with exact counters, they stay exact iff the request is as large as the block |
| `RegionSteps.FreeKeepsRegion` | kernel/memory/PhysicalRegion.cpp:84-97 | giving back a page in use keeps a region in order and makes exactly that page free |
| `RegionSteps.OnePageIsSafe` | kernel/memory/PhysicalRegion.cpp:42-59 | with exact counters a one-page request never disturbs the zone before, since it is asked only when that one is empty |
| `RegionSteps.TakeOne` | kernel/memory/PhysicalRegion.cpp:42-59 | with exact counters alloc_page succeeds iff the counter is positive, never stops, takes one free page and keeps the region in order |
| `RegionSteps.GiveOne` | kernel/memory/PhysicalRegion.cpp:84-97 | free_page undoes that: the page is free again, counters stay exact |
| `LinkWrites.WritesUsedPage` | kernel/memory/PhysicalRegion.cpp:61-82 | on a region in order a request writes the link of a page that is not free iff it is served, its zone empties a list and the page is the one before that zone; then the back link becomes -1, all other such links are kept |
| `LinkWrites.WrittenIsEdge` | kernel/memory/PhysicalRegion.cpp:61-82 | if that page is in the region, it is the last page of the zone before and the zone that serves is not the first |
| `LinkWrites.ReturnWrites` | kernel/memory/PhysicalRegion.cpp:84-97 | free_page writes no link of another page in use |
| `LinkWrites.UsedLinkIrrelevant` | kernel/memory/PhysicalRegion.cpp:61-97 | whatever the link of a page in use holds, the region is in order with the same lists |
| `BlockRun.TakeStep` | kernel/memory/PhysicalRegion.cpp:61-82 | a power-of-two request on a region in order has the outcome due, and leaves it in order with exact counters iff it is not one that breaks a list |
| `BlockRun.OrderlyUntilBroken` | kernel/memory/PhysicalRegion.cpp:61-97 | any run of power-of-two requests and returns from a region as set up: in order with exact counters and every outcome due, up to the first request that breaks a list, which leaves it out of order for every choice of lists |
| `PageRun.PageBeforeIs` | kernel/memory/PhysicalRegion.cpp:42-59 | which page in use is written is decided by the free pages alone |
| `PageLeaks.RunWhole` | kernel/memory/PhysicalRegion.cpp:42-97 | over any run every page is free, in use or lost, and what is lost stays lost |
| `PageLeaks.OneZoneNeverLeaks` | kernel/memory/PhysicalRegion.cpp:42-97 | in a region of at most one zone a page is free iff nobody holds it, over any run |
| `PageLeaks.SeveralZonesLeak` | kernel/memory/PhysicalRegion.cpp:42-97 | in every region of several zones, taking one page more than the first zone has and dropping the last page of that zone loses it |
| `PageLeaks.LosePage` | kernel/memory/PhysicalRegion.cpp:42-97 | that run made on the region itself: it ends in order, with a page of the region neither free nor held |
| `SharedLinks.TakeNine` | kernel/memory/PhysicalRegion.cpp:42-59 | with a first zone of eight pages in use, alloc_page gives page 8 and sets the back link of page 7 to -1 |
| `SharedLinks.LostPage` | kernel/memory/PhysicalRegion.cpp:42-97 | from a new region of twelve pages: page 7 in use with one reference, one more page requested, and the last unref of page 7 frees nothing |
| `RegionSteps.WholeWhenAllFree` | kernel/memory/PhysicalRegion.cpp:42-97 | with all pages free every zone is one block |
| `RegionRun.Perform` | kernel/memory/PhysicalRegion.cpp:42-97 | each one-page operation has the outcome that the pages held demand |
| `RegionRun.Run` | kernel/memory/PhysicalRegion.cpp:42-97 | any run of one-page requests and returns: refused iff every page is held, else a page nobody holds; no request stops the kernel; with all pages back every zone is one block |
| `SharedLinks.Trace` | kernel/memory/PhysicalRegion.cpp:61-97 | six requests and returns on a new region of twelve pages after which the next alloc_page stops at the assert on the buddy bit, with two pages counted as free |
| `SharedLinks.TakeFour` | kernel/memory/PhysicalRegion.cpp:61-82 | the fourth of them: the second zone gives up its only block and page 7 loses its back link |
| `SharedLinks.GiveSix` | kernel/memory/PhysicalRegion.cpp:84-97 | the fifth: page 7 is merged into a larger block and stays on its old list |
| `AvlTree.FixAvl` | kernel/kstd/map.hpp:116-145 | one turn of the walk makes any subtree that leans by at most two an AVL tree, of the height it had or one less |
| `AvlTree.DoubleRight` | kernel/kstd/map.hpp:127-145 | a double rotation repairs a left-heavy node whose left child leans right |
| `AvlTree.WalkUp` | kernel/kstd/map.hpp:116-124 | after a fix the parent is again off by at most two, so the walk can go on |
| `AvlTree.RebuildAvl` | kernel/kstd/map.hpp:116-124 | the walk to the root gives an AVL tree |
| `AvlTree.InOrderRebuild` | kernel/kstd/map.hpp:116-124 | the walk keeps all entries in their order |
| `AvlTree.ToMapInsert` | kernel/kstd/map.hpp:236-272 | an entry put between smaller and larger keys adds exactly that key |
| `AvlTree.ErasedOrder` | kernel/kstd/map.hpp:274-366 | the entries without one are sorted, one fewer, and the map without its key |
| `AvlTree.RemoveSuccessor` | kernel/kstd/map.hpp:296-311 | moving the successor's data up and splicing it out removes exactly the entry |
| `AvlTree.RemovePredecessor` | kernel/kstd/map.hpp:326-341 | the same with the predecessor |
| `AvlTree.LoneChild` | kernel/kstd/map.hpp:312-354 | in a balanced tree a node with one empty side has a childless child on the other, which is why copying it up suffices |
| `AvlTree.HeightBound` | kernel/kstd/map.hpp:117-124 | a tree of height h has at least Fib(h + 2) - 1 entries |
| `AvlMap.Map.RotateLeft` | kernel/kstd/map.hpp:147-171 | the pointers, heights and root after a left rotation are those of the rotated tree, with parent links |
| `AvlMap.Map.RotateRight` | kernel/kstd/map.hpp:174-198 | the same for a right rotation |
| `AvlMap.Map.Balance` | kernel/kstd/map.hpp:127-145 | the nodes are those of the balanced tree |
| `AvlMap.Map.UpdateHeightAndBalance` | kernel/kstd/map.hpp:117-124 | the nodes are those of the tree rebalanced up to the root |
| `AvlMap.Map.FindNode` | kernel/kstd/map.hpp:213-230 | null iff the key is absent, else the node with the key and its value; it looks at so few nodes that Fib(looked + 2) is at most size + 1 |
| `AvlMap.Map.FindSlot` | kernel/kstd/map.hpp:236-272 | the descent of insert ends at the key or at the one empty slot the key belongs in |
| `AvlMap.Map.Insert` | kernel/kstd/map.hpp:236-272 | null iff the key was there, and then nothing changes; else one new node, exactly that key added, search order, heights, balance, links, root and size kept |
| `AvlMap.Map.EraseLeaf` | kernel/kstd/map.hpp:283-294 | a childless node is gone and the tree rebalanced |
| `AvlMap.Map.EraseForward` | kernel/kstd/map.hpp:295-324 | root or right child: exactly the entry is gone, balance and links kept |
| `AvlMap.Map.EraseBackward` | kernel/kstd/map.hpp:325-355 | left child: exactly the entry is gone, balance and links kept |
| `AvlMap.Map.Erase` | kernel/kstd/map.hpp:274-366 | exactly the key leaves the map; an absent key changes nothing; everything Insert keeps is kept |
| `AvlMap.Map.SubtreeSuccessor` | kernel/kstd/map.hpp:83-90 | the leftmost node of the right subtree |
| `AvlMap.Map.SubtreePredecessor` | kernel/kstd/map.hpp:62-69 | the rightmost node of the left subtree |
| `AvlIterator.Begin` | kernel/kstd/map.hpp:483-490 | an iterator with no key before it |
| `AvlIterator.InorderSuccessor` | kernel/kstd/map.hpp:71-81 | the position one further, or the end |
| `AvlIterator.InorderPredecessor` | kernel/kstd/map.hpp:50-60 | the position one back; from the first entry the end |
| `AvlIterator.Next` | kernel/kstd/map.hpp:422-426 | one position further; the end stays the end |
| `AvlIterator.Prev` | kernel/kstd/map.hpp:435-447 | one position back; from the end the last entry |
| `AvlIterator.PositionInjective` | kernel/kstd/map.hpp:412-413 | two iterators at one position are equal |
| `AvlIterator.Traverse` | kernel/kstd/map.hpp:422-490 | from begin to end every entry is met once, in ascending order of keys |
| `AvlIterator.ForthAndBack` | kernel/kstd/map.hpp:422-447 | stepping back undoes stepping forward iff the iterator is not the end of a non-empty map |
| `AvlIterator.BackAndForth` | kernel/kstd/map.hpp:422-447 | stepping forward undoes stepping back iff the iterator is not the first entry |
| `RegionModel.AllocSpaceKeeps` | kernel/memory/VMSpace.cpp:314-364 | keeps the tiling without free neighbours, and the used total grows by the size or, on failure, not at all |
| `RegionModel.AllocSpaceAtKeeps` | kernel/memory/VMSpace.cpp:366-447 | the same at an address |
| `RegionModel.FreeKeeps` | kernel/memory/VMSpace.cpp:449-484 | freeing keeps the tiling without free neighbours and the used total shrinks by the size |
| `RegionModel.AllocSpaceTakes` | kernel/memory/VMSpace.cpp:314-364 | exactly the size free bytes at the start of the first fitting region become used |
| `RegionModel.AllocSpaceAtTakes` | kernel/memory/VMSpace.cpp:366-447 | exactly the size free bytes at the place chosen become used |
| `RegionModel.FreeGives` | kernel/memory/VMSpace.cpp:449-484 | exactly the bytes of the region become free |
| `RegionModel.PlacedExactly` | kernel/memory/VMSpace.cpp:389-395 | placed at the requested address iff not (region of exactly the size that starts elsewhere) |
| `RegionModel.FreeUndoesAllocSpace` | kernel/memory/VMSpace.cpp:314-484 | freeing a region just allocated restores the list |
| `RegionModel.FreeUndoesAllocSpaceAt` | kernel/memory/VMSpace.cpp:366-484 | the same for an allocation at an address, in all four ways of cutting |
| `RegionModel.FoundIsAccepted` | kernel/memory/VMSpace.cpp:279-447 | alloc_space_at at the address found does what alloc_space does iff the region found is not empty, which it never is for a non-empty request |
| `RegionModel.FoundEmptyIsRefused` | kernel/memory/VMSpace.cpp:279-447 | a reachable list on which an empty request is refused at the address found |
| `RegionModel.AllocSpaceComplete` | kernel/memory/VMSpace.cpp:314-364 | with no empty used regions, it succeeds iff somewhere that many consecutive bytes are free |
| `RegionModel.StepsNoEmpty` | kernel/memory/VMSpace.cpp:90-484 | runs with non-empty requests never leave an empty used region |
| `RegionModel.ReachableComplete` | kernel/memory/VMSpace.cpp:314-364 | so on every list reached that way a request succeeds iff somewhere that many consecutive bytes are free |
| `RegionModel.Misplaced` | kernel/memory/VMSpace.cpp:366-447 | a request for address 12 that ends up at 8 |
| `RegionModel.EmptyUsedSplitsRun` | kernel/memory/VMSpace.cpp:314-364 | a reachable list on which an empty used region splits a run that then cannot be served |
| `RegionModel.StepKeeps` | kernel/memory/VMSpace.cpp:90-221 | map_object, map_stack, reserve and unmap keep the tiling without free neighbours |
| `RegionModel.StepsKeep` | kernel/memory/VMSpace.cpp:90-484 | so does any run from a fresh space |
| `RegionModel.MapTakes` | kernel/memory/VMSpace.cpp:90-116 | a mapping puts into use exactly that many bytes, all free before, at the place alloc_space or alloc_space_at chooses |
| `RegionModel.MappedPiece` | kernel/memory/VMSpace.cpp:90-116 | they are one used and mapped region of exactly that size |
| `RegionModel.StackRoom` | kernel/memory/VMSpace.cpp:132-144 | a stack that is not empty always has room at the end of the last region that fits, and starts there unless that address is 0 |
| `RegionModel.StackAtEnd` | kernel/memory/VMSpace.cpp:132-144 | map_stack puts exactly the bytes at the end of the last region that fits into use, or, when that address is 0, those at the start of the first |
| `RegionList.AddressSpace.constructor` | kernel/memory/VMSpace.cpp:17-22 | one free region of the whole space |
| `RegionList.AddressSpace.FindFreeSpace` | kernel/memory/VMSpace.cpp:279-288 | found iff some free region fits, at the start of the first one |
| `RegionList.AddressSpace.AllocSpace` | kernel/memory/VMSpace.cpp:314-364 | links, regions and used count after a first-fit allocation; a failure changes nothing |
| `RegionList.AddressSpace.AllocSpaceAt` | kernel/memory/VMSpace.cpp:366-447 | the same at an address; ENOMEM iff the region there has no room |
| `RegionList.AddressSpace.FreeRegion` | kernel/memory/VMSpace.cpp:449-484 | the region is free and merged with its free neighbours, links and used count exact |
| `RegionList.AddressSpace.MapStack` | kernel/memory/VMSpace.cpp:132-144 | faults iff no region fits; otherwise returns the region mapped at the end of the last that does, whose bytes were all free |
| `RegionList.AddressSpace.Map` | kernel/memory/VMSpace.cpp:90-116 | null iff there is no room, and then nothing changes; else the region returned is in the list, used and mapped, with exactly the bytes asked for, all free before, at the address chosen |
| `RegionList.AddressSpace.Unmap` | kernel/memory/VMSpace.cpp:168-188 | succeeds iff a mapped region starts there; a failure changes nothing |
| `RegionList.AddressSpace.CloneList` | kernel/memory/VMSpace.cpp:33-52 | the list that fork makes has new regions, correctly linked, with the same pieces and used count |
| `RegionList.AddressSpace.Run` | kernel/memory/VMSpace.cpp:90-484 | any run keeps tiling, links and used count exact and is the run of the model |
| `HeapModel.AlignUpBounds` | kernel/memory/liballoc.cpp:40-53 | an aligned address with room for the alignment byte before it, at most 31 bytes on |
| `HeapModel.UserInside` | kernel/memory/liballoc.cpp:40-53 | the caller's bytes and the alignment byte lie in the allocation's own space behind its header |
| `HeapModel.PagesSuffice` | kernel/memory/liballoc.cpp:197-247 | the pages requested are the fewest that have room for the request and are at least sixteen |
| `HeapModel.LiveApart` | kernel/memory/liballoc.cpp:253-602 | allocations occupy disjoint ranges inside their blocks, clear of every block header |
| `HeapRun.HeldApart` | kernel/memory/liballoc.cpp:253-602 | what two callers hold is 16-byte aligned, disjoint, and clear of every header |
| `HeapModel.FirstGapIs` | kernel/memory/liballoc.cpp:389-556 | a scan that rejects the gaps before the one it takes finds the first gap that fits |
| `HeapModel.TooFull` | kernel/memory/liballoc.cpp:356-385 | a block with too few unused bytes has no gap that fits, so skipping it loses nothing |
| `HeapModel.NoBlockFits` | kernel/memory/liballoc.cpp:356-585 | if the search fails in a block, any range of that many bytes in it meets an allocation |
| `HeapModel.PlaceOk` | kernel/memory/liballoc.cpp:389-556 | an allocation in the first fitting gap keeps all apart, and usage and totals exact |
| `HeapModel.PlaceRecorded` | kernel/memory/liballoc.cpp:389-556 | its header and alignment byte overwrite those of no other allocation |
| `HeapModel.AppendOk` | kernel/memory/liballoc.cpp:558-582 | the same for an allocation in new pages |
| `HeapModel.DropOk` | kernel/memory/liballoc.cpp:612-735 | freeing one of several allocations keeps all apart, and usage and totals exact |
| `HeapModel.RemoveOk` | kernel/memory/liballoc.cpp:704-715 | freeing the last allocation of a block and giving back its pages does too |
| `HeapModel.RemoveRecorded` | kernel/memory/liballoc.cpp:704-715 | no record of another allocation was in the pages given back |
| `HeapModel.FreeUndoesPlace` | kernel/memory/liballoc.cpp:612-735 | freeing what was just allocated restores the heap |
| `HeapLinks.PlaceLinks` | kernel/memory/liballoc.cpp:423-556 | writing a new header between its neighbours, either of which may be missing, gives the linked lists of the heap with that allocation |
| `HeapLinks.DropLinks` | kernel/memory/liballoc.cpp:694-699 | linking the neighbours of a freed header to each other gives the lists without it |
| `HeapLinks.AppendLinks` | kernel/memory/liballoc.cpp:378-382 | a new block behind the last one, or as the first, extends the list of blocks |
| `HeapLinks.RemoveLinks` | kernel/memory/liballoc.cpp:706-715 | taking a block out of the list and its pages out of memory leaves the lists of all others, root included |
| `HeapLinks.PlaceKeeps` | kernel/memory/liballoc.cpp:423-556 | so a placement keeps lists, layout, usage, totals, headers and alignment bytes right together |
| `HeapLinks.DropKeeps` | kernel/memory/liballoc.cpp:689-699 | so does freeing one of several allocations |
| `HeapLinks.RemoveBlockKeeps` | kernel/memory/liballoc.cpp:689-715 | and freeing the last one of a block |
| `KernelHeap.Heap.LinkMinor` | kernel/memory/liballoc.cpp:423-556 | the pointer writes of cases 3, 4.1 and 4.2 each amount to that one insertion, with first and usage of the block |
| `KernelHeap.Heap.PlaceIn` | kernel/memory/liballoc.cpp:423-556 | the allocation is in the first gap that fits, linked, aligned and counted |
| `KernelHeap.Heap.AppendNew` | kernel/memory/liballoc.cpp:378-420 | case 2, and the first block of all |
| `KernelHeap.Heap.UnlinkMinor` | kernel/memory/liballoc.cpp:689-699 | the writes that take a header out of its list |
| `KernelHeap.Heap.ReleaseBlock` | kernel/memory/liballoc.cpp:706-715 | the writes that take a block out of the list |
| `KernelHeap.Heap.FindGap` | kernel/memory/liballoc.cpp:389-556 | the walk along the links of a block finds the first gap that fits and the header before it |
| `KernelHeap.Heap.Search` | kernel/memory/liballoc.cpp:326-585 | the walk along the blocks ends despite the restart from the best bet; the block found is the first that fits from the best bet on, or else the first of all; it fails only if none fits; the best bet after it |
| `KernelHeap.Heap.Malloc` | kernel/memory/liballoc.cpp:253-602 | a pointer into the first fitting gap of the block the search finds, for exactly that request; new pages only if no gap in any block fits; null iff there are none either; all counters and the best bet exact |
| `KernelHeap.ScannedNext` | kernel/memory/liballoc.cpp:326-585 | one turn of the search ends it at the serving block, goes on, or starts the second pass, with the bet it keeps |
| `KernelHeap.Heap.PointerLeadsBack` | kernel/memory/liballoc.cpp:56-64 | the stored offset leads from every live pointer back to its header |
| `KernelHeap.Heap.Free` | kernel/memory/liballoc.cpp:612-735 | frees exactly the allocation of a live pointer and keeps the best bet up to date, counts an error and changes nothing for any other pointer, a warning for null |
| `HeapRun.Run` | kernel/memory/liballoc.cpp:253-735 | any run of requests and returns on a new heap: each request gets a pointer nobody holds or null, each exactly when it must; after every step exactly the pointers held are live; no return counts as an error; with everything back no page and no byte is counted |
| `HeapRun.Perform` | kernel/memory/liballoc.cpp:253-735 | one operation of such a run |
| `LruCache.PromotedKeeps` | kernel/kstd/LRUCache.h:42-54 | promotion permutes the list, puts the key last and keeps the order of the others |
| `LruCache.WithoutKeeps` | kernel/kstd/LRUCache.h:31-39 | one key leaves the list, the others stay in order without repeats |
| `LruCache.LRUCache.Insert` | kernel/kstd/LRUCache.h:19-28 | the value is stored and the key most recently used; list and map agree |
| `LruCache.LRUCache.Erase` | kernel/kstd/LRUCache.h:31-39 | key gone from list and map |
| `LruCache.LRUCache.Promote` | kernel/kstd/LRUCache.h:42-54 | the key moves to the end if it is there |
| `LruCache.LRUCache.Get` | kernel/kstd/LRUCache.h:57-64 | the value if present, and the key becomes the most recently used |
| `LruCache.LRUCache.Prune` | kernel/kstd/LRUCache.h:67-72 | exactly the oldest items leave |
| `LruCache.LRUCache.LruUnsafe` | kernel/kstd/LRUCache.h:82-85 | the oldest key and its value |
| `RingQueue.Queue.PushBack` | kernel/kstd/queue.hpp:58-72 | the value is appended, growing the buffer when full; the whole buffer afterwards |
| `RingQueue.PushedElements` | kernel/kstd/queue.hpp:58-72 | the elements are those before and the new one |
| `RingQueue.Queue.Grow` | kernel/kstd/queue.hpp:74-101 | the contents survive the move to a larger buffer, whose other slots are 0 |
| `RingQueue.Queue.PopFront` | kernel/kstd/queue.hpp:103-115 | the first value leaves |
| `RingQueue.ScanCovers` | kernel/kstd/queue.hpp:147-159 | the scan never misses an element, and covers just the elements iff the stated condition on front, size and capacity holds |
| `RingQueue.FindsElements` | kernel/kstd/queue.hpp:147-159 | every element is found, and nothing else if the queue is empty or the scan covers just the elements |
| `RingQueue.Queue.Contains` | kernel/kstd/queue.hpp:147-159 | true iff some scanned slot holds the value; never false for an element |
| `RingQueue.StaleValues` | kernel/kstd/queue.hpp:147-159 | after pushing 5, 6, 7 and popping 5 the scan finds 5, and 0, which was never pushed |
| `DiskCacheModel.RegionBounds` | kernel/device/DiskDevice.h:50-72 | a region starts on a boundary, holds the block and ends inside the disk |
| `DiskCacheModel.LoadKeeps` | kernel/device/DiskDevice.cpp:133-159 | reading a region in changes no block a caller sees |
| `DiskCacheModel.StoreKeeps` | kernel/device/DiskDevice.cpp:66-77 | writing a block of a cached region changes exactly that block of the flat disk |
| `DiskCacheModel.FlushKeeps` | kernel/device/DiskDevice.cpp:188-190 | writing a region back makes it clean and changes no block a caller sees |
| `DiskCacheModel.EvictKeeps` | kernel/device/DiskDevice.cpp:116-124 | flushing if dirty and dropping a region changes no block a caller sees |
| `DiskCacheModel.InvalidatedHas` | kernel/device/DiskDevice.cpp:57-63 | a region is on the queue afterwards iff it was, or the scan was not misled about it |
| `DiskCacheModel.InvalidatedAllHas` | kernel/device/DiskDevice.cpp:57-79 | the same for the regions of a write, each at its turn |
| `DiskCacheModel.RegionsAre` | kernel/device/DiskDevice.cpp:65-72 | the regions that a request comes to are exactly those of its blocks |
| `DiskCacheModel.RegionsOnce` | kernel/device/DiskDevice.cpp:65-72 | it comes to each of them once |
| `DiskCacheModel.UsedAllIs` | kernel/device/DiskDevice.cpp:133-142 | they are the last ones used afterwards, in that order, and the others keep theirs |
| `DiskCacheModel.EmptyTakesOne` | kernel/device/DiskDevice.cpp:57-63 | a single region always goes on an empty queue |
| `DiskCacheModel.CleanIsRaw` | kernel/device/DiskDevice.cpp:188-190 | outside the dirty regions the raw disk is the flat disk |
| `DiskCache.UnqueuedAfter` | kernel/device/DiskDevice.cpp:57-83 | which dirty regions are not queued after a write: those of the write that were passed over, and the others that were not before |
| `DiskCache.WriteReaches` | kernel/device/DiskDevice.cpp:57-191 | after a write and a writeback that does not give up, a block written is on the raw disk iff its region was queued and not passed over; else the raw disk has what it had |
| `DiskCache.LostWrite` | kernel/device/DiskDevice.cpp:57-191 | on a new device regions 8, 16, 24 and block 0 are written and written back, and block 0 is not on the disk |
| `DiskCache.FlatRemembers` | kernel/device/DiskDevice.cpp:44-83 | disks without a cache hold what was last written |
| `DiskCache.ReadRemembers` | kernel/device/DiskDevice.cpp:44-83 | so what a read must return is, block by block, what was last written |
| `DiskCache.ReadsAre` | kernel/device/DiskDevice.cpp:44-55 | a run answers every read, in order |
| `DiskCache.DiskSystem.Invalidate` | kernel/device/DiskDevice.cpp:57-63 | the queue after it, buffer included |
| `DiskCache.DiskSystem.GetCacheRegion` | kernel/device/DiskDevice.cpp:133-159 | the region with the block, read in if it was not cached, and the last one used; the memory counter grows by a page per region |
| `DiskCache.DiskSystem.ReadBlocks` | kernel/device/DiskDevice.cpp:44-55 | the flat disk's blocks; the regions read are the last used, at that time |
| `DiskCache.DiskSystem.WriteBlocks` | kernel/device/DiskDevice.cpp:57-83 | exactly the blocks written change on the flat disk; the regions written are dirty, the last used, and queued unless the scan finds them; reads through null iff the buffer is empty |
| `DiskCache.DiskSystem.WritebackDevice` | kernel/device/DiskDevice.cpp:169-191 | all regions queued, up to the first no longer cached, are written to the raw disk and clean, and nothing else is; gives up iff there is such a one |
| `DiskCache.DiskSystem.Writeback` | kernel/device/DiskDevice.cpp:161-195 | no flat disk changes; unless it gave up all queues are empty, exactly the regions queued were written to the raw disks, and the dirty regions are those that were not queued |
| `DiskCache.DiskSystem.OldestDevice` | kernel/device/DiskDevice.cpp:93-114 | the first device whose oldest region was used longest ago; none iff nothing is cached |
| `DiskCache.DiskSystem.EvictOldest` | kernel/device/DiskDevice.cpp:116-124 | the region flushed, if dirty, is the one pruned |
| `DiskCache.DiskSystem.FreePages` | kernel/device/DiskDevice.cpp:89-131 | ends; frees as many as asked or all there are, each time the oldest; no flat disk changes |
| `DiskCache.DiskSystem.Run` | kernel/device/DiskDevice.cpp:44-195 | any run returns for each read what flat disks, written at once, would return; clean regions equal the raw disk throughout |
| `Scheduler.PickInv` | kernel/tasking/TaskManager.cpp:247-268 | the thread picked can run and is not queued; every other runnable thread still is |
| `Scheduler.PreemptInv` | kernel/tasking/TaskManager.cpp:319-424 | the queue stays duplicate-free without idle, every runnable thread but the running one is queued, and the thread switched to can run |
| `Scheduler.IdleOnlyIfNothingElse` | kernel/tasking/TaskManager.cpp:247-268 | idle runs only when no other thread can |
| `Scheduler.PreemptAdvances` | kernel/tasking/TaskManager.cpp:319-424 | a runnable thread is picked at once or moves up at least one place |
| `Scheduler.PreemptWakes` | kernel/tasking/TaskManager.cpp:319-341 | a preemption makes exactly the ready threads runnable; each that was blocked runs or is queued then |
| `Scheduler.PreemptQueues` | kernel/tasking/TaskManager.cpp:319-424 | who runs and who is queued, in which order, after a preemption, forced or not |
| `Scheduler.WokenInTurn` | kernel/tasking/TaskManager.cpp:319-424 | a blocked thread whose blocker is ready at a preemption and which stays runnable is picked by one of the first (queued + ready) preemptions |
| `Scheduler.DeadUntilRevived` | kernel/tasking/TaskManager.cpp:226-424 | a thread that blocked or stopped is not runnable and never picked until it is woken |
| `Scheduler.OpEffects` | kernel/tasking/TaskManager.cpp:226-245 | what blocking, adding and stopping a thread do |
| `Scheduler.PickedInTurn` | kernel/tasking/TaskManager.cpp:319-424 | a thread at place k that stays runnable is picked by one of the first k + 1 preemptions of any run |
| `Scheduler.RunInv` | kernel/tasking/TaskManager.cpp:226-424 | any run of preemptions, blocks, new and stopping threads keeps the queue invariant |
| `TaskManager.TaskManager.QueueThread` | kernel/tasking/TaskManager.cpp:226-245 | appended unless idle, not runnable or already queued; the linked chain stays acyclic |
| `TaskManager.TaskManager.PickNextThread` | kernel/tasking/TaskManager.cpp:247-268 | picks as the model does; the linked chain is the model's queue |
| `TaskManager.TaskManager.WakeAll` | kernel/tasking/TaskManager.cpp:324-341 | exactly the blocked threads whose blocker is ready are alive afterwards and queued, in order; no other thread changes state |
| `TaskManager.TaskManager.Preempt` | kernel/tasking/TaskManager.cpp:319-424 | the selection part is the model's step and ends on a thread that can run; exactly the blocked threads whose blocker is ready are alive then, and run or are queued |
| `TaskManager.TaskManager.Spawn` | kernel/tasking/TaskManager.cpp:203-213 | a new thread is queued |
| `TaskManager.TaskManager.Perform` | kernel/tasking/TaskManager.cpp:203-424 | each call comes down to one step of the model that is allowed in the view before it; a preemption wakes exactly the blocked threads whose blocker is ready |
| `TaskManager.TaskManager.Run` | kernel/tasking/TaskManager.cpp:203-424 | so any run of calls is a run of the model, to which the queue invariant and the bound on waiting apply |
| `TaskManager.TaskManager.EnqueueThread` | kernel/tasking/Thread.cpp:484-494 | the recursion down the chain appends the thread unless it meets it |
| `TaskManager.TaskManager.Advance` | kernel/tasking/Thread.cpp:496-500 | the head leaves the chain and forgets its next |
| `TaskManager.TaskManager.Block` | kernel/tasking/Thread.cpp:257-294 | returns at once for a ready or interrupted blocker, panics iff dead or deadlocked, else the running thread can no longer run; invariants kept |
| `TaskManager.TaskManager.StopIfShouldStop` | kernel/tasking/Thread.cpp:594-601 | a thread stops iff it is alive, asked to and not in a critical section; invariants kept |
| `TaskManager.TaskManager.Unblock` | kernel/tasking/Thread.cpp:296-303 | the thread can run and is queued |
| `Scheduler.WakeIs` | kernel/tasking/Thread.cpp:296-303 | waking makes exactly the ready threads alive, none of them blocked, and queues them in order behind all others |
| `Scheduler.WakeInv` | kernel/tasking/Thread.cpp:296-303 | waking threads keeps the queue invariant and everyone's place |
| `PathResolution.ResolvePath` | kernel/filesystem/VFS.cpp:62-132 | ends on every directory graph, cyclic links included, within a bounded number of calls, with the model's result |
| `PathResolution.AtMost127Calls` | kernel/filesystem/VFS.cpp:62-132 | that bound is 127 for a lookup |
| `PathResolution.FollowLink` | kernel/filesystem/VFS.cpp:97-111 | the link case, with its no-follow and keep-link variants |
| `PathModel.LastName` | kernel/filesystem/VFS.cpp:62-132 | where a path to a node with one more name leads: ENOTDIR, EACCES, ENOENT, dots, entries, mounts, and links refused, kept or followed from their directory, each exactly when |
| `PathModel.NextName` | kernel/filesystem/VFS.cpp:62-132 | the same with more behind the name: a link is followed and the rest taken from there |
| `PathModel.FromNode` | kernel/filesystem/VFS.cpp:62-132 | a path behind the path to a node is resolved from that node |
| `PathModel.Dots` | kernel/filesystem/VFS.cpp:85-92 | the path to a directory with /.. behind it resolves to its parent, or the root to itself; with /. to the directory |
| `PathModel.UpAgain` | kernel/filesystem/VFS.cpp:85-92 | going into a directory and up again is as good as not going there |
| `PathModel.SelfLink` | kernel/filesystem/VFS.cpp:62-132 | a link to itself always gives ELOOP |
| `PathModel.ResolveThen` | kernel/filesystem/VFS.cpp:62-132 | a path in two parts resolves part by part, with one level less for each link met |
| `PathModel.ResolveCanonical` | kernel/filesystem/VFS.cpp:62-132 | a node returned was reached over plain entries, mounts followed, no links on its recorded way; only with the keep-link option may it be a link itself |
| `PathModel.FullPathResolves` | kernel/filesystem/VFS.cpp:62-132 | the full path of such a node resolves to that node and parent chain, from anywhere, if its directories can be searched |
| `PathModel.RoundTrip` | kernel/filesystem/VFS.cpp:62-132 | the full path of whatever a resolution returned resolves to it again iff it is no kept link or links are kept again |
| `PathModel.KeptLinkResolves` | kernel/filesystem/VFS.cpp:62-132 | the full path of a kept link resolves to it iff links are kept and not refused |
| `PathModel.KeptLinkDiffers` | kernel/filesystem/VFS.cpp:62-132 | a kept link for which the round trip ends elsewhere |
| `PathResolution.GetFullPath` | kernel/filesystem/LinkedInode.cpp:42-59 | the names from the root; the array of nodes is overrun iff more than 128 are on the way |
| `TcpReceive.SequenceMatches` | kernel/net/TCPSocket.cpp:284-321 | positions less than 2^32 apart share a sequence number iff they are equal |
| `TcpReceive.TcpSocket.Receive` | kernel/net/TCPSocket.cpp:284-321 | out of order: nothing delivered, counted, and answered by a duplicate acknowledgement iff the count passes 8; in order: the count is reset, delivered and acknowledged unless the queue is full, and then not acknowledged unless it carries FIN; state changes iff RST or in-order FIN |
| `TcpReceive.TcpSocket.SendAck` | kernel/net/TCPSocket.cpp:473-477 | sends the number of the position to be acknowledged unless it would repeat the last and is no duplicate |
| `TcpReceive.RefusedFinIsAcked` | kernel/net/TCPSocket.cpp:284-321 | a run in which a FIN refused by a full queue is acknowledged beyond what was received |
| `TcpReceive.TcpSocket.Run` | kernel/net/TCPSocket.cpp:284-321 | under any loss, duplication and reordering what was read and queued is exactly the peer's bytes up to the position, and nothing beyond it was acknowledged while established |
| `TcpReceive.TcpSocket.Enqueue` | kernel/net/IPSocket.cpp:154-170 | refused iff the queue is full |
| `TcpReceive.TcpSocket.Read` | kernel/net/IPSocket.cpp:69-108 | the oldest payload leaves the queue; as much of it as fits is handed over and the rest dropped |
| `Checksum.FoldAdd` | kernel/api/tcp.h:68-100 | adding a word to the folded sum and folding once is adding it to the unfolded sum |
| `Checksum.FoldEachIsFoldAll` | kernel/api/tcp.h:45-103 | folding after every word and folding at the end agree and stay within 16 bits |
| `Checksum.AddWords` | kernel/api/tcp.h:68-93 | the running sum of the loops stays within 16 bits |
| `Checksum.CalculateChecksum` | kernel/api/tcp.h:45-103 | the complement of the one's complement sum of pseudo header, header and payload, for every payload length |
| `Checksum.ChangeNoticed` | kernel/api/tcp.h:45-103 | a changed word changes the checksum iff it is not the two spellings of zero in a sum that is not zero |
| `Checksum.Rfc1071Example` | kernel/api/tcp.h:45-103 | the example of section 3 of RFC 1071: its words, their sum and its checksum |
| `Checksum.SumPut` | kernel/api/tcp.h:45-103 | storing the checksum adds it to the sum of the words |
| `Checksum.TcpChecksumVerifies` | kernel/api/tcp.h:45-103 | recomputing over a segment that carries its checksum gives 0 |
| `Checksum.ComputeIpChecksum` | kernel/api/ipv4.h:103-116 | the same complement, folding at the end |
| `Checksum.ChecksumCancels` | kernel/api/ipv4.h:96-116 | a sum plus its checksum is all ones, so its checksum is 0 |
| `Checksum.IpChecksumVerifies` | kernel/api/ipv4.h:96-116 | recomputing over a header that carries its checksum gives 0 |

## Left out

- Memory: the fork actions Share and Ignore, shared and inode-backed objects, mappings with an object offset, committed and contiguous anonymous objects and the committed-page counter, sentinel pages.
- Memory: TLB and page-table layout; a page directory is a map from virtual page to physical page and write bit.
- VirtualMemory.MemoryManager.AllocPhysicalPage: with no page free the source first evicts disk cache pages and at last stops the kernel; the model returns ENOMEM. Which page is chosen and which is flagged is left open here and exact in `PhysicalPages.TakePhysical`.
- VirtualMemory.MemoryManager.Ref: the overflow panic is recorded in a flag and the count goes on unbounded.
- VirtualMemory.Kernel.MapAnonymous: committed objects are left out; when pages run out half way the source returns an error and never gives back those already taken.
- VirtualMemory.Kernel.Fork: the list of regions that fork also copies is modelled on its own, in `RegionList.AddressSpace.CloneList`.
- PhysicalRegion.PhysicalRegion.constructor: the option to build a region that is already used takes blocks from zones before the table of pages exists, and is not modelled.
- PhysicalRegion.PhysicalRegion: only one region is modelled; what its first zone writes to the page before the region is not followed into another.
- PhysicalPages: a link is a pair of integers, with the count in the low sixteen bits of one and the flag in the low byte of the other, as on a little-endian machine; requests for several pages at once are not combined with counts.
- RegionSteps: links that lead outside a zone's own pages and the page before them are an outcome of their own; the methods are specified for runs without it, and no region in order has it.
- AvlMap.Map: keys are integers, standing for any strict total order; destructor, subscript operators, iterator sums and order comparisons are left out.
- RegionList.AddressSpace.AllocSpaceAt: the two regions the source allocates before its search and leaks on failure, and the asserts on page alignment.
- KernelHeap.Heap: header sizes are those of the 32-bit build; a header is one value at its address, and the bytes of the caller are not modelled.
- KernelHeap.Heap.Free: memory in which the heap never wrote a header is taken not to hold the magic number of one; the overrun counter is not modelled.
- Kernel heap: `krealloc` and `kcalloc`, which lower the size asked for in a header, or copy and clear through the two operations modelled.
- DiskCache.DiskSystem: each call is atomic, raw transfers succeed, the disk is a whole number of regions, and runs contain no empty writes, which the source does not survive.
- Scheduler: `reap`, the back links of the queue, signal dispatch and register contexts; whether a deadlock was found is a parameter.
- PathModel: errors of the inode layer other than a missing entry, the parent output parameter, and names no path can spell; mounts are a map and do not change during a lookup.
- TcpReceive: states other than Established, options, windows and retransmission.
- Locks and interleavings inside one operation, and integer widths other than sequence numbers, checksums and reference counts.
- Drivers, boot code, system calls, networking below IP, terminals, pipes, and routing, which hold no property of comparable depth.

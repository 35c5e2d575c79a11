# Verification of the memory manager

These Dafny modules model the allocators of the memory manager and prove the invariants they rely
on, what each operation does, and what holds over whole runs.  `dafny verify dfyconfig.toml` checks
everything.

The source works by changing things step by step, and so does the model: each component is a class
whose fields are the source's fields, with methods for its functions.  The methods are proved
against functions and predicates on values, and the theorems are lemmas about those.  A region that
runs under a lock is one atomic step; other threads run where the source drops the lock.

- **Buddy allocator** (`Bits`, `Lists`, `Buddy`, `ZoneAllocator`, `Watermark`, `PageAllocator`).
  `Buddy` treats the free blocks as a map from block heads to orders.  No two buddies below the
  largest order are both free, so the map is determined by the set of free pages.  `ZoneAllocator`
  has the page array with flags and orders, the lists and the counters, and shows that they
  represent that map.  `PageAllocator` adds the per-CPU lists and the holders of pages: every page is
  in exactly one place.  `Watermark` is the gate in front.
- **Boot allocator** (`Bootmem`, `BootAlloc`, `Handover`).  The first-fit search, the placement of
  requests with merging into a partly used page, and the handover to the page allocator.
- **Slab allocator** (`SlabStore`, `SlabOwners`, `SlabSteps`, `SlabBatch`, `SlabRefill`, `SlabCache`,
  `SlabGeometry`).  `SlabStore` has the chains through the bufctl arrays and the three lists,
  `SlabOwners` the place of each object, `SlabSteps` what each kind of change does to both, `SlabBatch`
  and `SlabRefill` what a whole batch and a whole refill come to, `SlabCache` the cache with its array
  caches.  `SlabGeometry` is the layout arithmetic.
- **Persistent kmaps** (`KmapProtocol`, `Pkmap`).  The protocol between threads, and the class with
  counts, ptes and the hash table whose methods are its steps.
- **Vmalloc** (`VmList`, `Vmalloc`).  The sorted area list with the search for a gap, and the walkers
  over the page table as updates of one flat map, with the second-level tables that exist.
- **Mempool** (`MempoolProtocol`, `MempoolRuns`, `MempoolWitnesses`, `Mempool`).  The protocol between
  allocations, frees and resizes, what holds over its runs, two runs that show what does not, and the
  class whose methods are its steps.

Where the source does not do what one would expect, the model follows the source:

- `mm/page_alloc.c:1131` refills a per-CPU list when its count is at least `low`, while
  `include/biscuitos/mmzone.h:82` says that `low` means a refill is needed.  The count is therefore
  not claimed to stay below `high`.
- `mm/bootmem.c:188-200` finds every free run only for alignments up to a page
  (`Bootmem.CompleteIffAtMostAPage`), and alignment zero makes a merged request overlap the previous
  one (`BootAlloc.DisjointIffAligned`).  A range reserved in the tail of a partly used page is handed
  out by a later request (`BootAlloc.SafeFromMerges`, `BootAlloc.ReserveInTail`).
- `mm/vmalloc.c:198-212` does not compare an address with the end of the window when the list is
  exhausted or an area begins below the address (`VmList.FindGap`, `VmList.AcrossEscapes`,
  `VmList.IoremapLeavesWindow`).
- `mm/vmalloc.c:38-48` takes the table of a section without looking whether there is one, since
  `pgd_none_bs` and `pud_none_bs` are constant zero.  Removing an area whose guard page begins a new
  section, and the rollback of a `vmap_bs` that could not get a table, walk memory that is no table
  (`Vmalloc.VmSpace.GuardPageStrays`, `Vmalloc.VmSpace.Vmap`).
- `mm/slab.c:1562-1577` runs the callback for all CPUs on the local CPU only.  `Shrink`, `Tune` and
  `DrainCpuCaches` say exactly what that leaves behind; the exact results about live objects are for
  one CPU.
- `mm/mempool.c:151-155` adds elements without waking the sleepers (`MempoolRuns.WakeupsIff`,
  `MempoolWitnesses.SleeperForgotten`), and `mm/mempool.c:117-125` keeps the array large enough only
  if one resize runs at a time (`MempoolRuns.BoundsIff`, `MempoolWitnesses.OverlappingResizesBreak`).

## Model

| member | source | states |
|---|---|---|
| `Buddy.HalvesJoin` | mm/page_alloc.c:774-787 | a block and its buddy are aligned alike, are each other's buddy, do not overlap, and together are the block one order up |
| `Buddy.InsertCorrect` | mm/page_alloc.c:813-851 | freeing a block with coalescing keeps the free blocks aligned, in range, disjoint and canonical, and adds exactly the pages of the block |
| `Buddy.CanonicalUnique` | mm/page_alloc.c:789-811 | two canonical sets of free blocks with the same free pages are equal: the free lists are a function of the set of free pages |
| `Buddy.FreeRunInOneBlock` | mm/page_alloc.c:789-811 | in a canonical state an aligned run of free pages lies inside one free block, so nothing that could be merged stays split |
| `Buddy.FreeOrderIrrelevant` | mm/page_alloc.c:813-851 | freeing the same blocks in any order leaves the same free blocks |
| `Buddy.SplitCorrect` | mm/page_alloc.c:1008-1024 | splitting gives back all of a block but its lowest part of the wanted order, as canonical blocks |
| `Buddy.SplitThenInsert` | mm/page_alloc.c:1008-1050 | taking a block by splitting and then freeing it restores the free blocks |
| `ZoneAllocator.Zone.constructor` | mm/page_alloc.c:345-381 | a zone with nothing free: all pages reserved, all lists empty |
| `ZoneAllocator.Zone.TakeBuddy` | mm/page_alloc.c:833-843 | the buddy, found through the index in the largest block and tested by flag, order, reservation and count, is taken off its list exactly when it is free at the same order and in the zone |
| `ZoneAllocator.Zone.Coalesce` | mm/page_alloc.c:828-847 | the merging loop ends at the block that coalescing on sets of blocks puts in place |
| `ZoneAllocator.Zone.FreeBlock` | mm/page_alloc.c:813-851 | the free lists, flags, nr_free and free_pages after the call represent the canonical insertion of the block; the two BUG_ONs cannot fire for an allocated block |
| `ZoneAllocator.Zone.Expand` | mm/page_alloc.c:1008-1024 | the upper halves go to their lists one order at a time, all inside the zone; the result represents the split |
| `ZoneAllocator.Zone.Rmqueue` | mm/page_alloc.c:1030-1050 | NULL exactly when no list of the order or above has a block, and then nothing changed; else the head of the first non-empty list is taken, its rest is given back, free_pages drops by the size, and the block handed out was free |
| `ZoneAllocator.BuddyTest` | mm/page_alloc.c:747-755 | flag, order, reservation and count together say that the page heads a free block of the order |
| `ZoneAllocator.BuddyIndex` | mm/page_alloc.c:774-787 | the index arithmetic inside a block of the largest order gives the buddy and the combined block of the page frame itself |
| `ZoneAllocator.TakeOffOk` | mm/page_alloc.c:732-736 | taking a head off its list keeps lists, flags, counts and the page sum in agreement |
| `ZoneAllocator.PutOnOk` | mm/page_alloc.c:726-730 | putting a head on the list of its order keeps lists, flags, counts and the page sum in agreement |
| `ZoneAllocator.InsertListsIs` | mm/page_alloc.c:813-851 | the block that the pages handed back end up in heads the list of its order; on the lists of the orders below one block each has gone, and all other lists are as they were |
| `ZoneAllocator.SplitListsIs` | mm/page_alloc.c:1008-1024 | splitting puts each upper half at the head of the list of its order and touches no other list |
| `Watermark.ZoneWatermarkOk` | mm/page_alloc.c:965-991 | the result in mixed signed and unsigned 32-bit arithmetic equals the condition in plain integers, for every order up to the requested one |
| `Watermark.ReducedMark` | mm/page_alloc.c:969-975 | half the mark for urgent callers, three quarters for those that try harder, rounded up, and both in turn for callers of both kinds; never less than three eighths of the mark |
| `Watermark.ShrIsQuotient` | mm/page_alloc.c:984-985 | the mark of each higher order is the mark divided by the power of two, rounded down |
| `Watermark.LargerBlockExists` | mm/page_alloc.c:980-989 | more free pages than the lists below an order account for means a free block of that order or above |
| `Watermark.GateIsSound` | mm/page_alloc.c:965-991 | an open gate means a free block of at least the order exists and the mark plus the reserve stays free after taking one |
| `Watermark.AllocPastGate` | mm/page_alloc.c:965-1050 | after an open gate the allocation succeeds and leaves at least the reduced mark plus the reserve |
| `PageAllocator.Allocator.FreePagesBulk` | mm/page_alloc.c:864-884 | the last n pages of a per-CPU list, or all, go to the buddy lists; returns how many; every other page is where it was |
| `PageAllocator.Allocator.RmqueueBulk` | mm/page_alloc.c:1057-1075 | up to n pages go from the buddy lists to the end of the list, fewer only when no block is left; every other page is where it was |
| `PageAllocator.Allocator.BufferedRmqueue` | mm/page_alloc.c:1118-1161 | the block handed out was nobody's before and belongs to one holder after, with one reference; a single page is the first of the per-CPU list, which before that has got a batch exactly if its count had reached low, fewer pages only when no block is left; otherwise the block is the first of the first list that has one, and there is none only if there is no such list; every other page is where it was |
| `PageAllocator.Allocator.Refill` | mm/page_alloc.c:1131-1133 | a batch of pages, fewer only when no block is left, goes from the buddy lists to the end of the per-CPU list, and the count follows; every other page is where it was |
| `PageAllocator.Allocator.PopHead` | mm/page_alloc.c:1134-1138 | the first page of the list becomes held, and the count follows |
| `PageAllocator.Allocator.FreeHotColdPage` | mm/page_alloc.c:906-928 | the page becomes the first of its list; exactly if the count had reached high, the last pages of the list, a batch or all, have gone to the buddy lists before; the count is the length of the list and every other page is where it was |
| `PageAllocator.Allocator.FreePagesOk` | mm/page_alloc.c:886-900 | a block of any order goes back to the buddy lists |
| `PageAllocator.Allocator.FreePagesRef` | mm/page_alloc.c:935-943 | only the last reference frees the block: a larger block goes to the buddy lists, and a single page to the front of the hot list, which may first give a batch back; every other page is where it was |
| `PageAllocator.Allocator.Adopt` | mm/bootmem.c:286-295 | a page nobody knew becomes a held block with one reference and without the reserved flag |
| `PageAllocator.PcpToBuddy` | mm/page_alloc.c:875-882 | every page stays in exactly one place when the tail of a per-CPU list goes to the buddy lists |
| `PageAllocator.PcpToHeld` | mm/page_alloc.c:1134-1138 | every page stays in exactly one place when the head of a per-CPU list is handed out |
| `PageAllocator.BuddyToHeld` | mm/page_alloc.c:1143-1152 | every page stays in exactly one place when a block is handed out |
| `PageAllocator.HeldToFreeing` | mm/page_alloc.c:935-943 | the pages of a held block leave its holder together when the last reference goes |
| `Bootmem.ScanSound` | mm/bootmem.c:184-201 | a pass of the search only finds aligned runs of clear bits inside the map |
| `Bootmem.ScanComplete` | mm/bootmem.c:184-201 | with steps of one page a failing pass leaves no free run at or above its start |
| `Bootmem.ScanFirst` | mm/bootmem.c:184-201 | with steps of one page no run below the one found and at or above the start is free: first fit |
| `Bootmem.CompleteIffAtMostAPage` | mm/bootmem.c:178-207 | the search finds a run whenever there is one, for every map, goal and size, exactly when the alignment is at most a page |
| `Bootmem.MissedRun` | mm/bootmem.c:184-201 | for every larger step a concrete map whose free aligned run the search steps over |
| `BootAlloc.BootmemData.constructor` | mm/bootmem.c:47-68 | everything starts reserved |
| `BootAlloc.BootmemData.FreeCore` | mm/bootmem.c:70-100 | exactly the pages that lie wholly in an owned range become free, none was free before (the BUG is unreachable), the bytes leave their owner, last_success moves down |
| `BootAlloc.BootmemData.ReserveCore` | mm/bootmem.c:107-130 | exactly the pages that the range touches become reserved; whether one was reserved before is reported exactly; the range gets an owner exactly when its bytes are nobody's and miss the unused tail of the last allocation |
| `BootAlloc.BootmemData.AllocCore` | mm/bootmem.c:144-253 | NULL exactly when the two-pass search fails; else the bytes returned are owned by nobody before and aligned as asked (for more than a page, exactly when the node is), with the one exception of a merge with alignment zero; exactly the pages that they touch become reserved, and the last page and offset are those of their end; for alignments up to a page the run taken is the first from the preferred page on, or else the first of all, and NULL means there is none |
| `BootAlloc.BootmemData.TakeRun` | mm/bootmem.c:209-253 | a found run is reserved, bit by bit without meeting a set bit, for every alignment; the merged or separate range is new, except when a merge has alignment zero |
| `BootAlloc.BootmemData.MergeOrStart` | mm/bootmem.c:218-243 | the merge decision and its fields, for alignment zero as well, agree with the placement function, whose ranges are proved disjoint and whose pages are proved to be those the bytes touch |
| `BootAlloc.BootmemData.ScanFrom` | mm/bootmem.c:184-201 | the pass with in-loop skipping terminates; with steps of one page the run found is the first free one at or above its start |
| `BootAlloc.PlaceFresh` | mm/bootmem.c:218-243 | a placed request gets bytes nobody owns, in pages that are or become reserved |
| `BootAlloc.PlaceOk` | mm/bootmem.c:218-251 | after a request is placed the rest of the last page is again reserved and owned by nobody |
| `BootAlloc.PlaceAligned` | mm/bootmem.c:218-243 | the address is aligned as asked up to a page, and beyond a page exactly when the node start is |
| `BootAlloc.PlaceExact` | mm/bootmem.c:218-251 | placing a request reserves exactly the pages that its bytes touch, merged or not, and the last page and offset are those of their end |
| `BootAlloc.OffsetIs` | mm/bootmem.c:159-163 | the offset is the distance in pages from the node's start to the next address with the alignment |
| `BootAlloc.PreferredIs` | mm/bootmem.c:169-179 | the search begins at the goal, or at the last success if that is further up, rounded up to the alignment; without a usable goal at the first aligned page |
| `BootAlloc.DisjointIffAligned` | mm/bootmem.c:218-243 | ranges never overlap, over all states and requests, exactly when the alignment is not zero |
| `BootAlloc.SafeFromMerges` | mm/bootmem.c:218-243 | a range that is reserved but nobody's is safe from the next request exactly when it misses the unused tail of the last page, or the page after that is not free |
| `BootAlloc.SafeInRuns` | mm/bootmem.c:70-253 | over any run of requests, frees by owners and reservations elsewhere, a reserved range that is nobody's and misses the tail is never handed out |
| `BootAlloc.ReserveInTail` | mm/bootmem.c:107-253 | a range reserved in the tail of the last page is handed out by the next request |
| `Handover.ReleasePages` | mm/bootmem.c:271-314 | exactly the pages with a clear bit are released, in increasing blocks, of 32 pages only on 32-page boundaries; on a node where the fast path is taken every word of clear bits is one block; the count is the number of clear bits |
| `Handover.ReleasedOnce` | mm/bootmem.c:280-314 | no page is released twice: the blocks hold as many pages as there are clear bits |
| `Handover.WordsAligned` | mm/bootmem.c:276-279 | the test for the fast path makes every word of the bitmap start on a 32-page boundary |
| `Handover.MapPagesReturned` | mm/bootmem.c:33-42 | the bitmap pages given back are those that were allotted for it, one fewer exactly when the page count modulo 32768 is 1 to 7 |
| `Handover.FreeAllCore` | mm/bootmem.c:260-334 | total is the number of clear bits plus the number of bitmap pages given back |
| `Handover.HandOverOne` | mm/bootmem.c:286-306 | a released block ends up in the page allocator and in nobody's hands |
| `Handover.HandOverAll` | mm/bootmem.c:260-334 | with the bitmap's own pages: afterwards the page allocator knows exactly the pages it knew, those with a clear bit and those of the bitmap, none of the new ones held, and total is the number of new pages |
| `KmapProtocol.StepKeeps` | mm/highmem.c:198-309 | every step of every thread keeps the page table injective and in agreement with the counts, each count one more than the outstanding mappings, and loses no wakeup |
| `KmapProtocol.RunSafe` | mm/highmem.c:198-309 | the same in every state of every interleaving |
| `KmapProtocol.BlocksExactly` | mm/highmem.c:203-237 | a thread that needs a slot sleeps exactly when all slots have users |
| `KmapProtocol.AddressFixed` | mm/highmem.c:249-309 | while a page has users its slot does not change, over any stretch of any run |
| `KmapProtocol.SlotReuse` | mm/highmem.c:158-196 | over any stretch of any run, a slot that belongs to another page at the end was given up in between, in a step that flushed it while its page had no users |
| `KmapProtocol.FlushIdle` | mm/highmem.c:164-193 | a flush that leaves every slot in use has changed nothing |
| `Pkmap.Pkmap.constructor` | mm/highmem.c:59-71 | the pool holds every entry, the hash table and the slots are empty |
| `Pkmap.Pkmap.PageAddress` | mm/highmem.c:78-104 | the bucket walk finds base plus slot number times page size for a mapped page and NULL for any other |
| `Pkmap.Pkmap.AddAddress` | mm/highmem.c:116-130 | the pool is not empty (the BUG_ON is unreachable) and the hash table gains the one association |
| `Pkmap.Pkmap.RemoveAddress` | mm/highmem.c:131-147 | the hash table loses exactly the association of the page, and the entry returns to the pool |
| `Pkmap.Pkmap.FlushSlot` | mm/highmem.c:173-192 | the pte of a slot with count one is set (the BUG is unreachable); pte, count and association go together |
| `Pkmap.Pkmap.FlushAllZero` | mm/highmem.c:158-196 | all slots without users become free and lose their page, all others keep theirs; one flush is recorded |
| `Pkmap.Pkmap.ScanForSlot` | mm/highmem.c:203-216 | the ring scan ends at the next free slot after the last one; only if there is none up to the end of the ring does it flush, and then it ends at the first free slot, or with every slot in use |
| `Pkmap.Pkmap.MapNewVirtual` | mm/highmem.c:198-247 | a free slot, found at once or after a flush, becomes the slot of the page; otherwise the flush left every slot in use |
| `Pkmap.Pkmap.KmapHigh` | mm/highmem.c:249-268 | up to the release of the lock: the mapped address with one more use (the BUG is unreachable), where a page without a slot gets the next free one of the ring, or a sleep, which happens exactly when the page has no slot and all slots have users |
| `Pkmap.Pkmap.KunmapHigh` | mm/highmem.c:271-309 | one use less; both BUGs are unreachable; a wakeup follows exactly when the count fell from two to one with somebody on the queue |
| `Pkmap.Pkmap.WakeUp` | mm/highmem.c:306-308 | every sleeper becomes runnable |
| `Pkmap.Pkmap.LeaveQueue` | mm/highmem.c:226-228 | a woken thread leaves the queue and tries again |
| `Pkmap.PoolHasEntry` | mm/highmem.c:117-122 | as many mapped pages as entries are needed to empty the pool |
| `Pkmap.FreeSlotLeavesRoom` | mm/highmem.c:212-244 | while a slot is free fewer pages than slots are mapped |
| `SlabStore.InitObjs` | mm/slab.c:753-801 | the new bufctl array links all objects in order and ends with the end mark |
| `SlabStore.TakeObjects` | mm/slab.c:965-980 | objects leave in chain order until the slab or the batch is exhausted, with the counter left as the loop leaves it |
| `SlabStore.PutBackOk` | mm/slab.c:1396-1399 | an object put back becomes the head of a well formed chain |
| `SlabStore.CheckSlabp` | mm/slab.c:586-600 | the check passes exactly when some chain of num - inuse distinct indices fits the slab |
| `SlabStore.RelistOk` | mm/slab.c:983-988 | a slab moved to the list of its new kind keeps the lists exact and changes the total of free objects by its own |
| `SlabStore.DestroyedOk` | mm/slab.c:1403-1406 | a destroyed free slab leaves the lists exact and takes num free objects with it |
| `SlabSteps.TakeDone` | mm/slab.c:962-992 | every object stays in exactly one place while a refill takes some from a slab |
| `SlabSteps.FreeDone` | mm/slab.c:1383-1418 | every object stays in exactly one place while one is freed to its slab, also when that destroys the slab |
| `SlabCache.ExactlyOnePlace` | mm/slab.c:912-1498 | every object of every slab is in exactly one of its chain, one CPU array, the shared array, or a client's hands, and no list holds it twice |
| `SlabCache.Cache.constructor` | mm/slab.c:2097-2134 | an empty cache with the limits of a cache that is not tuned yet |
| `SlabCache.Cache.Grow` | mm/slab.c:831-910 | a new slab with all objects free at the tail of the free list and num more free objects, with the next colour in turn; nothing but the colour changes without memory |
| `SlabCache.Cache.TakeFromSlab` | mm/slab.c:962-988 | one turn of the refill loop: the objects taken, in chain order, and the slab at the head of full if it is used up, else of partial |
| `SlabCache.Cache.RefillFromShared` | mm/slab.c:934-947 | a refill from the shared array takes its tail, as much as batch and content allow |
| `SlabCache.Cache.RefillFromSlabs` | mm/slab.c:949-992 | a refill takes a full batch unless the slabs run out, from the heads of the partial list and then of the free list, from each slab the front of its chain; no slab comes or goes; never an object in use |
| `SlabCache.Cache.Refill` | mm/slab.c:921-994 | the batch is capped for an untouched array; the objects come from the end of the shared array if it has any, else from the slabs |
| `SlabCache.Cache.Alloc` | mm/slab.c:1267-1289 | the object returned was with no client; it is the last of the array, or on a miss the last of a refill from the shared array, else from the slabs; only when there is nothing in array, shared array and slabs does the cache grow, by exactly the one new slab that all objects then come from; NULL exactly when there is no memory for that |
| `SlabCache.Cache.FreeToSlab` | mm/slab.c:1385-1418 | the slab goes exactly when this was its last object in use and there are more free objects than the limit; otherwise the object is at the head of its chain and the slab at the head of free or the end of partial; every other slab is as it was |
| `SlabCache.Cache.FreeBlock` | mm/slab.c:1370-1420 | all objects of a batch return to their slabs; a slab that the batch has put on the free list means that the limit is kept, and one that has gone that it would not be kept with it |
| `SlabBatch.AllFreed` | mm/slab.c:1370-1420 | over a whole batch each slab gets back as many objects as the batch has of it; only a slab all of whose objects came back can go; the count of free objects falls by num for each that went |
| `SlabCache.Cache.FlushArray` | mm/slab.c:1422-1472 | a batch from the front goes to the end of the shared array as far as there is room, else a whole batch back to the slabs |
| `SlabCache.Cache.Release` | mm/slab.c:1481-1498 | the freed object becomes the last entry of the array; only an array at its limit is flushed before; no other client is affected |
| `SlabCache.ToFree` | mm/slab.c:2224-2227 | a forced drain takes all; any other a fifth of the limit rounded up, or half the entries rounded up if there are fewer |
| `SlabCache.Cache.DrainArrayLocked` | mm/slab.c:2215-2233 | a touched array only loses its mark; otherwise the front part goes back to the slabs and a non-empty array gets strictly smaller |
| `SlabCache.Cache.DrainCpuCaches` | mm/slab.c:2403-2424 | the arrays of this CPU and the shared one are empty; every other object stays where it was |
| `SlabCache.Cache.Shrink` | mm/slab.c:2427-2461 | returns nonzero exactly when a client or the array of another CPU has an object; every slab without such an object has been destroyed |
| `SlabCache.OneCpu` | mm/slab.c:2427-2461 | with one CPU those objects are exactly the live ones |
| `SlabCache.Cache.DestroyCache` | mm/slab.c:2480-2525 | with one CPU it fails exactly when an object is live |
| `SlabCache.Cache.Tune` | mm/slab.c:1579-1635 | the array of this CPU and the shared array are replaced by empty ones with the new limits, all their objects go back to the slabs, no client loses an object |
| `SlabCache.Cache.Account` | mm/slab.c:2777-2804 | the counting finds no accounting error: full, partial and free lists are right and the difference is free_objects |
| `SlabGeometry.CacheEstimate` | mm/slab.c:2188-2213 | the count fits and one more does not; the rest is what is left over |
| `SlabGeometry.CountIsLargest` | mm/slab.c:2201-2204 | a number of objects fits exactly when it is at most that count |
| `SlabGeometry.PageIsEnough` | mm/slab.c:2035-2041 | an off-slab cache has at most eight objects in one page, so the order is never lowered below zero |
| `SlabGeometry.ChooseOrder` | mm/slab.c:2024-2055 | the search terminates; it fails exactly when one object does not fit in the largest order, keeps an off-slab count within the limit, and has rejected every smaller order |
| `SlabGeometry.FinalAlign` | mm/slab.c:1928-1959 | the alignment is a power of two that covers the caller's; cache line alignment is halved only as far as an object still fills more than half |
| `SlabGeometry.ObjectShape` | mm/slab.c:1923-2012 | alignment, least aligned size, and whether management starts off-slab |
| `SlabGeometry.WordSize` | mm/slab.c:1923-1926 | the size is rounded up to whole words |
| `SlabGeometry.PlaceManagement` | mm/slab.c:2065-2088 | management moves on-slab exactly when what is left over has room for it, takes no more than it needs, and the colours use up the rest; all layout bounds hold |
| `SlabGeometry.CreateLayout` | mm/slab.c:1923-2088 | every accepted size and alignment gives a layout within the bounds, with the least aligned size, the largest count for its order and the order that the search chooses; objects start off-slab exactly from 512 bytes on, counted in words; it fails exactly when one object does not fit |
| `SlabGeometry.ObjectsInside` | mm/slab.c:716-735 | for every colour every object is aligned and inside the pages, behind the management structure if that is on-slab |
| `SlabGeometry.ObjectsDisjoint` | mm/slab.c:753-758 | different objects of a slab do not overlap |
| `SlabGeometry.ObjectNrOf` | mm/slab.c:1387 | the object number computed from any address inside an object is its own |
| `VmList.FindGap` | mm/vmalloc.c:180-212 | the address found is the lowest aligned free one at or above start; failure means every free aligned address is too high for the window; for every alignment the address leaves the window exactly when the lowest free place does not fit it and no candidate before was compared with the end and found too high |
| `VmList.AlignForIs` | mm/vmalloc.c:170-180 | a request for I/O memory is aligned to the least power of two above its size, but to a page at least and to half a megabyte at most |
| `VmList.PlainEscapes` | mm/vmalloc.c:197-212 | without alignment a request leaves the window exactly when it is free at its first place, the start or the end of an area across it, and does not fit there |
| `VmList.EmptyEscapes` | mm/vmalloc.c:176-212 | with an empty list a request leaves the window exactly when it does not fit at the aligned start |
| `VmList.NoEscape` | mm/vmalloc.c:197-212 | a request without alignment no larger than the window stays inside it when no area reaches across its start |
| `VmList.AcrossEscapes` | mm/vmalloc.c:198-204 | with an area across the start an ordinary request leaves the window exactly when it fits behind that area but not within the window |
| `VmList.IoremapLeavesWindow` | mm/vmalloc.c:170-212 | the search puts two pages of I/O memory behind the end of an empty window of just their size |
| `Vmalloc.PgdAddrEndFacts` | arch/arm/include/asm-generated/pgtable.h:568-571 | the 32-bit boundary arithmetic makes progress, never passes the end and stays in one section |
| `Vmalloc.VmSpace.UnmapVmArea` | mm/vmalloc.c:38-82 | the walk stays inside the second-level tables exactly when every section of the area and its guard page has one; then exactly their pages lose their translation, otherwise it has gone astray after a part of them |
| `Vmalloc.VmSpace.VmapPteRange` | mm/vmalloc.c:84-103 | the pages of the range are mapped in order from the cursor, up to a NULL entry or a missing table; none was mapped before |
| `Vmalloc.VmSpace.MapVmArea` | mm/vmalloc.c:137-159 | it succeeds exactly when no page of the area is NULL and there are as many spare tables as sections without one; then page i is mapped to pages[i] for every i and nothing else changes; a failure leaves exactly the pages before the failing one mapped |
| `Vmalloc.VmSpace.GetVmArea` | mm/vmalloc.c:163-233 | the list stays sorted, page-aligned and disjoint with guard pages; the area is at the lowest aligned free address; failure of the search means no room |
| `Vmalloc.VmSpace.RemoveVmArea` | mm/vmalloc.c:251-270 | the area that begins at the address goes, with exactly its translations; none such, nothing changes; the walk goes astray exactly when a section of the area has no table |
| `Vmalloc.UndoneOk` | mm/vmalloc.c:410-417 | removing a new area, however much of it was mapped, restores list and translations |
| `Vmalloc.VmSpace.Vmap` | mm/vmalloc.c:402-420 | an area is reserved exactly when the count is positive and within physical memory, there is memory for its entry, and the search finds room; then all pages are mapped at the lowest free address exactly when none is NULL and the spare tables are enough; a failure undoes the reservation completely, or goes astray exactly when a section of the area has no table, as always when no NULL entry was the reason |
| `Vmalloc.VmSpace.MapOrRemove` | mm/vmalloc.c:410-417 | a mapping that fails is undone only for a NULL entry, and then list and translations are as before |
| `Vmalloc.GuardDecides` | mm/vmalloc.c:38-82 | once the pages of an area are in tables, the walk over area and guard page stays inside them exactly when the section of the guard page has one |
| `Vmalloc.VmSpace.MapThenRemove` | mm/vmalloc.c:137-270 | an area whose guard page begins a section without a table goes astray when it is removed, whether its pages could be mapped or not |
| `Vmalloc.VmSpace.GuardPageStrays` | mm/vmalloc.c:163-270 | the first area of an empty space, one page at 0xe01ff000, goes astray in that way |
| `Vmalloc.OneWindow` | mm/vmalloc.c:163-233 | in any run in which all requests name one window, a request without alignment that is no larger than the window stays inside it |
| `MempoolRuns.ClientStepKeeps` | mm/mempool.c:197-266 | every step of an allocation or a free keeps 0 <= curr_nr <= min_nr <= capacity, loses and duplicates no element, keeps the guarantee and forgets no sleeper, whatever resizes run |
| `MempoolRuns.ResizeStepKeeps` | mm/mempool.c:107-166 | every step of a resize keeps every element; the bounds unless a shrink overflows the array, the guarantee unless min_nr is raised, and the sleepers unless an element is added while one sleeps and nobody is waking |
| `MempoolRuns.RunSafe` | mm/mempool.c:107-266 | bounds and elements in every state of every interleaving with one resize at a time |
| `MempoolRuns.WakeupsIff` | mm/mempool.c:107-266 | over a whole run nobody is ever forgotten exactly when no resize adds an element while a thread sleeps and none is waking |
| `MempoolWitnesses.SleeperForgotten` | mm/mempool.c:107-266 | a run with one resize that ends with a sleeper, elements in the pool and nobody waking |
| `MempoolRuns.ReturnWakes` | mm/mempool.c:250-266 | a thread that sleeps when an element comes back to the pool has left its sleep by the time the wakeup of that return is over |
| `MempoolRuns.ReserveLasts` | mm/mempool.c:107-266 | the guarantee that min_nr elements are in the pool or will come back to it, once it holds, holds on until a resize raises min_nr |
| `MempoolRuns.ReserveAfterShrink` | mm/mempool.c:117-126 | it holds for the new min_nr as soon as a shrink is done |
| `MempoolRuns.ReserveAfterFill` | mm/mempool.c:146-163 | it holds again when a growing resize has filled the pool |
| `MempoolRuns.EmptyMeansOutstanding` | mm/mempool.c:17-27 | in a run in which no resize has raised min_nr, an empty pool that is not being shrunk means that clients have at least min_nr elements which will come back to it |
| `MempoolRuns.BoundsIff` | mm/mempool.c:107-266 | with any number of resizes at once the bounds hold in every state of a run exactly when each shrink that sets min_nr fits the array then in place |
| `MempoolWitnesses.OverlappingResizesBreak` | mm/mempool.c:107-166 | a run with two overlapping resizes, from a full pool of four, after which min_nr is three and the array has room for two |
| `Mempool.Pool.AddElement` | mm/mempool.c:17-21 | the element goes on top |
| `Mempool.Pool.RemoveElement` | mm/mempool.c:23-27 | the top element goes out |
| `Mempool.Pool.FreePool` | mm/mempool.c:29-38 | all elements go back, last one first |
| `Mempool.Pool.Create` | mm/mempool.c:54-89 | succeeds exactly when the allocator yields min_nr elements, and then the pool holds them; otherwise all are given back |
| `Mempool.Pool.AllocLocked` | mm/mempool.c:216-221 | an element exactly when the pool has one; otherwise the caller fails or goes on to the queue |
| `Mempool.Pool.AllocQueue` | mm/mempool.c:221-229 | a thread that missed is queued in a step of its own, after the lock was released |
| `Mempool.Pool.FreeLocked` | mm/mempool.c:254-265 | the element goes into the pool if there is room, else back to the allocator |
| `Mempool.Pool.ShrinkUnderLock` | mm/mempool.c:117-126 | one element leaves, or min_nr takes its new value |
| `Mempool.Pool.ResizeBegin` | mm/mempool.c:114-128 | the first stretch of a resize is the step of the protocol |
| `Mempool.Pool.GrowLocked` | mm/mempool.c:135-148 | the larger array holds the same elements |
| `Mempool.Pool.FillLocked` | mm/mempool.c:153-160 | the new element is added if there is room, else it goes back |

## Left out

- The slow path of page allocation, reclaim, swapping, the page cache, shmem and file systems.
- Page statistics, tracing output, /proc printing, debugging (poison, red zones, double-free checks),
  constructors and destructors of slab objects.
- Zones are one range of page frames and `bad_range` is the test for that range; compound pages,
  node lists and the choice of a zone are not modelled.
- The page array, bufctl arrays, array caches and bitmaps are sequences in fields that methods
  replace element by element, and linked lists are sequences; pointers into them, and aliasing
  between them, are not modelled.
- Each page has one reference count and the flags reserved and private; mapping, LRU and other flags
  and the zeroing of pages are not modelled.
- Interrupt disabling and spin locks, other than as the boundaries of atomic steps.
- 32-bit wrap-around of addresses in the boot allocator; the bitmap pointer that the handover clears.
- Bootmem.TestBit: reads the bits behind the map as set.  The source reads past the bitmap when the
  page count is a multiple of 32, and a clear bit there would reach the BUG_ON at mm/bootmem.c:213.
- Lists of boot memory nodes, and the search for a node by `alloc_bootmem`.
- Slabs: `cache_reap` and its timing, CPU hotplug, RCU-deferred destruction, the chain of caches,
  general caches for off-slab management, `list3.free_touched`, and the page table of slabs by page.
- SlabCache.Cache.Grow: whether memory for the slab or for its off-slab management is missing is one
  input.
- SlabCache.Cache.FlushArray: the flushed entries leave the array before they are freed and not after;
  nothing looks at the array in between.
- SlabGeometry.ChooseOrder: assumes that the limit for off-slab caches is at least eight, which is so
  once the 64-byte general cache exists and before the first off-slab cache is created.
- SlabGeometry.CreateLayout: overflow of sizes beyond 32 bits cannot occur for the accepted sizes and is
  not modelled in the alignment; huge alignments are unbounded numbers.
- Kmap: atomic kmaps, cache and TLB maintenance other than a count of flushes, and the second call of
  `page_address` when a woken thread returns.
- Vmalloc: the page table has one level between sections and ptes, as the pud and pmd levels pass
  their whole range on; what happens after a walk has gone astray, table allocation by another thread
  at the same time, protection bits, and freeing the page array are not modelled.
- VmList.FindGap: assumes that addresses do not wrap around, so the wrap test never succeeds; says
  nothing about the window when the request is larger than the window's end address, where the
  source's subtraction wraps.
- Mempool: `mempool_destroy`, the flags passed to the allocator, and memory barriers.

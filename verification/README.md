# m3OS kernel-core, modelled in Dafny

The `kernel-core` crate of m3OS holds the logic of the kernel that needs no hardware. This
project models its data structures, protocols and codecs and proves what they promise over
every input, every run or every interleaving. `dafny verify dfyconfig.toml` checks all of it.

| files | what they model |
|---|---|
| `Words`, `SummaryBitmap` | 64-bit words and the hierarchical bitmap of `buddy.rs` |
| `BuddyPool`, `BuddyAllocator` | the buddy frame allocator: its theory on sets of blocks, and the allocator object on bitmaps and counters |
| `SlabSpans`, `SlabTable`, `SlabCache` | the slab cache: XOR-encoded freelists inside the objects, the sorted span table, the back-indexed partial list |
| `CrossCpuFree` | the lock-free list that returns objects to their owning CPU |
| `Magazine` | per-CPU magazines, the depot, and all CPUs interleaving at lock granularity |
| `VmaPieces`, `VmaTree` | the VMA tree, as a map from address to attributes and file position |
| `SchedModel` | the block/wake transition function and the four-step wait protocol built on it |
| `DepGraph` | service dependencies: resolution, cycle detection, start order |
| `Sgr`, `Ansi` | the console's escape-sequence parser (sections 5.4 and 8.3.117 of ECMA-48) |
| `GdbRsp` | the GDB remote-protocol packet reader with run-length expansion |
| `SessionControl`, `SessionBuffers` | the session control codec, on values and on buffers |
| `TimerFd`, `Calendar` | timer expiry accounting and calendar conversion |
| `Options`, `Limits`, `Seqs`, `Sets`, `Division` | shared helpers |

Where the source changes an object or a buffer in place, the model is a class or an array
method with the same loops, proved against a function on values. Where the source runs on
several CPUs, the model is a state machine whose steps are the source's atomic actions, and
the results hold for every allowed sequence of steps.

## What the proofs show about the code

- **Buddy allocator.** The pool is a function of the set of free pages alone, so two histories
  that leave the same pages out leave the same pool. `allocate` succeeds exactly when an aligned
  free run exists. Freeing an aligned block keeps the pool sound exactly when the call is ignored
  (the order is too large, the block starts past the memory, or the very block is in the pool) or the
  block lies in the memory and none of its pages is free. The double-free guard looks at one order
  only, and a block that reaches past the last page is pushed as it is: `DoubleFreeUnseen` and
  `OverhangUnseen` are inputs at which this fails. Merging itself never reaches past the last page.
- **Magazine depot.** Exchanges swap magazines and nothing ever deposits one, so a depot that
  starts empty (as `MagazineDepot::new` makes it) stays empty in every run: every exchange fails
  and every drain finds nothing. The comment on `magazine_free` says a drained magazine is
  deposited for reuse; the code keeps it on the CPU.
- **Timers.** The documented guarantee that `next` lies strictly after `now` holds exactly when
  `now` is not the last tick of the clock. The count wraps for one input (`now` the last tick,
  `expiry` 0, `interval` 1). Counting over any reading pattern is exact if and only if the timer is
  one-shot or no read happens at the last tick. Converting nanoseconds rounds up except beyond the
  last whole tick of a `u64`.
- **Scheduler.** `apply_event` reports `yielded: true` when it writes Blocked although the recheck
  may still revert; parking is therefore a step of its own here. It leaves a ready task ready on
  `ConditionTrue`, where `block_current_until` writes Running; the protocol follows the kernel. A
  comment there expects a stale run-queue entry after such a revert. There is none: a wake that finds
  it still on its CPU leaves the enqueue to the switch-out.
- **Calendar.** The month walk never reaches its panic. Timestamps whose year exceeds `u32`, which
  the source cannot hold, are outside the contract of `UnixTimestampToDate`.
- **Session control.** Everything that decodes encodes back to the bytes it came from, except
  exactly the recovering states whose name is not the placeholder; those keep only their retry count.
- **GDB packets.** The encoder escapes nothing, so a body comes back exactly when it holds neither `#`
  nor `*` and fits the buffer.

## Modelling choices

- Integers are unbounded; saturation, wrap-around and the fixed sizes are written out where the
  source relies on them. A word is a natural number with bit operations defined by halving.
- A panic, a failed assertion or a returned error is a value (`None`, an outcome, an error), except
  where the source's caller contract excludes it.
- `debug_assert` checks are those of a release build: absent. Where one guards a caller's duty, the
  contract says what happens without it.
- Atomic operations are sequentially consistent steps. Object memory is a map from address to word.
- A slab page ends below the top of the address space, because the source computes the address of its
  end; a cache of more than 512 objects per page can be made, and is refused its first page.
- The page allocator behind a slab, the clock, and the callbacks of a drain are parameters.
- Service and step names are byte sequences; UTF-8 validity is not modelled.

## Model

| member | source | states |
|---|---|---|
| SummaryBitmaps.SetStep | kernel-core/src/buddy.rs:73-90 | setting one bit at one level leaves at most its summary bit stale, and stopping is right once the word was non-zero |
| SummaryBitmaps.ClearStep | kernel-core/src/buddy.rs:92-109 | clearing one bit leaves at most its summary bit stale, and stopping is right once the word is unchanged or non-zero |
| SummaryBitmaps.FirstEntry | kernel-core/src/buddy.rs:111-147 | the trailing-zero position of the first non-zero word is the least set bit of its level |
| SummaryBitmaps.ZeroTop | kernel-core/src/buddy.rs:111-147 | a level of zero words means the whole set is empty |
| SummaryBitmaps.SummaryBitmap.constructor | kernel-core/src/buddy.rs:41-61 | for every size, a consistent bitmap of the empty set |
| SummaryBitmaps.SummaryBitmap.Contains | kernel-core/src/buddy.rs:63-71 | membership in the represented set, for every index |
| SummaryBitmaps.SummaryBitmap.Set | kernel-core/src/buddy.rs:73-90 | adds exactly that index if in range, keeping all summary levels |
| SummaryBitmaps.SummaryBitmap.Clear | kernel-core/src/buddy.rs:92-109 | removes exactly that index, keeping all summary levels |
| SummaryBitmaps.SummaryBitmap.FirstSet | kernel-core/src/buddy.rs:111-147 | the minimum of the set, `None` exactly when it is empty |
| BuddyPools.AllFreeIffAncestor | kernel-core/src/buddy.rs:264-272 | with no two free buddies, an aligned run is wholly free exactly when one free block contains it |
| BuddyPools.Canonical | kernel-core/src/buddy.rs:234-275 | a block is in the pool exactly when it is a maximal wholly free block |
| BuddyPools.SamePagesSamePool | kernel-core/src/buddy.rs:234-275 | sound pools with the same free pages are equal |
| BuddyPools.SplitSound | kernel-core/src/buddy.rs:220-225 | splitting returns every part of the source block but the first, and keeps the pool sound |
| BuddyPools.AllocateExact | kernel-core/src/buddy.rs:207-228 | succeeds exactly when some aligned in-range run is free; the run returned was wholly free and exactly its pages leave the pool |
| BuddyPools.AllocateChoice | kernel-core/src/buddy.rs:207-228 | the block comes from the smallest order that has one, and is the lowest of that order |
| BuddyPools.XorOfAligned | kernel-core/src/buddy.rs:264-271 | on aligned page numbers, exclusive-or gives the buddy and clearing the bit gives the parent |
| BuddyPools.FreeExact | kernel-core/src/buddy.rs:234-275 | freeing a block with no free page adds exactly its pages and leaves the pool sound and in range, whatever merges |
| BuddyPools.FreeSoundIff | kernel-core/src/buddy.rs:234-275 | the exact condition, for an aligned block of any order anywhere, under which a free keeps the pool sound |
| BuddyPools.FreeOverhang | kernel-core/src/buddy.rs:257-262 | a block that reaches past the last page is pushed as it is and makes the pool unsound |
| BuddyPools.DoubleFreeUnseen | kernel-core/src/buddy.rs:247-253 | freeing a page of a merged pair again passes the guard and makes the pool unsound |
| BuddyPools.OverhangUnseen | kernel-core/src/buddy.rs:257-262 | with three pages, freeing a pair that starts at the last of them makes the pool unsound |
| BuddyPools.FreeRegionExact | kernel-core/src/buddy.rs:195-201 | adding a region page by page frees exactly that region |
| BuddyPools.AddRegionExact | kernel-core/src/buddy.rs:195-201 | adding a region makes exactly its existing pages free, address by address |
| BuddyPools.FreeOrderIndependent | kernel-core/src/buddy.rs:234-275 | freeing the same pages, cut into blocks of any orders and in any sequence, gives the identical pool |
| BuddyPools.CountIsFreePages | kernel-core/src/buddy.rs:278-284 | the weighted sum over orders is the number of free pages |
| BuddyPools.RunKeepsInv | kernel-core/src/buddy.rs:195-275 | over every run of allowed calls, outstanding blocks are disjoint from each other and the pool, and together they make up the pages added |
| BuddyPools.Conservation | kernel-core/src/buddy.rs:278-284 | free count plus outstanding pages equals the pages added |
| BuddyPools.RunsAreSafe | kernel-core/src/buddy.rs:179-284 | both of the above in every state reachable from a new allocator |
| BuddyPools.RunsConverge | kernel-core/src/buddy.rs:234-275 | two histories with the same pages added and the same blocks out end in the same state |
| BuddyAllocators.IndexFits | kernel-core/src/buddy.rs:344-350 | every in-range page has a bit in the bitmap of every order |
| BuddyAllocators.SplitBuddy | kernel-core/src/buddy.rs:220-225 | the upper half computed by exclusive-or while splitting is in range and is the right block |
| BuddyAllocators.BuddyAllocator.constructor | kernel-core/src/buddy.rs:179-187 | bitmaps and counters represent the empty pool |
| BuddyAllocators.BuddyAllocator.IsFree | kernel-core/src/buddy.rs:299-302 | whether the page's block of that order is in the pool |
| BuddyAllocators.BuddyAllocator.PushFree | kernel-core/src/buddy.rs:314-318 | adds the block, with bitmap and counter in step |
| BuddyAllocators.BuddyAllocator.PopFree | kernel-core/src/buddy.rs:320-327 | takes the lowest block of the order |
| BuddyAllocators.BuddyAllocator.RemoveFree | kernel-core/src/buddy.rs:329-340 | removes the block, with bitmap and counter in step |
| BuddyAllocators.BuddyAllocator.SplitDown | kernel-core/src/buddy.rs:220-225 | the loop over orders performs the split of the pool |
| BuddyAllocators.BuddyAllocator.Allocate | kernel-core/src/buddy.rs:207-228 | refines allocation on the pool and is complete: it succeeds exactly when an aligned free run exists |
| BuddyAllocators.BuddyAllocator.Free | kernel-core/src/buddy.rs:234-275 | refines free on the pool for every argument; a fresh block adds exactly its pages; an aligned block keeps the pool sound exactly when it is safe to free |
| BuddyAllocators.BuddyAllocator.AddRegion | kernel-core/src/buddy.rs:195-201 | after it a page is free exactly when it was free before or is one of the `count` pages from `start` that exist |
| BuddyAllocators.BuddyAllocator.FreeCount | kernel-core/src/buddy.rs:278-284 | the counters give the pool's page count |
| SlabSpans.DecodeEncode | kernel-core/src/slab.rs:33-41 | decoding undoes encoding |
| SlabSpans.OtherKeyChangesPointer | kernel-core/src/slab.rs:33-41 | decoding with another key or slot gives the pointer back exactly when key and slot agree under exclusive-or |
| SlabSpans.OtherSlotChangesPointer | kernel-core/src/slab.rs:33-41 | with one key, a word decodes to its pointer in its own slot only |
| SlabSpans.PopSlot | kernel-core/src/slab.rs:400-441 | following the head leaves a chain of the remaining free slots, in step with bitmap and count |
| SlabSpans.PushSlot | kernel-core/src/slab.rs:288-318 | writing an encoded link into a freed slot puts it at the front of the chain, in step with bitmap and count |
| SlabSpans.ThreadFreelist | kernel-core/src/slab.rs:371-379 | a new page is threaded as one chain over all its slots and nothing outside the page is written |
| SlabSpans.FreshSpanOk | kernel-core/src/slab.rs:366-397 | the metadata of a new span agrees with its chain |
| SlabTable.AddEntry | kernel-core/src/slab.rs:497-503 | appending to the partial list keeps list and back-indices inverse |
| SlabTable.RemoveEntry | kernel-core/src/slab.rs:505-517 | swap-remove keeps list and back-indices inverse and takes out exactly that span |
| SlabTable.InsertSpan | kernel-core/src/slab.rs:519-525 | shifting entries after an insertion keeps list and back-indices inverse |
| SlabTable.RemoveSpan | kernel-core/src/slab.rs:527-533 | shifting entries after a removal keeps list and back-indices inverse |
| SlabTable.EntriesDistinct | kernel-core/src/slab.rs:497-517 | no span is listed twice |
| SlabTable.OneSlot | kernel-core/src/slab.rs:445-478 | an object address determines its span and slot |
| SlabTable.ClientWriteHarmless | kernel-core/src/slab.rs:33-65 | any write into a live object leaves every span's freelist exact |
| SlabTable.TakeSlot | kernel-core/src/slab.rs:400-441 | allocation makes exactly one new address live, one that was not live before |
| SlabTable.GiveSlot | kernel-core/src/slab.rs:288-318 | freeing makes exactly that address not live and keeps every freelist exact |
| SlabTable.InsertPage | kernel-core/src/slab.rs:366-397 | threading a new page disturbs no other span |
| SlabTable.DropPage | kernel-core/src/slab.rs:341-360 | dropping an empty span disturbs no live object |
| SlabCaches.SlabCache.constructor | kernel-core/src/slab.rs:227-258 | an empty cache with no live object |
| SlabCaches.SlabCache.AddToPartialList | kernel-core/src/slab.rs:497-503 | lists exactly that span |
| SlabCaches.SlabCache.RemoveFromPartialList | kernel-core/src/slab.rs:505-517 | unlists exactly that span |
| SlabCaches.SlabCache.AdjustAfterInsert | kernel-core/src/slab.rs:519-525 | shifts the listed indices at and after the insertion |
| SlabCaches.SlabCache.AdjustAfterRemove | kernel-core/src/slab.rs:527-533 | shifts the listed indices after the removal |
| SlabCaches.SlabCache.PartitionPoint | kernel-core/src/slab.rs:445-463 | binary search splits the bases at the address |
| SlabCaches.SlabCache.FindSpanIndex | kernel-core/src/slab.rs:445-463 | finds the span whose page holds the address; none exactly when no page does, misaligned exactly when the address is no slot start of its page |
| SlabCaches.SlabCache.ReadHead | kernel-core/src/slab.rs:400-441 | decodes head and successor of the chain; none of the corruption checks can fire |
| SlabCaches.SlabCache.AllocateFromSpan | kernel-core/src/slab.rs:400-441 | fails exactly on a full span, else makes one new object of that span live |
| SlabCaches.SlabCache.CreateSpan | kernel-core/src/slab.rs:366-397 | inserts the page in order, all slots free, and lists it |
| SlabCaches.SlabCache.Allocate | kernel-core/src/slab.rs:269-278 | fails exactly when every slot of every page holds a live object and no page is offered; else returns an address that was not live and changes nothing else; takes the page only when everything is in use |
| SlabCaches.SlabCache.Free | kernel-core/src/slab.rs:288-318 | accepts exactly live objects and frees exactly that one, reporting whether its page now holds none; each refusal exactly for its cause: not live, outside every page, or between slots; a refusal changes nothing |
| SlabCaches.SlabCache.Locate | kernel-core/src/slab.rs:288-318 | where an address falls: outside every page, off the slots, or at one slot; only the last can be live |
| SlabCaches.SlabCache.DropSpan | kernel-core/src/slab.rs:341-360 | removes one empty span and keeps every invariant |
| SlabCaches.SlabCache.ReclaimEmpty | kernel-core/src/slab.rs:341-360 | returns, once each, exactly the pages that hold no live object, keeps exactly the others, and moves no live object |
| SlabCaches.SlabCache.ClientWrite | kernel-core/src/slab.rs:33-65 | the cache stays valid under client writes to live objects |
| SlabCaches.EmptyMeansNoLive | kernel-core/src/slab.rs:168-178 | a span counts as empty exactly when none of its objects is live |
| SlabCaches.FullMeansAllLive | kernel-core/src/slab.rs:168-178 | a span counts as full exactly when all its objects are live |
| SlabCaches.ReclaimMeaning | kernel-core/src/slab.rs:341-360 | the spans the loop drops are exactly the pages without a live object |
| CrossCpuFree.ChainUnique | kernel-core/src/cross_cpu_free.rs:127-138 | a head determines its null-terminated chain |
| CrossCpuFree.StepKeepsPlaces | kernel-core/src/cross_cpu_free.rs:68-95 | after every atomic step each object is held, being pushed, listed or being walked, and only one of these |
| CrossCpuFree.StepKeepsMemory | kernel-core/src/cross_cpu_free.rs:68-95 | after every step the words in memory spell the listed and the walked chain, also when a node comes back between load and exchange |
| CrossCpuFree.RunKeepsInv | kernel-core/src/cross_cpu_free.rs:68-138 | all of this over every interleaving of any number of producers with the consumer |
| CrossCpuFree.ExactlyOnce | kernel-core/src/cross_cpu_free.rs:68-138 | over every interleaving, counted with multiplicity over node reuse: every push begun is completed or is the one in flight, and every completed push is collected or still in a chain |
| CrossCpuFree.RunKeepsPushes | kernel-core/src/cross_cpu_free.rs:68-95 | pushes begun equal pushes completed plus the one in flight, for every node, over every run |
| CrossCpuFree.PushEndsPublished | kernel-core/src/cross_cpu_free.rs:68-95 | a producer leaves its push only by the exchange that publishes the node it began with |
| CrossCpuFree.RetryCompletes | kernel-core/src/cross_cpu_free.rs:68-95 | after a failed exchange the producer reloads, rewrites and, left alone, publishes its node in front of the whole list |
| CrossCpuFree.FailureMeansProgress | kernel-core/src/cross_cpu_free.rs:68-89 | an exchange that can only fail means another thread changed the head since the load |
| CrossCpuFree.ChainIter.Next | kernel-core/src/cross_cpu_free.rs:127-138 | yields the chain's first node and stays on its rest |
| CrossCpuFree.Collect | kernel-core/src/cross_cpu_free.rs:127-138 | iterating yields exactly the chain, in order |
| Magazines.Magazine.constructor | kernel-core/src/magazine.rs:90-95 | an empty stack |
| Magazines.Magazine.Push | kernel-core/src/magazine.rs:117-124 | pushes, or hands the pointer back exactly when full |
| Magazines.Magazine.Pop | kernel-core/src/magazine.rs:128-134 | takes the last pointer pushed, `None` exactly when empty |
| Magazines.MagazineDepot.ExchangeEmptyForFull | kernel-core/src/magazine.rs:187-198 | swaps exactly when a full magazine is there, else gives the caller's back |
| Magazines.MagazineDepot.ExchangeFullForEmpty | kernel-core/src/magazine.rs:205-216 | swaps exactly when an empty magazine is there, else gives the caller's back |
| Magazines.MagazineDepot.DrainFull | kernel-core/src/magazine.rs:222-238 | releases every object of every full magazine once and keeps the emptied magazines |
| MagazineProtocol.MoveKeepsOk | kernel-core/src/magazine.rs:187-238 | every step of every CPU keeps capacities, full magazines full and empty ones empty, also between the two locks |
| MagazineProtocol.MoveKeepsObjects | kernel/src/mm/slab.rs:646-836 | every step keeps the number of occurrences of every object, although callers ignore the result of some pushes |
| MagazineProtocol.ExchangeServes | kernel/src/mm/slab.rs:704-821 | an allocation that exchanged always gets an object, and a free that exchanged always stores its object, as the ignored results assume |
| MagazineProtocol.AllocationServes | kernel/src/mm/slab.rs:646-760 | an allocation that ends hands out the top of the magazine it ended on, from a non-empty loaded or previous magazine at once, and nothing only when the slab is empty too |
| MagazineProtocol.FreeStores | kernel/src/mm/slab.rs:767-836 | a free that ends has its object on top of a magazine or on the cross-CPU list; until then the object stays in hand |
| MagazineProtocol.RunConserves | kernel/src/mm/slab.rs:646-836 | both over every interleaving of any number of CPUs, and depot magazines are conserved too |
| MagazineProtocol.ExactlyOnePlace | kernel/src/mm/slab.rs:423-480 | from an idle start each object is always in one place, so an object a client holds is nowhere else |
| MagazineProtocol.DepotStaysEmpty | kernel-core/src/magazine.rs:174-216 | a depot that starts empty stays empty, and no CPU ever gets a magazine from it |
| VmaPieces.PieceBytes | kernel-core/src/mm.rs:68-73 | each byte of a piece is the byte of the same file at the position the whole mapping gave that address: the file offset plus the distance from the mapping's start |
| VmaPieces.EditPointwise | kernel-core/src/mm.rs:126-408 | replacing each mapping by pieces inside it keeps mappings disjoint and acts address by address |
| VmaPieces.RemovePointwise | kernel-core/src/mm.rs:126-221 | removing the overlapping mappings and inserting the kept pieces unmaps exactly the range |
| VmaPieces.CutsExcise | kernel-core/src/mm.rs:126-221 | the returned pieces are in order and denote exactly the excised addresses with their attributes |
| VmaPieces.UpdateEditPieces | kernel-core/src/mm.rs:227-318 | for each of the overlap shapes the split pieces change exactly the addresses in the range |
| VmaPieces.UpdatePointwise | kernel-core/src/mm.rs:227-408 | an update changes only the intended attribute, exactly on the mapped addresses of the range, also for an empty range |
| VmaPieces.InsertOkIff | kernel-core/src/mm.rs:112-114 | insertion keeps mappings disjoint exactly when the new one meets no other start's mapping |
| VmaPieces.InsertPointwise | kernel-core/src/mm.rs:112-114 | inserting into unmapped space maps exactly the new addresses |
| VmaTrees.CutOne | kernel-core/src/mm.rs:134-205 | the case analysis of one overlapping mapping gives the kept and the cut pieces |
| VmaTrees.ScanRemove | kernel-core/src/mm.rs:126-221 | the scan collects exactly the overlapping keys and all their pieces |
| VmaTrees.SplitOne | kernel-core/src/mm.rs:227-318 | the case analysis of one mapping in an update gives the split pieces |
| VmaTrees.ScanUpdate | kernel-core/src/mm.rs:227-318 | the scan collects exactly the overlapping mappings and all split pieces |
| VmaTrees.VmaTree.FindContaining | kernel-core/src/mm.rs:92-99 | looking only at the last start not above the address agrees with searching all mappings |
| VmaTrees.VmaTree.Insert | kernel-core/src/mm.rs:112-114 | keeps the tree well formed exactly when no other mapping meets the new one, and into unmapped space adds exactly its addresses |
| VmaTrees.VmaTree.RemoveRange | kernel-core/src/mm.rs:126-221 | unmaps exactly the range, also past the end of the address space, and returns exactly what was there |
| VmaTrees.VmaTree.UpdateRangeProt | kernel-core/src/mm.rs:227-318 | changes the protection of exactly the mapped addresses in the range and nothing else |
| VmaTrees.VmaTree.UpdateRangePkey | kernel-core/src/mm.rs:328-408 | changes the protection key of exactly the mapped addresses in the range and nothing else |
| VmaTrees.VmaTree.MapFixed | kernel/src/arch/x86_64/syscall/mod.rs:13003-13021 | removing the range and inserting gives exactly the new mapping over the old tree |
| SchedProtocol.StepIsSafe | kernel-core/src/sched_model.rs:173-354 | from every state of the protocol each enabled step avoids the panicking cells and never dispatches a task that is running |
| SchedModel.BlockColumn | kernel-core/src/sched_model.rs:173-354 | the `Block` column: each kind has its own state, the deadline given is the one stored, and the off-CPU cells panic |
| SchedModel.OtherColumns | kernel-core/src/sched_model.rs:173-354 | the wake, scan and self-revert columns with all their side effects: they act on blocked states only |
| SchedProtocol.StepKeepsWait | kernel/src/task/scheduler.rs:3820-3880 | a blocked task is timed by the deadline its own wait was given, and a recheck succeeds only for a reason |
| SchedProtocol.StepKeepsCount | kernel/src/task/scheduler.rs:3820-3880 | each block ends in exactly one real enqueue or one self-revert, and a live deadline implies blocked |
| SchedProtocol.StepKeepsQueue | kernel/src/task/scheduler.rs:4826-4930 | a parked ready task is queued once, or exactly one of waker, scanner and switch-out is about to queue it, and nothing else is queued |
| SchedProtocol.StepKeepsSignal | kernel-core/src/sched_model.rs:173-354 | a signalled task does not stay blocked past its recheck |
| SchedProtocol.RunKeepsInv | docs/handoffs/57a-scheduler-rewrite-v2-transitions.md:31-57 | all of this in every interleaving of the waiter, any number of wakers and the deadline scan |
| SchedProtocol.NoLostOrDoubledWake | kernel-core/src/sched_model.rs:173-354 | a parked task is never left blocked after a waker finishes, each block ends in one enqueue or one self-revert, the run queue holds it at most once, a parked blocked task carries its wait's own deadline, no panicking cell is reached |
| SchedProtocol.WakeReleasesParked | kernel/src/task/scheduler.rs:4826-4930 | a wake readies a parked task and owes it one enqueue |
| SchedProtocol.WakeOnCpu | kernel/src/task/scheduler.rs:3842-3880 | a wake before the switch-out is carried through by the switch-out, or taken back by the self-revert with nothing left in the queue |
| SchedProtocol.ScanReleasesParked | kernel-core/src/sched_model.rs:173-354 | a parked task whose own wait has passed its deadline is ready, or the scan can release it and then owes it one enqueue |
| SchedProtocol.ReturnsOnlyWhenDue | kernel/src/task/scheduler.rs:3820-3880 | a wait returns only with its condition set or its deadline passed |
| DepGraph.OrderedIsAcyclic | kernel-core/src/service.rs:348-371 | a start order of all services rules out a cycle |
| DepGraph.BackEdge | kernel-core/src/service.rs:333-346 | an edge back onto the search path is a cycle |
| DepGraph.DfsCycle | kernel-core/src/service.rs:333-346 | a report means a cycle; otherwise the finished nodes form a start order that now holds the node |
| DepGraph.DetectCycle | kernel-core/src/service.rs:322-331 | reports exactly the cyclic graphs |
| DepGraph.TopoVisit | kernel-core/src/service.rs:359-371 | extends a start order to one that holds the node |
| DepGraph.TopoSort | kernel-core/src/service.rs:348-357 | every service once, after all its dependencies |
| DepGraph.ResolveFirst | kernel-core/src/service.rs:259-290 | a name resolves to the first other service that bears it |
| DepGraph.TargetsMeaning | kernel-core/src/service.rs:259-290 | the resolved edges are exactly the services its dependencies name |
| DepGraph.WarningsMeaning | kernel-core/src/service.rs:259-290 | the warnings are exactly the names no other service bears, self-dependencies included |
| DepGraph.Truncate | kernel-core/src/service.rs:226-252 | the first 32 bytes of the name, or all of it |
| DepGraph.DepGraphCore.AddService | kernel-core/src/service.rs:226-236 | appends the truncated name, or refuses exactly when full |
| DepGraph.DepGraphCore.AddDependency | kernel-core/src/service.rs:239-252 | appends the truncated name to that service, or says which limit stopped it |
| DepGraph.DepGraphCore.ResolveService | kernel-core/src/service.rs:259-290 | the inner loops compute targets and warnings of one service |
| DepGraph.DepGraphCore.Build | kernel-core/src/service.rs:256-308 | edges and warnings are exact; a cycle is reported exactly when there is one; otherwise the order is a start order of all services |
| Sgr.OpsOfCodes | kernel-core/src/fb.rs:215-288 | iterating over printed codes gives the operations back |
| Sgr.PrintingKeepsMeaning | kernel-core/src/fb.rs:215-288 | printing what any parameter list means gives a list of the same meaning |
| Sgr.UnknownSkipped | kernel-core/src/fb.rs:218-288 | codes outside the known ones, and colours of an unknown kind, are passed over |
| Sgr.CutShortEnds | kernel-core/src/fb.rs:218-288 | a colour cut short ends the list |
| Sgr.IndexWraps | kernel-core/src/fb.rs:218-288 | a palette index is taken modulo 256 |
| Sgr.ColourWraps | kernel-core/src/fb.rs:218-288 | colour components are taken modulo 256 |
| Sgr.SgrOpIter.Next | kernel-core/src/fb.rs:218-288 | takes the next operation off the list, or none is left |
| Ansi.FeedNumber | kernel-core/src/fb.rs:432-446 | a printed number accumulates to itself, capped at `u16` |
| Ansi.FeedCodes | kernel-core/src/fb.rs:432-456 | one to eight printed codes are collected in order without a command |
| Ansi.CodesRoundTrip | kernel-core/src/fb.rs:432-481 | a code list survives exactly if it has one to eight codes that fit `u16` |
| Ansi.ParamSeen | kernel-core/src/fb.rs:350-357 | what a final byte reads as any parameter of a printed sequence |
| Ansi.SeenNone | kernel-core/src/fb.rs:593-611 | a rendition sequence without codes selects a single zero |
| Ansi.PrintedAwaits | kernel-core/src/fb.rs:350-481 | up to eight printed codes leave the parser waiting for the final byte with those codes |
| Ansi.CursorFinals | kernel-core/src/fb.rs:540-574 | which command each cursor final byte gives for collected codes |
| Ansi.EditFinals | kernel-core/src/fb.rs:583-592 | which command each editing and scrolling final byte gives |
| Ansi.OtherFinals | kernel-core/src/fb.rs:540-612 | which command the erase, report and scroll-region final bytes give, and that no other byte gives one |
| Ansi.ShapeFinal | kernel-core/src/fb.rs:483-503 | a space and `q` select a cursor shape from 0 to 6, and nothing else does |
| Ansi.SequenceEnds | kernel-core/src/fb.rs:432-538 | which bytes end a sequence and which drop it |
| Ansi.PlainCharacters | kernel-core/src/fb.rs:371-413 | which command each character gives outside a sequence |
| Ansi.PrivateModes | kernel-core/src/fb.rs:505-651 | a private-mode sequence is silent until it sets or resets exactly the printed modes |
| Ansi.SgrRoundTrip | kernel-core/src/fb.rs:361-615 | operations printed as one sequence are silent up to `m`, which selects exactly them and returns to normal text |
| Ansi.Next | kernel-core/src/fb.rs:361-538 | on every input at most eight parameters are in use and each fits `u16` |
| Ansi.AnsiParser.constructor | kernel-core/src/fb.rs:328-334 | normal text, no parameters |
| Ansi.AnsiParser.ResetParams | kernel-core/src/fb.rs:344-347 | zeroes the parameters and keeps the state |
| Ansi.AnsiParser.ProcessChar | kernel-core/src/fb.rs:361-538 | state and command are those of the parser on values, whose runs the lemmas describe |
| GdbRsp.ComputeChecksum | kernel-core/src/gdb_rsp.rs:18-24 | the sum of the bytes modulo 256 |
| GdbRsp.HexRoundTrip | kernel-core/src/gdb_rsp.rs:28-44 | parsing undoes printing of both digits of a byte |
| GdbRsp.HexWritten | kernel-core/src/gdb_rsp.rs:28-34 | digits are written in lower case |
| GdbRsp.HexRead | kernel-core/src/gdb_rsp.rs:36-44 | digits are read in either case, and nothing else is a digit |
| GdbRsp.ChecksumIsSum | kernel-core/src/gdb_rsp.rs:18-24 | the checksum is the unbounded sum of the bytes modulo 256 |
| GdbRsp.FrameLayout | kernel-core/src/gdb_rsp.rs:48-60 | a frame is a dollar sign, the payload, a hash sign and the two digits of the sum |
| GdbRsp.RunLength | kernel-core/src/gdb_rsp.rs:227-253 | a byte, a star and a count stand for that many copies of the byte, a space for four |
| GdbRsp.IdleBytes | kernel-core/src/gdb_rsp.rs:175-223 | which byte between packets raises which event |
| GdbRsp.EncodePacket | kernel-core/src/gdb_rsp.rs:48-60 | writes exactly the frame and nothing behind it, or fails exactly when it does not fit |
| GdbRsp.ReadBody | kernel-core/src/gdb_rsp.rs:227-253 | a body leaves its run-length expansion, clipped to the buffer, and its raw checksum |
| GdbRsp.ReadFramed | kernel-core/src/gdb_rsp.rs:175-223 | a framed body with any trailer bytes is delivered exactly when they spell its checksum, and otherwise raises one bad-checksum report |
| GdbRsp.FrameReads | kernel-core/src/gdb_rsp.rs:48-253 | a frame whose body has no `#` yields one packet, the clipped expansion of the body |
| GdbRsp.PacketsPlainOnly | kernel-core/src/gdb_rsp.rs:175-253 | whatever is fed in, no packet holds `#` or `*` or exceeds the buffer |
| GdbRsp.FrameRoundTrip | kernel-core/src/gdb_rsp.rs:48-253 | a body comes back from its frame exactly when it holds neither `#` nor `*` and fits |
| GdbRsp.NoiseIgnored | kernel-core/src/gdb_rsp.rs:175-223 | bytes between packets change nothing |
| GdbRsp.StreamRoundTrip | kernel-core/src/gdb_rsp.rs:175-253 | any concatenation of frames with noise between them decodes to the same packets in order |
| GdbRsp.PacketReader.FeedByte | kernel-core/src/gdb_rsp.rs:175-223 | state and event are those of the reader on values |
| GdbRsp.PacketReader.PushBodyByte | kernel-core/src/gdb_rsp.rs:227-253 | the buffer, run flag and sum are those of the reader on values, the buffer never overrun |
| SessionControl.NumberSurvives | kernel-core/src/session_control.rs:486-490 | little-endian words decode to what was encoded |
| SessionControl.LowByteFirst | kernel-core/src/session_control.rs:486-490 | words are written least significant byte first |
| SessionControl.EntryLayout | kernel-core/src/session_control.rs:533-548 | the position of every field of a service entry |
| SessionControl.ReplyTags | kernel-core/src/session_control.rs:448-549 | the bytes of every reply, and which one cannot be encoded |
| SessionControl.VerbTags | kernel-core/src/session_control.rs:371-406 | the bytes of every verb, and which cannot be encoded |
| SessionControl.EntryRoundTrip | kernel-core/src/session_control.rs:533-548 | one service entry decodes to its canonical form, whatever follows |
| SessionControl.EntriesRoundTrip | kernel-core/src/session_control.rs:519-549 | a list of entries of any lengths decodes to the canonical list |
| SessionControl.ReplyRoundTrip | kernel-core/src/session_control.rs:448-667 | every encodable reply decodes to its canonical form, using exactly its bytes |
| SessionControl.CanonicalSurvives | kernel-core/src/session_control.rs:448-667 | a reply comes back unchanged exactly when it is canonical |
| SessionControl.NoPrefixDecodes | kernel-core/src/session_control.rs:563-667 | no proper prefix of an encoded reply decodes |
| SessionControl.ReplyReencodes | kernel-core/src/session_control.rs:563-667 | what decodes encodes to the bytes it was read from, unless it is a recovering state with another name than the placeholder: both directions |
| SessionControl.RecoveringReencodes | kernel-core/src/session_control.rs:574-608 | a decoded recovering state encodes with the placeholder and the four count bytes it was read from |
| SessionControl.RecoveringNameLost | kernel-core/src/session_control.rs:574-608 | a recovering reply with an empty name does not encode back to its bytes |
| SessionControl.ByteError | kernel-core/src/session_control.rs:674-689 | inverts the error-byte mapping and rejects exactly the other bytes |
| SessionControl.VerbRoundTrip | kernel-core/src/session_control.rs:371-440 | every encodable verb decodes to its canonical form, using exactly its bytes |
| SessionControl.VerbSurvives | kernel-core/src/session_control.rs:371-440 | a verb comes back unchanged exactly when its length is legal and its unused name bytes are zero |
| SessionControl.VerbReencodes | kernel-core/src/session_control.rs:411-440 | a decoded verb encodes to the bytes it was read from |
| SessionControl.NoVerbPrefixDecodes | kernel-core/src/session_control.rs:411-440 | no proper prefix of an encoded verb decodes |
| SessionBuffers.DecodeEntries | kernel-core/src/session_control.rs:633-659 | the loop accepts exactly lists whose entries all fit, and reads them |
| SessionBuffers.DecodeReply | kernel-core/src/session_control.rs:563-667 | accepts exactly the buffers that start with a reply, and returns it |
| SessionBuffers.DecodeVerb | kernel-core/src/session_control.rs:411-440 | accepts exactly the buffers that start with a verb, and returns it |
| SessionBuffers.EncodeServices | kernel-core/src/session_control.rs:506-550 | writes the list behind a size check done once, or leaves the buffer alone |
| SessionBuffers.EncodeReplyInto | kernel-core/src/session_control.rs:448-551 | writes exactly the encoding and nothing else, or fails exactly when there is none or it does not fit |
| SessionBuffers.EncodeVerbInto | kernel-core/src/session_control.rs:371-408 | writes exactly the encoding and nothing else, or fails exactly when there is none or it does not fit |
| TimerFds.CountIsFired | kernel-core/src/timerfd.rs:67-79 | the count is the number of deadlines passed, except for the one input where it wraps |
| TimerFds.NextIsAhead | kernel-core/src/timerfd.rs:67-79 | `next` lies after `now` exactly when `now` is not the last tick, and then within one interval |
| TimerFds.RemainingIsNext | kernel-core/src/timerfd.rs:87-100 | no deadline falls before the reported time elapses, and one falls as it does exactly when any is left on the clock |
| TimerFds.NothingRemains | kernel-core/src/timerfd.rs:87-100 | zero exactly for a disarmed timer, a one-shot that has fired, and any fired timer at the last tick |
| TimerFds.ReadSplits | kernel/src/timerfd.rs:176-192 | a read delivers what is owed and leaves exactly the rest |
| TimerFds.ReadsExact | kernel/src/timerfd.rs:176-192 | over every non-decreasing sequence of reads the counts add up to the deadlines passed |
| TimerFds.ExactIff | kernel/src/timerfd.rs:176-192 | counting is exact for all reading patterns up to a bound exactly when the timer is one-shot or the bound is not the last tick |
| TimerFds.NeverEarly | kernel-core/src/timerfd.rs:30-37 | a converted duration is less than a tick late, and not early exactly up to the last whole tick |
| TimerFds.TicksRoundTrip | kernel-core/src/timerfd.rs:30-42 | ticks survive the trip through nanoseconds exactly when they fit |
| TimerFds.TickIsMillisecond | kernel-core/src/timerfd.rs:30-42 | a tick is a million nanoseconds, and larger durations saturate |
| TimerFds.TimerFd.SetTime | kernel/src/timerfd.rs:139-159 | the returned time is that to the old setting's next deadline, which then stops owing anything; the new setting starts afresh |
| TimerFds.TimerFd.Read | kernel/src/timerfd.rs:176-192 | reports what is owed, would block exactly when nothing is, and owes nothing afterwards; at the last tick an interval timer owes again and the count is right except for the wrapping input |
| Calendar.MonthsMakeYear | kernel-core/src/time.rs:36-58 | the months add up to the year |
| Calendar.MonthStarts | kernel-core/src/time.rs:36-58 | the day of the year on which each month starts |
| Calendar.TimestampIncreases | kernel-core/src/time.rs:61-82 | one valid date comes before another exactly when its timestamp is smaller |
| Calendar.TimestampInjective | kernel-core/src/time.rs:61-82 | a timestamp belongs to one valid date |
| Calendar.DateToUnixTimestamp | kernel-core/src/time.rs:61-82 | the loops compute the timestamp of the date |
| Calendar.WalkYears | kernel-core/src/time.rs:97-107 | finds the year and the day within it |
| Calendar.WalkMonths | kernel-core/src/time.rs:109-118 | finds month and day without passing December |
| Calendar.UnixTimestampToDate | kernel-core/src/time.rs:85-130 | the one valid date with that timestamp, and its weekday |
| Calendar.DateRoundTrip | kernel-core/src/time.rs:61-130 | every valid date comes back from its timestamp |
| Calendar.DaysBeforeYearClosed | kernel-core/src/time.rs:69-72 | the year walk agrees with the closed form of the calendar |

## Left out

- Memory ordering weaker than sequential consistency, spin locks, raw pointer validity and UTF-8 validation.
- Statistics and plain accessors of the modelled objects (`stats`, `len`, `free_count_by_order`, `full_count`), which would only add easy members.
- `size_class` and `owning_cpu` of a slab span and its debug fills: fields no modelled operation reads.
- The re-entrant and pre-SMP fallbacks around the magazines, which bypass them.
- Growth of the slab behind the magazines: the protocol model works on a fixed stock of objects.
- Restart policy, exit classification and lifecycle transitions of services (`service.rs`): small finite tables.
- The GDB hex codecs for memory contents and number prefixes (`gdb_rsp.rs`), plain loops beside the packet reader.
- Wait queues, reference counts and the table of timer objects (`kernel/src/timerfd.rs`), and the RTC helpers of `time.rs`.
- The session control backend and its authenticated dispatcher, which forward to daemons outside this model.
- Register maps, descriptor layouts, feature decoders, ring buffers and the rest of `kernel-core`: constants and short branches that would only add easy members.
- The links inside the cross-CPU lists of the magazine protocol, which holds them as one pool of objects: `CrossCpuFree` models the list itself.
- The load balancer, priorities, affinity and slot recycling of the scheduler: the protocol follows one task.

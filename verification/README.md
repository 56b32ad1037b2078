# Crescent2 kernel: verified models

Dafny models of the parts of the Crescent2 kernel that carry the most state, and proofs of what they
keep.  Check everything with `dafny verify dfyconfig.toml`.

| file | models |
|---|---|
| `VMem.dfy` | the boundary-tag address allocator: raw prev/next links, freelists and hash buckets, against a tiling of the arena |
| `PMalloc.dfy` | the page allocator: a list of runs, against the set of free pages |
| `Paging.dfy` | four-level page tables (Intel SDM Volume 3A, section 4.5), against a map from pages to frames and flags; several maps that share the upper half |
| `VSpace.dfy` | backed allocations, which put the three above together |
| `Slab.dfy`, `Malloc.dfy`, `Heap.dfy` | slabs, whose free slots are chained through their own memory, kmalloc/kfree on top of the whole stack, and runs of them |
| `SList.dfy` | the lock-free list: single loads and 16-byte compare-exchanges of any number of threads, against an abstract stack |
| `Unwind.dfy` | the x64 unwinder, against an operational semantics of prologs (Microsoft, "x64 exception handling") |
| `ListEntry.dfy` | the intrusive circular list, on the heap |
| `Callback.dfy` | notification, registration and unregistration of callbacks, as interleaved critical sections |
| `Apc.dfy` | queueing and delivery of APCs, with nested deliveries |
| `Sched.dfy` | the queues of one processor's scheduler, and moving a thread to another |
| `HandleTable.dfy` | the handle table and its chain of free slots, against a map and reference counts |
| `Time.dfy`, `Bitmap.dfy` | the calendar and the bitmap functions of the runtime library |
| `Seqs.dfy`, `Wrappers.dfy` | sequences without repetition, and values that may be missing |

Objects that the source updates in place are classes whose `Valid()` ties their fields to an abstract
value.  Concurrency is modelled by steps: one method (or one step of a relation) per critical section
or atomic instruction, in any order.  `hz::list` is a sequence.  The outcome of an allocation, the
clock and what a foreign routine does are parameters.

Where the code and its evident purpose differ, the code is modelled and the exact condition is proved, for
most together with an input:

- three-slot stack allocations of 2^31 bytes and more (`Unwind.HugeAllocUndoneIff`);
- epilog codes before a running prolog (`Unwind.UnwindInvertsProlog`, `Unwind.InStepIffNothingTaken`,
  `Unwind.EpilogCodeBreaksProlog`), and code behind an epilog (`Unwind.EpilogTestRightIff`,
  `Unwind.CodeBehindEpilogIsRefused`);
- the successor lost by a contiguous page search (`PMalloc.PageAllocator.PmallocContiguous`,
  `PMalloc.SuccessorLost`);
- free addresses that cannot be asked for (`VMem.Arena.Xalloc`, `VMem.HintMissed`);
- backing a range that does not start at a page boundary (`VSpace.BackedIffAligned`);
- mapping under a 2 MiB entry and user pages under tables made for the kernel (`Paging.PageMap.Map`), and
  protecting an absent page (`Paging.PageMap.Protect`);
- the empty pop (`SList.PopFaultsIffEmpty`), the depth of a long lock-free list
  (`SList.DepthRightIffBelowLimit`), and the wrap of its sequence (`SList.WrapBreaksTheList`);
- giving the processor to a lower level (`Sched.Scheduler.Yield`, `Sched.LowerLevelRuns`), and the levels of
  real-time threads (`Sched.LevelMonotoneIff`, `Sched.RealTimeAboveIff`);
- times before 1601 (`Time.RtlTimeToTimeFields`) and the month loop of `Time.RtlTimeFieldsToTime`;
- clear bits found past the end of a bitmap (`Bitmap.RtlFindClearBitsAndSet`, `Bitmap.SetsPastTheEnd`), the
  start of the next clear run (`Bitmap.RtlFindNextForwardRunClear`), and ranges that wrap in 32 bits
  (`Bitmap.AreBits`).

Leaving a critical or guarded region tests the interrupt level while it holds a spin lock, so the branch
that would deliver at once is never taken; the model leaves it out.

## Model

| member | source | states |
|---|---|---|
| `VMem.Arena.constructor` | src/mem/vmem.cpp:61-82 | a new arena is one free tile that covers [base, base + size), with nothing allocated, and satisfies the invariant |
| `VMem.Arena.SegAlloc` | src/mem/vmem.cpp:106-136 | descriptors are unused until handed out and are never shared; the call fails exactly if none is left |
| `VMem.Arena.SegFree` | src/mem/vmem.cpp:138-141 | a descriptor that is given back can be handed out again, and the tiling does not change |
| `VMem.Arena.FreelistRemove` | src/mem/vmem.cpp:276-279 | the segment leaves exactly the freelist of its size class; everything else stays where it was |
| `VMem.Arena.FreelistInsertNoMerge` | src/mem/vmem.cpp:281-288 | a segment becomes free and is on exactly the freelist floor(log2 size) |
| `VMem.Arena.FreelistInsert` | src/mem/vmem.cpp:290-329 | freeing a segment merges it with free neighbours: no two neighbouring tiles are free, and the live set loses only this segment |
| `VMem.Arena.MergeSegments` | src/mem/vmem.cpp:290-329 | unlinking one of two adjacent segments joins their tiles and keeps the doubly linked list equal to the tiling |
| `VMem.Arena.SplitSegment` | src/mem/vmem.cpp:162-239 | linking a new descriptor cuts a tile in two; both links agree with the tiling afterwards |
| `VMem.Arena.HashtabInsert` | src/mem/vmem.cpp:331-336 | an allocated segment is in exactly the bucket of its base |
| `VMem.Arena.HashtabRemove` | src/mem/vmem.cpp:338-348 | finds the live segment with this base, or reports that there is none, and takes it out of its bucket |
| `VMem.Arena.Xalloc` | src/mem/vmem.cpp:143-274 | success returns an interval of a free tile inside [min, max) and adds exactly it to the live set; equal non-zero limits give exactly that address or a failure; the call fails exactly if no segment it tries has room and descriptors enough to be cut; without limits and with one descriptor to be had it fails exactly if no free tile is large enough; a failure changes nothing |
| `VMem.Arena.Xfree` | src/mem/vmem.cpp:350-364 | removes exactly this allocation from the live set and keeps the invariant; unknown addresses are ignored |
| `VMem.Arena.AllocThenFree` | src/mem/vmem.cpp:143-364 | allocating and freeing at once restores the same sequence of tiles |
| `VMem.Arena.FreeAll` | src/mem/vmem.cpp:350-364 | freeing all live allocations in any order leaves one free tile that covers the arena |
| `VMem.TilingIsCanonical` | src/mem/vmem.cpp:290-329 | the tiling is a function of the set of live allocations alone |
| `VMem.EmptyArenaIsOneFreeTile` | src/mem/vmem.cpp:290-329 | with nothing allocated the only tiling without neighbouring free tiles is one free tile |
| `VMem.LiveDisjoint` | src/mem/vmem.cpp:143-274 | live allocations lie in the arena and two of them never overlap |
| `VMem.FreeTileNotLive` | src/mem/vmem.cpp:162-239 | an interval cut from a free tile overlaps no live allocation |
| `VMem.SplitKeeps` | src/mem/vmem.cpp:162-239 | splitting a segment keeps the links, the tiling, the freelists and the hash table consistent |
| `VMem.MergeKeeps` | src/mem/vmem.cpp:290-329 | merging two segments keeps the links, the tiling, the freelists and the hash table consistent |
| `VMem.ClassBound` | src/mem/vmem.cpp:57-59 | every 64-bit size falls into one of the 64 classes |
| `VMem.HigherClassFits` | src/mem/vmem.cpp:57-59 | every segment of a class above that of the request is large enough for it |
| `VMem.Arena.OnlyHeadTried` | src/mem/vmem.cpp:241-268 | in the classes above that of the request only the first segment of a list is ever tried |
| `VMem.HintMissed` | src/mem/vmem.cpp:241-268 | a consistent arena in which a free address is asked for by its limits and refused: it lies behind the head of its list |
| `VMem.Arena.UnhintedCandidates` | src/mem/vmem.cpp:143-160 | without limits, every large enough free segment is among those the search tries |
| `PMalloc.PageAllocator.Pmalloc` | src/mem/pmalloc.cpp:59-80 | takes one free page, or fails exactly if no page is free |
| `PMalloc.PageAllocator.PmallocInRange` | src/mem/pmalloc.cpp:82-104 | takes the first page of a run that starts in [low, high); fails, unchanged, exactly if no run does |
| `PMalloc.PageAllocator.Take` | src/mem/pmalloc.cpp:106-213 | taking n pages off a run removes exactly those pages from the free set and keeps the runs disjoint |
| `PMalloc.PageAllocator.CutAtBoundary` | src/mem/pmalloc.cpp:106-213 | cutting a run at a boundary keeps the free set, and says exactly whether the run reaches past the boundary |
| `PMalloc.PageAllocator.Absorb` | src/mem/pmalloc.cpp:106-213 | collecting the following runs either takes exactly count pages or puts all of them back as one run |
| `PMalloc.PageAllocator.Attempt` | src/mem/pmalloc.cpp:106-213 | one candidate is taken exactly if count consecutive pages from it are free, and otherwise the free set is unchanged |
| `PMalloc.PageAllocator.PmallocContiguous` | src/mem/pmalloc.cpp:106-213 | a success is count consecutive free pages in [low, high) that cross no boundary, and only they leave the free set; a saved successor is lost exactly if Loses holds of the list, the free pages and the request; otherwise the call fails exactly if no run can satisfy the request |
| `PMalloc.PageAllocator.Pfree` | src/mem/pmalloc.cpp:215-221 | adds exactly this page to the free set |
| `PMalloc.PageAllocator.PfreeContiguous` | src/mem/pmalloc.cpp:223-229 | adds exactly these pages to the free set, as a run of their own |
| `PMalloc.TakenFacts` | src/mem/pmalloc.cpp:106-213 | the runs without the first n pages of one of them are again disjoint and cover the free pages without those |
| `PMalloc.AlignFacts` | src/mem/pmalloc.cpp:106-213 | past the boundary that a request is too close to, it fits before the next one |
| `PMalloc.NoCrossing` | src/mem/pmalloc.cpp:106-213 | a request that passes the boundary test lies between two neighbouring multiples of the boundary |
| `PMalloc.UnlinkedIff` | src/mem/pmalloc.cpp:106-213 | after a failed attempt the saved successor is unlinked exactly if it lies in the stretch put back |
| `PMalloc.LossStep` | src/mem/pmalloc.cpp:106-213 | one failed attempt loses the successor, or leaves exactly the runs outside the stretch it put back to be searched |
| `PMalloc.FromWithout` | src/mem/pmalloc.cpp:106-213 | unlinking an entry takes exactly that entry off the part of the list still ahead |
| `PMalloc.SuccessorLost` | src/mem/pmalloc.cpp:106-213 | a call on two neighbouring free pages, for three, that loses the saved successor while both pages are free |
| `PMalloc.ShortStretchRejects` | src/mem/pmalloc.cpp:106-213 | a run inside a free stretch that is too short cannot satisfy the request either |
| `Paging.EntryWord` | src/arch/x86/mem/paging.cpp:7-18 | packing frame and flags into a 64-bit entry loses nothing: both are read back from the word |
| `Paging.SameIndicesIffSamePage` | src/arch/x86/mem/paging.cpp:108-213 | two addresses have the same four table indices exactly if they have the same page number |
| `Paging.LeafWritten` | src/arch/x86/mem/paging.cpp:108-213 | writing a last-level entry changes the translation of that page, in the maps that share it, and of no other page |
| `Paging.LargeWritten` | src/arch/x86/mem/paging.cpp:22-106 | writing a 2 MiB entry changes the 512 pages it covers and no other |
| `Paging.TableLinked` | src/arch/x86/mem/paging.cpp:108-213 | hanging an empty table under an absent entry changes no translation in any map and keeps the tables a tree |
| `Paging.Placed` | src/arch/x86/mem/paging.cpp:108-213 | each table is reached by exactly one path: tables form a tree without sharing inside a map |
| `Paging.HighHalfAgrees` | src/arch/x86/mem/paging.cpp:429-436 | every high-half page translates identically in all maps |
| `Paging.RootAdded` | src/arch/x86/mem/paging.cpp:408-420 | a new top-level table with the shared upper half changes no existing map and has an empty lower half |
| `Paging.PageMap.constructor` | src/arch/x86/mem/paging.cpp:408-420 | a map created from the kernel map shares its high half and maps nothing below; other maps are unchanged |
| `Paging.PageMap.Kernel` | src/arch/x86/mem/paging.cpp:408-436 | the kernel map starts with nothing mapped and with a table under every upper-half entry |
| `Paging.PageMap.FillHighHalf` | src/arch/x86/mem/paging.cpp:429-436 | gives every upper-half entry a fresh empty table that is closed to user mode, so that upper-half pages are unmapped; lower-half translations stay |
| `Paging.PageMap.Descend` | src/arch/x86/mem/paging.cpp:108-213 | going down one level, or adding the missing table, changes no translation; pages move only from the allocator to the tables |
| `Paging.PageMap.Map` | src/arch/x86/mem/paging.cpp:108-213 | changes exactly one page (in the maps that share it), unless a 2 MiB entry is there, which leaves all translations as they are; a failure changes no translation; the page gets the rights that were asked for, but user mode is let in exactly if the tables that were there already let it in; all other pages keep their rights; allocated pages are accounted for |
| `Paging.PageMap.Map2mb` | src/arch/x86/mem/paging.cpp:22-106 | changes exactly the 512 pages of its slot, whatever was there; a failure changes no translation |
| `Paging.PageMap.Unmap` | src/arch/x86/mem/paging.cpp:215-265 | removes exactly one 4 KiB translation and leaves 2 MiB ones |
| `Paging.PageMap.GetPhys` | src/arch/x86/mem/paging.cpp:267-316 | the address of a mapped 4 KiB or 2 MiB page with its offset, and 0 where there is no table |
| `Paging.PageMap.Protect` | src/arch/x86/mem/paging.cpp:318-401 | changes the flags of exactly one page and keeps every frame; an absent page becomes present exactly if it has a table and the flags ask for it; rights as for map |
| `Paging.TablesOnlyHideUser` | src/arch/x86/mem/paging.cpp:108-213 | entries that point to tables never hide the right to write or to execute, only that of user mode |
| `Paging.HighHalfClosed` | src/arch/x86/mem/paging.cpp:429-436 | user mode reaches no page of the upper half in any map, whatever flags it was mapped with |
| `Paging.LinkKeepsAlong` | src/arch/x86/mem/paging.cpp:108-213 | a new table changes what user mode may do only for pages below it, none of which is mapped |
| `Paging.Apply` | src/arch/x86/mem/paging.cpp:108-436 | one operation on one of several maps keeps the lower halves of all other maps |
| `Paging.RunMaps` | src/arch/x86/mem/paging.cpp:108-436 | after any run of creations, 4 KiB and 2 MiB mappings, unmappings and protections all maps agree on the high half, user mode reaches none of it, and maps that were not named keep their lower half |
| `VSpace.VirtualSpace.BackPage` | src/mem/vspace.cpp:36-56 | maps one unmapped page to a page that was free, or keeps every translation and gives the page back |
| `VSpace.VirtualSpace.Back` | src/mem/vspace.cpp:36-66 | maps all pages of a range to different free pages, or undoes those already mapped |
| `VSpace.VirtualSpace.RollBack` | src/mem/vspace.cpp:51-61 | undoing the pages backed so far restores translations and spare pages |
| `VSpace.VirtualSpace.Reserve` | src/mem/vspace.cpp:19-26 | the range taken was free, is aligned, and nothing in it is mapped |
| `VSpace.VirtualSpace.AllocBacked` | src/mem/vspace.cpp:32-69 | all or nothing: on success each page of a range that was unmapped maps to a different page that was free; on failure arena, translations and spare pages are as before |
| `VSpace.VirtualSpace.FreeBacked` | src/mem/vspace.cpp:71-82 | unmaps exactly the range, gives back exactly its pages and frees the range |
| `VSpace.VirtualSpace.AllocThenFree` | src/mem/vspace.cpp:32-82 | freeing what was just allocated restores arena, translations and spare pages, up to kept table pages |
| `VSpace.FreshRange` | src/mem/vspace.cpp:32-36 | a range cut from a free tile of an aligned arena is aligned and has no translation |
| `VSpace.BackedIffAligned` | src/mem/vspace.cpp:36-48 | the pages that are mapped hold every address of the range exactly if the range starts at a page boundary |
| `VSpace.RangeAllocated` | src/mem/vspace.cpp:36-48 | after backing a range, the arena outside live ranges is still unmapped |
| `VSpace.RangeFreed` | src/mem/vspace.cpp:71-82 | after freeing a range, the arena outside live ranges is still unmapped |
| `VSpace.Undone` | src/mem/vspace.cpp:51-61 | mapping a range that had no entries and unmapping it changes no translation |
| `Slab.SizeOf` | src/mem/malloc.cpp:127-129 | each slot size is a multiple of 16 that divides the page into at least four slots |
| `Slab.ClassIndex` | src/mem/malloc.cpp:20-21 | the first class whose slots hold the size; none exactly above 1024 bytes |
| `Slab.SlabAllocator.FindClass` | src/mem/malloc.cpp:20-21 | the search over the classes finds that class |
| `Slab.SlabAllocator.TakeSlot` | src/mem/malloc.cpp:23-39 | the first chained slot of a listed page becomes a new object; a page that is full leaves its list |
| `Slab.SlabAllocator.ChainSlots` | src/mem/malloc.cpp:52-60 | the slots of a new page are chained through their own words, highest first; no word outside the page changes |
| `Slab.SlabAllocator.NewPage` | src/mem/malloc.cpp:40-70 | a new page comes from the page allocator; fails exactly if no page is free |
| `Slab.SlabAllocator.Alloc` | src/mem/malloc.cpp:17-75 | a new object of the right class that no live object overlaps; fails exactly if the size is too large or neither a slot nor a page is free; a page is taken only if the list is empty |
| `Slab.SlabAllocator.Dealloc` | src/mem/malloc.cpp:77-110 | removes exactly this object; its page goes back to the page allocator exactly if it was the last one in it |
| `Slab.SlabAllocator.Overwrite` | src/mem/malloc.cpp:112-114 | owners may overwrite any word of live objects without harm to any chain |
| `Slab.ObjectsApart` | src/mem/malloc.cpp:17-110 | two live objects never overlap, lie inside one slab page each and are aligned to 16 |
| `Slab.AllFreed` | src/mem/malloc.cpp:90-95 | once all objects are freed no slab page is left |
| `Slab.LastIff` | src/mem/malloc.cpp:88-95 | the used count is 1 exactly if the object is alone in its page |
| `Slab.TakeKeeps` | src/mem/malloc.cpp:23-39 | taking a slot keeps chain length plus count equal to the capacity, and lists exact |
| `Slab.GiveKeeps` | src/mem/malloc.cpp:96-108 | freeing a slot of a page with others keeps chains, counts and lists exact, and removes one object |
| `Slab.LastKeeps` | src/mem/malloc.cpp:90-95 | freeing the last slot of a page removes the page from its list and one object |
| `Slab.NewKeeps` | src/mem/malloc.cpp:40-70 | a new page joins its list with one object and all other slots chained |
| `Malloc.KernelHeap.Kmalloc` | src/mem/malloc.cpp:149-165 | by size: a slab object, a page, or a backed range; a failure changes nothing, and pages taken were in the pool |
| `Malloc.KernelHeap.Kfree` | src/mem/malloc.cpp:167-181 | gives back what an allocation of this size holds; null pointers and sizes of 0 change nothing |
| `Malloc.KernelHeap.AllocThenFree` | src/mem/malloc.cpp:149-181 | for every size, freeing what was just allocated restores objects, addresses, translations and pages |
| `Malloc.KernelHeap.SmallAlloc` | src/mem/malloc.cpp:154-156 | a slab allocation leaves the address space as it is and takes no page out of the pool |
| `Malloc.KernelHeap.PageAlloc` | src/mem/malloc.cpp:157-163 | a page allocation owns exactly one page that was in the pool |
| `Malloc.KernelHeap.LargeAlloc` | src/mem/malloc.cpp:164 | a large allocation owns exactly the pages mapped in its range |
| `Heap.Run` | src/mem/malloc.cpp:149-181 | after any run of allocations and frees of any sizes the objects, address ranges, pages and translations are those of the start but for the allocations held, which share nothing |
| `Heap.NoSharedByte` | src/mem/malloc.cpp:149-181 | two live allocations, slab objects, pages or backed ranges, have no byte of physical memory in common |
| `Heap.RangesApart` | src/mem/malloc.cpp:149-181 | two live backed ranges have no address in common |
| `Heap.StillHeld` | src/mem/malloc.cpp:149-181 | an allocation holds what it was given whatever happens to the others |
| `Heap.FreeAll` | src/mem/malloc.cpp:167-181 | freeing all of them in any order restores objects, ranges, pages and translations |
| `Heap.RunAndFreeAll` | src/mem/malloc.cpp:149-181 | a run after which everything is freed leaves the heap and the tiling of the arena as they were |
| `Heap.Alloc` | src/mem/malloc.cpp:149-165 | one allocation keeps the books balanced |
| `Heap.Free` | src/mem/malloc.cpp:167-181 | giving one allocation back keeps the books balanced |
| `Heap.NoCommonPage` | src/mem/malloc.cpp:149-181 | two backed ranges never map the same page |
| `SList.TagsCount` | src/std/list.cpp:61-158 | what push, pop and flush do to the depth, which counts modulo 2^16, and to the sequence, which a push onto a full depth moves by two |
| `SList.DepthRightIffBelowLimit` | src/std/list.cpp:169-171 | the depth that can be asked for is the length of the list modulo 2^16, and right exactly while the list is shorter than that |
| `SList.PushSwapKeepsInv` | src/std/list.cpp:61-93 | a successful exchange of push puts its entry on top of the abstract stack, at any depth |
| `SList.PopSwapKeepsInv` | src/std/list.cpp:100-129 | a successful exchange of pop takes the top off the abstract stack |
| `SList.FlushSwapKeepsInv` | src/std/list.cpp:136-158 | a successful exchange of flush empties the abstract stack and returns its chain |
| `SList.CallerStepKeepsInv` | src/std/list.cpp:61-158 | owners may overwrite entries that are not on the list at any time |
| `SList.StepKeepsInv` | src/std/list.cpp:61-158 | every step of every thread keeps the invariant, and moves the sequence forward or only shortens the list |
| `SList.EveryRunIsLinearizable` | src/std/list.cpp:61-158 | in every run, under any interleaving, with torn header reads and at any depth, the successful exchanges form a legal stack history that ends in the current list, as long as the 48-bit sequence has not wrapped |
| `SList.NoABA` | src/std/list.cpp:61-158 | equal headers at two instants of a run mean that neither the header nor the list changed in between |
| `SList.PopIsAtomic` | src/std/list.cpp:100-129 | the next entry that pop read long before is the second entry at the instant of the exchange |
| `SList.FailureMeansProgressElsewhere` | src/std/list.cpp:61-158 | a compare-exchange fails only if another thread exchanged successfully since the first load of this attempt |
| `SList.PopFaultsIffEmpty` | src/std/list.cpp:100-129 | in every run a pop faults exactly if the list was empty at the instant it last read the first entry |
| `SList.TicksBound` | src/std/list.cpp:61-93 | the sequence moves by at most two for each push, so 2^47 pushes never wrap it |
| `SList.WrapBreaksTheList` | src/std/list.cpp:61-129 | a run of 2^48 + 2 pushes after which a stalled pop exchanges successfully and leaves an entry on the list that had left it |
| `SList.PopAloneFaultsIffEmpty` | src/std/list.cpp:100-129 | run alone, a pop returns the top, or faults exactly on the empty list |
| `Unwind.EncodedStep` | src/arch/x86/arch_except.cpp:46-65 | the encoding of an operation takes the slots the unwinder counts and decodes to the operation |
| `Unwind.HugeAllocUndoneIff` | src/arch/x86/arch_except.cpp:155-176 | the three-slot allocation is undone exactly if its size is below 2^31 |
| `Unwind.UndoDecodes` | src/arch/x86/arch_except.cpp:144-220 | undoing the codes of a prolog undoes its operations one by one |
| `Unwind.StepBack` | src/arch/x86/arch_except.cpp:144-220 | undoing one operation gives a state in which the thread could have been before it |
| `Unwind.StepsRestore` | src/arch/x86/arch_except.cpp:144-220 | undoing all executed operations restores every saved register |
| `Unwind.SkipEncoded` | src/arch/x86/arch_except.cpp:144-152 | the first loop skips exactly the operations that have not executed |
| `Unwind.AllUndone` | src/arch/x86/arch_except.cpp:144-220 | an epilog code at or before pc ends the search early, and then all operations are undone, also those that have not executed |
| `Unwind.ExecutedUndone` | src/arch/x86/arch_except.cpp:144-220 | otherwise exactly the executed operations are undone |
| `Unwind.UnwindInvertsProlog` | src/arch/x86/arch_except.cpp:144-220 | for every well-formed prolog, interrupted after any instruction or in the body, the caller gets back rip, rsp and every saved register, unless an epilog code ends the search early; then, for a function entered by a call, exactly if that is harmless |
| `Unwind.RspReachedIff` | src/arch/x86/arch_except.cpp:144-220 | undoing operations that have not executed brings rsp back exactly if they take no stack modulo 2^64, or set a frame register that already holds its future value |
| `Unwind.InStepIffNothingTaken` | src/arch/x86/arch_except.cpp:144-220 | without a frame register that is so exactly if the rest of the prolog pushes nothing and allocates nothing |
| `Unwind.EntryFrameFoundIff` | src/arch/x86/arch_except.cpp:144-220 | however the function was entered, the return address or the machine frame is then looked for where it is exactly if rsp stayed in step |
| `Unwind.RestoredIsHarmless` | src/arch/x86/arch_except.cpp:144-220 | if the caller gets everything back, rsp stayed in step and no register that the executed part did not save was clobbered |
| `Unwind.EpilogCodeBreaksProlog` | src/arch/x86/arch_except.cpp:144-152 | a prolog and an epilog code for which an operation that has not executed is undone |
| `Unwind.EstablisherIsFrameBase` | src/arch/x86/arch_except.cpp:82-104 | the establisher frame is rsp as it was when the frame register was set, or the current one before that |
| `Unwind.GetUnwindSlots` | src/arch/x86/arch_except.cpp:46-65 | the number of slots of the code at an index, or a failure where the source panics or reads past the array |
| `Unwind.FindEstablisher` | src/arch/x86/arch_except.cpp:82-104 | the loop computes the establisher frame |
| `Unwind.SkipToExecuted` | src/arch/x86/arch_except.cpp:144-152 | the loop finds the first code whose instruction has executed |
| `Unwind.UndoCode` | src/arch/x86/arch_except.cpp:153-208 | one pass of the second loop updates the context as undoing the decoded operation does |
| `Unwind.UndoFrom` | src/arch/x86/arch_except.cpp:153-220 | the second loop and what follows it undo all remaining codes |
| `Unwind.RtlVirtualUnwind` | src/arch/x86/arch_except.cpp:67-220 | the whole function computes the establisher frame and the unwound context, or fails where the source panics, fails an assertion or reads past its codes |
| `Unwind.CheckEpilogs` | src/arch/x86/arch_except.cpp:106-142 | the assertions on epilogs fail exactly if their size is 0 or a listed epilog starts at or before pc |
| `Unwind.EpilogTestRightIff` | src/arch/x86/arch_except.cpp:106-142 | that test tells the inside of epilogs from the rest of the function exactly if no code follows an epilog |
| `Unwind.OneEpilogIsRight` | src/arch/x86/arch_except.cpp:106-142 | it is right all over a function with one epilog at its end |
| `Unwind.CodeBehindEpilogIsRefused` | src/arch/x86/arch_except.cpp:106-142 | a function and a pc in its body, behind an epilog, for which the assertion fails |
| `Unwind.ReadWrite64` | src/arch/x86/arch_except.cpp:144-220 | a 64-bit value written to memory byte by byte is read back |
| `ListEntry.InitializeListHead` | include/ntdef.h:78-81 | an empty circular list |
| `ListEntry.IsListEmpty` | include/ntdef.h:83-85 | true exactly for the empty list |
| `ListEntry.RemoveHeadList` | include/ntdef.h:87-92 | removes and returns the first entry and keeps the others linked both ways; on an empty list returns the head |
| `ListEntry.RemoveEntryList` | include/ntdef.h:94-99 | removes exactly this entry, from any position; true exactly if none is left |
| `ListEntry.InsertHeadList` | include/ntdef.h:101-107 | the entry becomes the first one, the others keep their order |
| `ListEntry.InsertTailList` | include/ntdef.h:109-115 | the entry becomes the last one, the others keep their order |
| `Callback.CallbackObject.NotifyBegin` | src/misc/callback.cpp:105-111 | a notification enters the first callback, or ends at once if there is none |
| `Callback.CallbackObject.NotifyNext` | src/misc/callback.cpp:109-119 | a notification leaves one callback and enters the one behind it, or ends |
| `Callback.CallbackObject.Register` | src/misc/callback.cpp:124-148 | puts the callback in front; refused exactly if only one is allowed and there is one, or if memory is short |
| `Callback.CallbackObject.TryUnregister` | src/misc/callback.cpp:150-177 | unlinks the callback exactly if no notification is in it |
| `Callback.CallbackObject.Run` | src/misc/callback.cpp:100-177 | any interleaving of these sections keeps the invariant; calls are never taken back and unregistered callbacks stay unregistered |
| `Callback.UnregisteredIsIdle` | src/misc/callback.cpp:150-177 | after its unregistration a callback is in no notification and is not listed |
| `Callback.ExactlyOnce` | src/misc/callback.cpp:100-122 | a notification that has ended called each callback registered all along exactly once, and none that came later |
| `Callback.NextKeeps` | src/misc/callback.cpp:109-119 | moving on keeps every cursor on a linked entry and every reference count exact |
| `Callback.RegisterKeeps` | src/misc/callback.cpp:124-148 | a registration changes nothing for running notifications |
| `Callback.UnregisterKeeps` | src/misc/callback.cpp:150-177 | an unregistration keeps every cursor on a linked entry |
| `Apc.ApcThread.Initialize` | src/sched/apc.cpp:13-34 | an APC without a normal routine is a special kernel APC |
| `Apc.ApcThread.InsertQueue` | src/sched/apc.cpp:36-81 | refused exactly if inserted already or the thread exits; special APCs go to the front, others to the back; which pending flags are set |
| `Apc.PushKeeps` | src/sched/apc.cpp:52-58 | insertion keeps special APCs in front and each inserted APC in exactly one queue, once |
| `Apc.PopKernel` | src/sched/apc.cpp:131-133 | removal keeps special APCs in front and each inserted APC in exactly one queue, once |
| `Apc.ApcThread.EnterRegion` | src/sched/thread.cpp:92-137 | the disable counters count the regions entered |
| `Apc.ApcThread.LeaveRegion` | src/sched/thread.cpp:101-166 | leaving the last region asks for a delivery exactly if kernel APCs wait |
| `Apc.ApcThread.TestAlertThread` | src/sched/thread.cpp:56-72 | returns and clears the alert; otherwise a waiting user APC becomes pending |
| `Apc.ApcThread.Next` | src/sched/apc.cpp:115-191 | the next routine of a delivery starts and its APC leaves its queue; with the flags as the source sets them; a pending user APC implies a non-empty user queue |
| `Apc.EndsDrained` | src/sched/apc.cpp:115-170 | a delivery only ends with no special APC left, and leaves normal ones only if they are held back |
| `Apc.ApcThread.DeliverApc` | src/sched/apc.cpp:97-129 | nothing in a guarded region; otherwise the delivery starts its first routine |
| `Apc.ApcThread.KernelReturned` | src/sched/apc.cpp:131-164 | after a special APC the delivery goes on; after the kernel routine of a normal one its normal routine starts, unless it was removed |
| `Apc.ApcThread.NormalReturned` | src/sched/apc.cpp:158-170 | a normal routine is only ever under way at the bottom of the stack: two are never nested |
| `Apc.ApcThread.Run` | src/sched/apc.cpp:13-191 | every run keeps the queues, the flags, the shape of the stack, and that each insertion is delivered once or still queued |
| `Apc.SpecialsThenNormals` | src/sched/apc.cpp:52-58 | the kernel queue is its special APCs followed by its normal ones |
| `Apc.ApcThread.DeliverKernel` | src/sched/apc.cpp:113-170 | undisturbed, the loop ends after running all special APCs and then, unless they are held back, all normal ones in order |
| `Sched.Level` | src/sched/sched.hpp:43-79 | every thread has a level from 1 to 31; levels from 16 on are for real-time processes |
| `Sched.LevelMonotoneIff` | src/sched/sched.cpp:43-79 | a higher priority in the same process never means a lower level, except that an idle thread of a real-time process is above those from lowest to above normal |
| `Sched.LevelMonotoneInClass` | src/sched/sched.cpp:43-79 | a higher process class never means a lower level |
| `Sched.RealTimeAboveIff` | src/sched/sched.cpp:43-79 | a real-time thread is above all others exactly if it is idle, highest or time-critical |
| `Sched.Top` | src/sched/sched.cpp:10-12 | the highest level that is not empty |
| `Sched.Scheduler.FindLevel` | src/sched/sched.cpp:10-12 | the number of the highest set bit of the summary is that level, counted from 1 |
| `Sched.Scheduler.QueuePrivate` | src/sched/sched.cpp:54-62 | a thread becomes ready at the end of its level |
| `Sched.Scheduler.UpdateSchedule` | src/sched/sched.cpp:64-95 | buries an ended thread; takes the first thread of the highest non-empty level, else the idle thread, or none if the current thread runs on |
| `Sched.Scheduler.SwitchTo` | src/sched/sched.cpp:136-144 | the chosen thread is the only one running |
| `Sched.Scheduler.Yield` | src/sched/sched.cpp:100-152 | if a thread is ready the first of the highest level runs and the current one is queued; otherwise nothing changes; afterwards no ready thread is above the running one exactly if none was ready or the old one was not above all of those |
| `Sched.Scheduler.YieldAway` | src/sched/sched.cpp:110-152 | a thread that may not run here any more goes to exactly one other scheduler and is ready there, or waits if no processor allows it |
| `Sched.LowerLevelRuns` | src/sched/sched.cpp:100-152 | a thread of level 15 yields to one of level 1 |
| `Sched.Scheduler.Block` | src/sched/sched.cpp:154-190 | the current thread waits or ends, unless it was unblocked before; there is always a next thread, and no ready one is above it |
| `Sched.Scheduler.Unblock` | src/sched/sched.cpp:192-216 | a waiting or sleeping thread becomes ready; a running one will not block the next time |
| `Sched.Scheduler.FindSleeper` | src/sched/sched.cpp:237-245 | the position in front of the first sleeper with a later deadline |
| `Sched.Scheduler.Sleep` | src/sched/sched.cpp:218-270 | the current thread is inserted into the sleepers by its 64-bit deadline, behind those with the same one, unless it was unblocked before, and the next thread runs |
| `Sched.Scheduler.Queue` | src/sched/sched.cpp:272-278 | a thread that is new or waits becomes ready |
| `Sched.Scheduler.WakeExpired` | src/sched/sched.cpp:284-294 | only sleepers whose deadline has passed are woken, in order, from the front |
| `Sched.Scheduler.HandleQuantumEnd` | src/sched/sched.cpp:280-321 | wakes expired sleepers, then switches to the first thread of the highest level, if there is one, even if that is below the current one |
| `Sched.Scheduler.DestroyNext` | src/sched/sched.cpp:25-41 | the destroyer takes the first ended thread |
| `Sched.Scheduler.Step` | src/sched/sched.cpp:54-321 | a sleeper is only woken by an unblock or by a quantum end after its deadline |
| `Sched.Scheduler.Run` | src/sched/sched.cpp:54-321 | every run keeps: summary bits exact, each thread on the queue of its status and no other, sleepers sorted, one running thread |
| `Sched.PushKeeps` | src/sched/sched.cpp:54-62 | queueing keeps the summary bits and the levels exact |
| `Sched.PopKeeps` | src/sched/sched.cpp:85-92 | taking a thread off a level keeps the summary bits and the levels exact |
| `Sched.SleepKeeps` | src/sched/sched.cpp:237-250 | inserting a sleeper keeps the sleepers sorted and the queues disjoint |
| `Sched.WakeKeeps` | src/sched/sched.cpp:206-208 | removing a sleeper keeps the others sorted |
| `HandleTable.Table.Get` | src/sched/handle_table.cpp:6-22 | returns the object of a live handle and adds one reference; fails exactly for handles that are not live |
| `HandleTable.Table.Insert` | src/sched/handle_table.cpp:24-68 | a handle that was not live now maps to the object, with one more reference; fails exactly if the table is full and cannot grow; the last freed slot is reused first |
| `HandleTable.Table.Grow` | src/sched/handle_table.cpp:36-54 | copying into a larger table keeps all handles |
| `HandleTable.Table.Remove` | src/sched/handle_table.cpp:80-105 | removes exactly this handle and one reference; a second removal fails |
| `HandleTable.Table.Destroy` | src/sched/handle_table.cpp:70-78 | the destructor drops exactly the references of the handles, since dereferencing the null objects of unused slots does nothing |
| `HandleTable.ReuseKeeps` | src/sched/handle_table.cpp:28-34 | reusing the first free slot keeps the chain acyclic and exact |
| `HandleTable.RemoveKeeps` | src/sched/handle_table.cpp:90-95 | freeing a slot puts it in front of the chain of free slots |
| `HandleTable.GrowKeeps` | src/sched/handle_table.cpp:36-54 | a larger table that starts with the old one represents the same handles |
| `HandleTable.InsertRefs` | src/sched/handle_table.cpp:61-65 | an object has one reference for each of its handles and each lookup |
| `Time.DaysBeforeYearClosed` | src/std/rtl.cpp:742-748 | the days before a year, summed year by year, have the closed Gregorian form |
| `Time.MonthsFillYear` | src/std/rtl.cpp:750-755 | the month table adds up to the length of the year |
| `Time.LastYear` | src/std/rtl.cpp:797-808 | a 64-bit time is never later than 30828, so the year fits into 16 bits |
| `Time.FindYear` | src/std/rtl.cpp:797-808 | the year loop ends with the year that contains the day |
| `Time.FindMonth` | src/std/rtl.cpp:810-821 | the month loop ends with the month that contains the day |
| `Time.RtlTimeToTimeFields` | src/std/rtl.cpp:787-829 | for every 64-bit time: the fields stand for the time cut to milliseconds exactly unless it is more than 32769 days before 1601, and are a valid date of it exactly if it is less than a millisecond before 1601, or later; from then on the weekday is the day number plus one, modulo 7 |
| `Time.NegativeValue` | src/std/rtl.cpp:787-829 | before 1601 all fields below the month count backwards from the first of January, as far as the day fits into 16 bits |
| `Time.FieldsUnique` | src/std/rtl.cpp:787-829 | valid fields of the same time are the same, so that conversion is the only one |
| `Time.RtlTimeFieldsToTime` | src/std/rtl.cpp:762-785 | the result is the time of the fields exactly if the month has 31 days, and otherwise early by the missing days; for valid dates the 64-bit sum overflows exactly if that value does |
| `Time.RoundTrip` | src/std/rtl.cpp:762-829 | converting a time to fields and back gives it back exactly in months of 31 days |
| `Bitmap.RtlSetBits` | src/std/rtl.cpp:577-599 | the word-wise form sets exactly the bits of the range |
| `Bitmap.RtlClearBits` | src/std/rtl.cpp:553-575 | the word-wise form clears exactly the bits of the range |
| `Bitmap.FillBits` | src/std/rtl.cpp:553-599 | partial words at the ends and whole words between equal the definition bit by bit |
| `Bitmap.LowMask` | src/std/rtl.cpp:561-574 | the mask ((1 << n) - 1) << o has exactly the bits from o to o + n - 1 |
| `Bitmap.RtlSetBit` | src/std/rtl.cpp:725-727 | sets exactly one bit |
| `Bitmap.FindClear` | src/std/rtl.cpp:606-622 | finds the least start of enough clear bits from an index on; skipping past a set bit misses none |
| `Bitmap.RtlFindClearBitsAndSet` | src/std/rtl.cpp:601-635 | the least such start from the hint on, else the least from 0; sets exactly that run; fails exactly if there is none; the run lies inside the bitmap exactly if one inside it starts at or after the hint, or nothing is found from the hint on and one inside it exists |
| `Bitmap.InsideIff` | src/std/rtl.cpp:601-635 | what the search finds from an index on lies inside the bitmap exactly if something from there on does |
| `Bitmap.SetsPastTheEnd` | src/std/rtl.cpp:601-635 | a bitmap of one bit for which two bits are found and the one behind its end is set |
| `Bitmap.RtlFindNextForwardRunClear` | src/std/rtl.cpp:637-659 | the length of the first clear run that a set bit ends, with an index length + 1 behind its start; loops forever exactly if the first clear run reaches the end |
| `Bitmap.RtlAreBitsSet` | src/std/rtl.cpp:661-676 | the answer is right exactly if the end of the range does not wrap in 32 bits or the start is outside the bitmap |
| `Bitmap.RtlAreBitsClear` | src/std/rtl.cpp:678-693 | the same for clear bits |
| `Bitmap.AreBits` | src/std/rtl.cpp:661-693 | where the end wraps and the start is inside, the answer is yes whatever the bits are |
| `Bitmap.NumberOfBits` | src/std/rtl.cpp:695-723 | counts exactly the bits with the given value |
| `Bitmap.SetAndClear` | src/std/rtl.cpp:695-723 | the set and the clear bits together are all bits |
| `Bitmap.FilledCounts` | src/std/rtl.cpp:601-635 | setting n clear bits inside the bitmap adds n to the number of set bits |

## Left out

- src/sched/wait.cpp, spin locks, DPCs: waits are abstract block and unblock steps, plain locks are atomic sections.
- `VMem::destroy` and the concrete hash function; the model holds for any hash.
- The page allocator before it is initialised, and the page structures of src/mem/pmalloc.cpp:17-57.
- `PageMap::~PageMap`, TLB flushes, the PAT bits of write-combining, and the panic on an unknown cache mode.
- VMem.Arena.SegAlloc: pages for descriptors come from a counter, not from the page allocator itself.
- PMalloc.PageAllocator.PmallocContiguous: ends where the saved successor is lost, since what the source does from an unlisted page on depends on hz::list, which is not part of this model.
- Paging.PageMap.Map: a 2 MiB entry whose first page is itself a page table is excluded, since the source then writes into that table; frames are page-aligned.
- VSpace.VirtualSpace.AllocBacked: for page-aligned hints; BackedIffAligned says what goes wrong with others.
- VSpace.VirtualSpace.Reserve: for page-aligned hints, likewise.
- VSpace.VirtualSpace.AllocThenFree: for page-aligned hints, likewise.
- `ExAllocatePool2` and `ExFreePool`: they only add a 16-byte header to kmalloc and kfree.
- Unwind.UnwindInvertsProlog: where an epilog code ends the search early in a function entered by a trap, only that a harmless end restores the caller, and where the machine frame is looked for (EntryFrameFoundIff); at a wrong place it could still meet equal values.
- Unwind.RtlVirtualUnwind: chained unwind info fails, as the source asserts that there is none; the lookup of the handler is not modelled.
- SList.EveryRunIsLinearizable: assumes 8-byte atomic loads and says nothing about fairness; the bound on the sequence is needed, as WrapBreaksTheList shows.
- Apc.ApcThread.KernelReturned: the user context that a user APC's normal routine needs (apc.cpp:214-237) is not written.
- Sched.Scheduler.Yield: cycle quotas and page map switches are not modelled.
- Sched.Scheduler.WakeExpired: how far the loop gets while it removes entries from the list it iterates over depends on hz::list, which is not part of this model, so any number of expired sleepers may be woken.
- Sched.Scheduler.HandleQuantumEnd: the number of woken sleepers is left open for the same reason.
- Sched.Scheduler.Queue: a thread that is ready, running or asleep must not be queued again, since its list links are in use.
- Sched.Scheduler.Sleep: a deadline that wraps in 64 bits is earlier than asked for, as in the source; sleepers are woken by the stored deadline.
- HandleTable.Table.Grow: a table of 2^60 slots, whose size in bytes would overflow, counts as out of memory.
- HandleTable.Table.Remove: deleting an object at its last reference, and keeping a permanent one at its first, are left to the object manager.
- Object manager, registry, drivers, interrupt controllers, PE loading, boot code, printing: hardware access, foreign data structures, or easy members.

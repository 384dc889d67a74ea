# Kernel memory, tasks and dynamic linking: a verified model

GN-base is a small arm64 kernel with a vendored copy of musl.  This project models the parts of it
whose correctness is hardest to see, and proves what they promise:

- the granule allocator and its fragmentation report (`GranAllocator`, `GranRuns`,
  `GranBytes`, `GranInfo`);
- the translation tables, built from pages and 2 MiB blocks (`PageTable`, `PageTableRuns`);
- memory areas and the heap of a task, backed by both (`Mmap`, `MmapCode`);
- address space identifiers with generations, and task numbers, over word bitmaps (`Bitmap`,
  `Asid`, `AsidPaths`, `TaskSwitch`);
- the priority scheduler with its two-level bitmap and its linked lists (`SchedQueues`,
  `SchedRuns`, `SchedStall`, `Scheduler`, `ListHead`, `SchedRings`);
- the dynamic linker: constructor order, dependency lists, the constructor and destructor protocol
  between threads, symbol lookup, the list of global symbols, deferred relocations and the layout of
  thread-local storage (`DepGraph`, `CtorQueue`, `InitFini`, `InitProgress`, `GnuHash`, `SymsList`, `LazyRelocs`,
  `Tls`).

`Arith`, `Masks` and `Words` hold powers of two, masking, and machine words as bit sequences; `Basics`
holds what several modules share.

Code that updates state in place is a class or a method with loops, tied by its `ensures` to a
function or relation on values; the properties are lemmas about these, over all inputs and, for
protocols, over all runs and interleavings.  `dafny verify dfyconfig.toml` checks everything.

Facts about the code that came out of the proofs:

- gran_initialize does not clear the allocation table; it relies on memory that is 0.  Nor does it test
  that header and table leave room: in a memory too small the heap begins behind its end
  (`GranAllocator.Gran.constructor`, with an instance in `GranAllocator.TinyHeap`).
- A page mapping over part of an existing 2 MiB block takes the block for a table and writes into
  the memory it maps.  `PageTable.Tables.PtMap` and `PageTableRuns.ConflictsIff` give the exact
  condition, `PageTableRuns.BlockThenPage` two calls that meet it.
- Identifiers keep address spaces apart exactly when the hardware compares all their bits.  Start-up
  code leaves TCR_EL1.AS clear, so only 8 of 16 bits are compared (`Asid.ConfiguredSafeIff`).
- check_and_switch_context does not store an identifier that it uses again, so the task gets another index at
  its next switch in the same generation: `AsidPaths.IndexStaysIff` says when, `AsidPaths.IndexChanges` is a
  run.
- task_assign_tid searches upward from the last number only, so it can refuse while lower numbers
  are free: `TaskSwitch.RefusalIff` says when, `TaskSwitch.RefusedThoughFree` is a run.
- A task that is unblocked before its wake-up time can leave the scheduler's bitmap wrong once it runs;
  `SchedStall.EarlyUnblockStalls` shows a run from sched_init on in which a sleeping task then stays the
  running one.  `SchedRuns.RunLooseIff` says in which runs the bitmap goes wrong, by the tasks that the
  switches take, and `SchedRuns.SafeRunsBest` that in all others every choice is the right one.
- Deferring a relocation and replaying it differs from relocating late in the cases that
  `LazyRelocs.LoadingIsEagerIff` lists, and no others.  Two of them: a weak undefined symbol is stored as 0
  and not deferred, so a library loaded later that defines it changes nothing
  (`LazyRelocs.WeakDefinedLater`); and without RTLD_GLOBAL the definitions that the first pass used are off
  the symbol list when the replay runs (`LazyRelocs.DefinedLocally`).
- sys_brk lowers the break without unmapping anything (`Mmap.ShrinkingIff`).

## Model

| member | source | states |
|---|---|---|
| `GranAllocator.Gran.constructor` | os/core/mm/mm_gran.c:67-126 | the heap starts at the first aligned address behind header and table, ends inside the memory given, wastes less than a granule, and the table has a bit for each granule, if and only if header, table and alignment leave a start before the end of the memory; otherwise the difference wraps and the heap begins behind the memory |
| `GranAllocator.TinyHeap` | os/core/mm/mm_gran.c:67-126 | a heap of eight bytes begins behind them |
| `GranAllocator.ScanWord` | os/core/mm/mm_gran.c:234-321 | the shifting search over one table word and the next finds the lowest place in the word where the run is free, or proves there is none |
| `GranAllocator.Gran.Alloc` | os/core/mm/mm_gran.c:171-326 | exact first fit: the block returned starts at the least granule where all its granules are free and inside the heap, its bits and no others are set, and NULL comes back exactly when no such granule exists, whatever the word read behind the table holds |
| `GranAllocator.Gran.MarkAllocated` | os/core/mm/mm_gran.c:328-372 | sets exactly the bits of the block, in one word or across two, and the two assertions about free bits hold |
| `GranAllocator.Gran.Free` | os/core/mm/mm_gran.c:389-443 | clears exactly the bits of the block and its assertions hold |
| `GranAllocator.Gran.GranulesFit` | os/core/mm/mm_gran.c:186-191 | the granules taken for a size are enough for all its bytes, and not one more |
| `GranAllocator.MarkThenFree` | os/core/mm/mm_gran.c:328-443 | freeing what was just allocated restores the table exactly |
| `GranRuns.RunsKeepInv` | os/core/mm/mm_gran.c:171-443 | in every state of every run of allocations and matching frees the set bits are exactly the union of the live blocks, which do not overlap and lie in the heap |
| `GranRuns.AllocKeeps` | os/core/mm/mm_gran.c:171-326 | an allocation keeps that invariant |
| `GranRuns.FreeKeeps` | os/core/mm/mm_gran.c:389-443 | so does a free |
| `GranRuns.LiveBitsSet` | os/core/mm/mm_gran.c:389-443 | what gran_free demands of its caller holds for every live block |
| `GranRuns.BlocksInMemory` | os/core/mm/mm_gran.c:67-126 | in bytes: live blocks of any run are aligned, inside the memory, clear of the header and apart from each other |
| `GranBytes.AllocBytes` | os/core/mm/mm_gran.c:171-326 | in bytes: a call hands out a place for the size asked for, or is denied because no run of that many granules is free |
| `GranBytes.FreeBytes` | os/core/mm/mm_gran.c:389-443 | and takes back exactly what was lent |
| `GranBytes.RunKeeps` | os/core/mm/mm_gran.c:171-443 | over every run the blocks lent are those of the table, each as long as its size needs and no longer |
| `GranBytes.LoansApart` | os/core/mm/mm_gran.c:171-443 | over every run the byte ranges of the blocks in use, each of the size asked for, lie in the heap and are apart from each other |
| `GranInfo.CombineDescribes` | os/core/mm/mm_graninfo.c:213-302 | gran_info_combine is a homomorphism: from exact summaries of two segments it makes the exact summary of their concatenation, for every mix of full, empty and mixed segments |
| `GranInfo.DescriptionUnique` | os/core/mm/mm_graninfo.c:213-302 | a segment has one exact summary only, so the combination is determined |
| `GranInfo.InfoCombine` | os/core/mm/mm_graninfo.c:213-302 | the in-place update computes that combination |
| `GranInfo.NibbleInfo` | os/core/mm/mm_graninfo.c:176-195 | all four lookup tables hold the exact summaries of all values of 0 to 4 bits |
| `GranInfo.ByteInfo` | os/core/mm/mm_graninfo.c:320-369 | exact summary of up to 8 bits |
| `GranInfo.HwordInfo` | os/core/mm/mm_graninfo.c:387-436 | exact summary of up to 16 bits |
| `GranInfo.WordInfo` | os/core/mm/mm_graninfo.c:458-588 | exact summary of a table word, partial last word included |
| `GranInfo.Account` | os/core/mm/mm_graninfo.c:458-588 | one turn of the loop keeps the longest run seen and the run that is still open exact |
| `GranInfo.Dump` | os/core/mm/mm_graninfo.c:458-588 | reports the exact number of free granules and the exact length of the longest free run, for every table and heap size |
| `GranInfo.AllocatableIffReported` | os/core/mm/mm_graninfo.c:458-588 | k granules fit somewhere if and only if k is at most the reported longest run |
| `PageTable.WritePage` | os/arch/arm64/pagetable.c:311-349 | writing a page descriptor changes the translation of one page and keeps the tables a tree |
| `PageTable.WriteSecond` | os/arch/arm64/pagetable.c:351-399 | writing a second-level descriptor leaves all translations alone that do not pass it |
| `PageTable.LinkSecond` | os/arch/arm64/pagetable.c:351-399 | hanging a fresh zeroed table under an empty top entry changes no translation |
| `PageTable.LiveAfter` | os/arch/arm64/pagetable.c:311-399 | every last-level table keeps a mapped page below it |
| `PageTable.Tables.constructor` | os/arch/arm64/pagetable.c:440-476 | an empty top table is a valid start that maps nothing |
| `PageTable.Tables.PteMap` | os/arch/arm64/pagetable.c:311-349 | exactly the pages asked for translate as asked and all others as before; the stray write happens exactly when a block stands where a table is expected, memory runs out exactly when the entry is empty and no page is left, and a page is taken exactly for an empty entry |
| `PageTable.Tables.PmdMap` | os/arch/arm64/pagetable.c:351-399 | the mix of blocks and page tables below one top entry amounts to a map update of the region, and which of the three ways it ends is exactly as for MapPages |
| `PageTable.Tables.MapPages` | os/arch/arm64/pagetable.c:402-476 | the whole call is a map update: page x of the region translates to x plus the distance with the given attributes, other pages as before, tables stay a tree with a page under each; it takes one page for each empty top entry met and for each empty level 2 entry met by a part that is no block, and these alone; and exactly when these run out before a block in the way is met it runs out of memory, exactly when they do not and one is met it writes astray, else it is done |
| `PageTable.RunsOutIff` | os/arch/arm64/pagetable.c:311-399 | without a block in the way memory runs out if and only if fewer pages are left than tables are taken |
| `PageTable.NeedBound` | os/arch/arm64/pagetable.c:311-399 | never more tables than one for each 2 MiB and each 1 GiB met |
| `PageTableRuns.NearNeedsNone` | os/arch/arm64/pagetable.c:311-349 | next to a page mapped before, in the same 2 MiB, no table is taken |
| `PageTable.Tables.PtMap` | os/arch/arm64/pagetable.c:440-476 | the same on byte addresses, pt_map and, with offset 0, idmap_pt_map alike: each byte of the range, up to the end of its last page, walks to the frame of paddr plus its distance with exactly the attribute bits asked for, every other walk is as before, with the exact condition for each of the three ways to end and the exact number of pages taken |
| `PageTable.BytesFollow` | os/arch/arm64/pagetable.c:29-195 | the page-level update gives the byte-level translation, for idmap_pt_map too |
| `PageTable.RangeFollows` | os/arch/arm64/pagetable.c:29-195 | and the frames and attributes of each byte of the range |
| `PageTable.AddBlockChunk` | os/arch/arm64/pagetable.c:380-395 | a 2 MiB block maps its 512 pages as page descriptors would |
| `PageTableRuns.UnmappedNoConflict` | os/arch/arm64/pagetable.c:318-331 | on pages not mapped yet no block is ever taken for a table |
| `PageTableRuns.UnmappedOverEmpty` | os/arch/arm64/pagetable.c:380-395 | on pages not mapped yet a new block replaces neither a table in use nor a block |
| `PageTableRuns.ConflictsIff` | os/arch/arm64/pagetable.c:318-399 | in terms of translations: a call fails if and only if some page of the region translates by a block of which the region covers a part only, or which it would map at a distance that is no multiple of a block |
| `PageTableRuns.BlockThenPage` | os/arch/arm64/pagetable.c:318-331 | on new tables with a single page to hand out, a block and then one page inside it: the first call is done, the second writes astray |
| `PageTableRuns.EarlierStay` | os/arch/arm64/pagetable.c:440-476 | a call for a region disjoint from the earlier ones keeps all their translations and maps nothing else |
| `PageTableRuns.MapAll` | os/arch/arm64/pagetable.c:440-476 | any number of calls in a row on page-disjoint regions not mapped before: after each call exactly the regions so far are mapped as asked, no block is taken for a table and none replaces a table or a block, and a call runs out of memory exactly when the tables that the calls up to it take are more than the pages there were |
| `Mmap.TilesOnce` | os/core/mm/mmap.c:95-113 | each page between the lowest area and mmap_base is in exactly one area |
| `Mmap.HandedFree` | os/core/mm/mmap.c:32-38 | the blocks handed out during one call were free before and are apart from each other |
| `Mmap.PoolFresh` | os/arch/arm64/pagetable.c:318-331 | the pages handed out next are no tables yet and all different, as pt_map needs them |
| `Mmap.StartInv` | os/core/mm/mmap.c:95-113 | a task without areas, on tables that map nothing, satisfies the invariant |
| `Mmap.MapBlock` | os/core/mm/addrspace.c:149-181 | mapping a block through the translation tables takes new table pages from the blocks handed out next, in order, exactly as many as pt_map takes, and ends as pt_map does |
| `Mmap.MapKeeps` | os/core/mm/addrspace.c:26-31 | mapping freshly allocated pages keeps all mapped pages in allocated memory, no two in one frame and none in a table |
| `Mmap.StepMaps` | os/core/mm/mmap.c:40-134 | a call maps the pages of the new area, or those the heap grows by, to consecutive frames of the block handed out for them, with the attribute bits given, and no other page |
| `Mmap.MmapKeeps` | os/core/mm/mmap.c:115-183 | sys_mmap with start 0 keeps the whole invariant |
| `Mmap.BrkKeeps` | os/core/mm/mmap.c:40-66 | so does a growing sys_brk |
| `Mmap.RunKeepsInv` | os/core/mm/mmap.c:40-183 | along every run the areas tile downward from mmap_base above the heap, every page of areas and heap is mapped, and no two mapped pages share a frame with each other or with a table |
| `Mmap.CallsNeverConflict` | os/core/mm/mmap.c:115-134 | such calls never meet the failing case of pt_map |
| `Mmap.ShrinkingIff` | os/core/mm/mmap.c:46-61 | a break that does not grow keeps the gap above the heap unmapped if and only if it does not move |
| `MmapCode.HeadIsLowest` | os/core/mm/mmap.c:95-113 | the area at the head of the list starts lowest of all, although the code looks at no other |
| `MmapCode.Mm.FindFreeVma` | os/core/mm/mmap.c:95-113 | the area offered ends where the lowest area, or mmap_base, begins |
| `MmapCode.Mm.AddArea` | os/core/mm/mmap.c:136-248 | rejects exactly length 0 and unsupported flags; else puts an area of the rounded length at the head of the list, below all others, and returns its start |
| `MmapCode.GiveBack` | os/core/mm/mm_gran.c:389-443 | freeing pages in the reverse order of their allocation restores the allocation table exactly |
| `MmapCode.SysMmapCall` | os/core/mm/mmap.c:115-248 | allocator table, areas and translation tables together: a call is a step of the model, keeps its invariant and had all its requests for pages met, or is rejected and changes nothing, or the first of its requests that the allocator cannot meet was refused; the requests are those the call makes, for the record, the pages, and each table that mapping them takes |
| `MmapCode.SysBrkCall` | os/core/mm/mmap.c:40-66 | the same for a break that grows from a page boundary to any address |
| `MmapCode.Mm.MoveBrk` | os/core/mm/mmap.c:40-66 | for any byte address: moves the break unless it is below the start of the heap and asks for exactly the bytes between the old and a greater new break |
| `Bitmap.Fill` | os/lib/libutils/bitmap.c:103-141 | bitmap_set and bitmap_clear change exactly the bits [start, start + len), for any split into words |
| `Bitmap.FindNextBit` | os/lib/libutils/find_bit.c:17-47 | the least index in [start, nbits) with the wanted value in the conjunction of the maps, or nbits |
| `Bitmap.FindNextZeroBit` | os/lib/libutils/find_bit.c:95-100 | the least clear index, or nbits |
| `TaskSwitch.Switcher.CheckAndSwitchContext` | os/core/sched/task.c:78-122 | the code over the bitmap acts as the identifier protocol says, on all three paths |
| `TaskSwitch.Switcher.TaskSwitch` | os/core/sched/task.c:198-212 | the switch with its deferred flush acts as the protocol says |
| `AsidPaths.KeepsCurrent` | os/core/sched/task.c:84-89 | a kernel task has no identifier; a task whose identifier is of this generation keeps it and nothing changes |
| `AsidPaths.ReusesIndex` | os/core/sched/task.c:91-98 | a stale identifier with a free index is returned for this generation and its index marked, and nothing is stored |
| `AsidPaths.TakesNext` | os/core/sched/task.c:100-121 | else the task gets, stored, the first free index from cur_idx on |
| `AsidPaths.RollsOver` | os/core/sched/task.c:100-121 | or, without one, index 1 of the next generation, with a flush due |
| `AsidPaths.SwitchEffects` | os/core/sched/task.c:198-212 | within a group neither register nor TLB changes; else the register is set for a user task and the TLB emptied if and only if a flush is due |
| `AsidPaths.GenerationEndsIff` | os/core/sched/task.c:78-122 | over every run a generation ends exactly at a switch to a user task without a current or reusable identifier for which every index from cur_idx on is in use |
| `AsidPaths.IndexStaysIff` | os/core/sched/task.c:78-122 | two switches to a task in one generation use the same index if and only if the first does not use a stale index again |
| `AsidPaths.IndexChanges` | os/core/sched/task.c:91-98 | with four indices or more, a run in which the index of a task changes within a generation |
| `Asid.TlbSafety` | os/core/sched/task.c:78-122 | over every run of switches in which the generation counter does not wrap: within a generation an identifier goes to one task, never identifier 0, and user code never runs while the TLB holds entries of another address space under its tag, with flushes deferred and the reuse path not storing its result |
| `Asid.RunKeepsInv` | os/core/sched/task.c:78-122 | the invariant behind it, in every state of every run |
| `Asid.ChooseKeeps` | os/core/sched/task.c:78-122 | check_and_switch_context keeps it |
| `Asid.SwitchKeeps` | os/core/sched/task.c:198-212 | task_switch keeps it |
| `Asid.UserKeeps` | os/core/sched/task.c:198-212 | user code that fills the TLB keeps it |
| `Asid.SharedTagUnsafe` | os/core/mm/addrspace.c:108-133 | for any two identifiers with one tag there is a run in which user code meets foreign translations |
| `Asid.SafeIffTagsDistinct` | os/core/sched/task.c:198-212 | all runs are safe if and only if different identifiers have different hardware tags |
| `Asid.ConfiguredSafeIff` | os/arch/arm64/setup.c:173-183 | with the configured hardware that is: if and only if identifiers have 16 bits and TCR_EL1.AS is set |
| `TaskSwitch.TidAllocator.Assign` | os/core/sched/task.c:163-176 | hands out the least free number after the last one, or refuses |
| `TaskSwitch.TidAllocator.Release` | os/core/sched/task.c:157-161 | makes exactly this number free, in use or not, and searches from it next |
| `TaskSwitch.AssignedIff` | os/core/sched/task.c:163-176 | a number is handed out if and only if it is the first free one after the last |
| `TaskSwitch.RefusalIff` | os/core/sched/task.c:163-169 | a number is refused if and only if every free one lies below the place where the search starts |
| `TaskSwitch.ReleasedIsNext` | os/core/sched/task.c:157-176 | a number just released is the next one handed out |
| `TaskSwitch.RefusedThoughFree` | os/core/sched/task.c:157-176 | a run from the start that ends with a refusal while a number is free |
| `TaskSwitch.TidsDistinct` | os/core/sched/task.c:157-176 | over every run a number is handed out again only after it was released |
| `ListHead.Insert` | os/include/uapi/list.h:62-70 | on pointers: a ring with the node put at the given place, both directions linked, no other node touched |
| `ListHead.Add` | os/include/uapi/list.h:80-83 | the sequence with the node at its head |
| `ListHead.AddTail` | os/include/uapi/list.h:93-96 | the sequence with the node at its end |
| `ListHead.Unlink` | os/include/uapi/list.h:121-124 | the sequence without the element |
| `ListHead.DelInit` | os/include/uapi/list.h:160-164 | the same, and the element becomes a ring of its own |
| `ListHead.MoveTail` | os/include/uapi/list.h:182-187 | from one ring to the end of another |
| `ListHead.Elements` | os/include/uapi/list.h:414-415 | walking the ring yields the sequence |
| `ListHead.Empty` | os/include/uapi/list.h:204-207 | tells whether the sequence is empty |
| `Scheduler.MapIsLowest` | os/core/sched/scheduler.c:42-59 | the 256-entry table holds the lowest set bit of every byte, and 0 for 0 |
| `Scheduler.SetOne` | os/core/sched/scheduler.c:93-101 | setting group and row bits adds one priority and keeps the two levels consistent |
| `Scheduler.ClearOne` | os/core/sched/scheduler.c:163-168 | clearing removes one priority and the group bit exactly with the last of its row |
| `Scheduler.TwoLevels` | os/core/sched/scheduler.c:239-242 | the two table lookups give the least priority number in the bitmap |
| `Scheduler.Scheduler.constructor` | os/core/sched/scheduler.c:70-83 | empty lists, then the idle task attached and current |
| `Scheduler.Scheduler.AttachTask` | os/core/sched/scheduler.c:85-102 | the task at the tail of its queue, its bit set, nothing else changed |
| `Scheduler.Scheduler.UnblockTask` | os/core/sched/scheduler.c:131-147 | the task at the head of its queue, its bit set |
| `Scheduler.Scheduler.BlockTask` | os/core/sched/scheduler.c:149-169 | the task off its list, the bit cleared when its queue is empty |
| `Scheduler.Scheduler.SleepTask` | os/core/sched/scheduler.c:171-198 | the same, with the wake-up time set and the task at the end of the pending list |
| `Scheduler.Scheduler.WakeTask` | os/core/sched/scheduler.c:200-213 | a pending task moves to the tail of its queue |
| `Scheduler.Scheduler.PendingCheck` | os/core/sched/scheduler.c:215-230 | on sequences, the walk acts as the pending check, with a clock reading for each task |
| `SchedRings.Detach` | os/core/sched/scheduler.c:200-202 | on pointers: the element leaves the pending ring, and no other ring is touched |
| `SchedRings.Append` | os/core/sched/scheduler.c:85-91 | on pointers: the element goes to the end of its ready ring, and no other ring is touched |
| `SchedRings.PendingCheck` | os/core/sched/scheduler.c:215-230 | the walk with a saved next pointer over the pending ring, while its elements move: it ends at the head after each element has had its turn, the pending ring keeps those not due in order, each ready ring gets the due ones of its priority in order at its end, and all rings stay apart and whole |
| `SchedRings.CheckIsWalk` | os/core/sched/scheduler.c:215-230 | the lists of the scheduler after the pending check are the same filters of the lists before |
| `SchedRings.WalkIsCheck` | os/core/sched/scheduler.c:215-230 | so rings that hold the scheduler's lists before the walk hold the lists of the pending check after it |
| `SchedRings.SwitchWalk` | os/core/sched/scheduler.c:255-280 | the loop of schedule on pointers, with a saved next pointer: the first element of the ready ring that is not current goes to the end of the pending ring and becomes current, all rings stay apart and whole, and without such an element nothing changes |
| `SchedRings.SwitchIsDispatch` | os/core/sched/scheduler.c:255-280 | so rings that hold the scheduler's lists before hold the lists after the switch |
| `SchedRings.ScheduleRings` | os/core/sched/scheduler.c:232-287 | pending check and switch together, on pointers: rings that hold the lists before schedule hold its lists after it, and the current task is its |
| `Scheduler.Scheduler.Switch` | os/core/sched/scheduler.c:255-280 | on sequences, takes the first task of the queue that is not current, if any, to the end of the pending list |
| `Scheduler.Scheduler.ScheduleNext` | os/core/sched/scheduler.c:232-287 | pending check, search and switch together act as schedule on sequences |
| `SchedQueues.AttachLoose` | os/core/sched/scheduler.c:85-147 | making a task ready, due or not, keeps the bitmap covered: a queue that is not empty has its bit set, and a set bit over an empty queue stands for a due pending task of that priority |
| `SchedQueues.AttachKeepsIff` | os/core/sched/scheduler.c:85-147 | the full invariant has each task on one list, the bitmap covered, and all ready tasks due; making a task ready keeps it if and only if the task is due, and adds this task alone to the lists |
| `SchedQueues.WithoutSplit` | os/include/uapi/list.h:160-164 | taking a task off a list leaves the others in their order |
| `SchedQueues.BlockKeeps` | os/core/sched/scheduler.c:149-169 | so does blocking, and it takes this task alone off the lists, the others staying in order, with clock, wake-up times and the current task as they were |
| `SchedQueues.SleepKeeps` | os/core/sched/timer.c:59-72 | so does sleeping, which puts the task behind the rest of the pending list, in its old order, sets its wake-up time and changes nothing of any other task |
| `SchedQueues.TickKeeps` | os/core/sched/scheduler.c:215-230 | so does the passing of time |
| `SchedQueues.CheckExactIff` | os/core/sched/scheduler.c:215-230 | whatever the clock shows during it, the pending check leaves the bitmap exact if and only if for each bit over an empty queue a pending task of that priority is due when its turn comes |
| `SchedQueues.LooseIff` | os/core/sched/scheduler.c:215-230 | so the bitmap is covered if and only if every pending check from now on makes it exact |
| `SchedQueues.CheckKeeps` | os/core/sched/scheduler.c:215-230 | it keeps each task on one list, due queues due, wake-up times and the current task, and leaves the clock at its last reading |
| `SchedQueues.CheckReady` | os/core/sched/scheduler.c:215-230 | the tasks ready after it are those that were and the pending ones due when their turn came |
| `SchedQueues.CheckMoves` | os/core/sched/scheduler.c:215-230 | it loses no task, and a task stays pending if and only if its time is not before its reading |
| `SchedQueues.CheckAppends` | os/core/sched/scheduler.c:215-230 | queues grow at the tail only |
| `SchedRuns.DispatchBest` | os/core/sched/scheduler.c:239-280 | from an exact bitmap the switch takes a task of the best priority among all ready ones |
| `SchedRuns.DispatchLooseIff` | os/core/sched/scheduler.c:239-280 | and leaves the bitmap covered if and only if it is safe: no task is taken, or the one taken is due, leaves another in its queue, or leaves another due one of its priority pending |
| `SchedRuns.TakenLooseIff` | os/core/sched/scheduler.c:266-272 | from any exact bitmap, switching leaves it covered if and only if the task is due, leaves another one in its queue, or another due task of its priority is pending |
| `SchedRuns.ScheduleRunsBest` | os/core/sched/scheduler.c:232-287 | from every covered bitmap, ready tasks due or not: no task leaves the lists, the running task afterwards was ready or due and its priority number is the least among all such tasks, and the bitmap stays covered if and only if the switch is safe, as it is when ready tasks are due |
| `SchedRuns.InitialInv` | os/core/sched/scheduler.c:70-83 | the invariant holds after sched_init, with the idle task alone in its queue and current |
| `SchedRuns.StepLooseIff` | os/core/sched/scheduler.c:70-287 | a step of any kind, timely or not, leaves a covered bitmap covered if and only if it is not an unsafe switch |
| `SchedRuns.RunLooseIff` | os/core/sched/scheduler.c:70-287 | over every run from sched_init on of attach, unblock, block, sleep, schedule and passing time, the bitmap is covered in every state if and only if every switch is safe |
| `SchedRuns.SafeRunsBest` | os/core/sched/scheduler.c:70-287 | over every such run, as long as the switches so far are safe, each call of schedule leaves a task running that was ready or due, with the least priority number of all such |
| `SchedRuns.TimelySafe` | os/core/sched/scheduler.c:70-287 | while all ready tasks are due and tasks are made ready in time, switches are safe |
| `SchedRuns.StepKeepsIff` | os/core/sched/scheduler.c:70-287 | a step keeps the full invariant, ready tasks being due included, if and only if a task it makes ready is due |
| `SchedRuns.RunKeepsInvIff` | os/core/sched/scheduler.c:70-287 | and so does every run: the full invariant holds throughout if and only if every task was due when it was made ready |
| `SchedRuns.StepPlaced` | os/core/sched/scheduler.c:70-287 | every step, timely or not, leaves each task on at most one list and a ready one on the queue of its priority |
| `SchedRuns.WaitStep` | os/core/sched/scheduler.c:131-287 | each schedule takes the waiting task or brings it at least one place nearer; no other step moves it back |
| `SchedRuns.BoundedWaiting` | os/core/sched/scheduler.c:232-287 | a task at place i of the best ready queue runs within i + 1 calls of schedule, over every run in which nothing is put at the head of its queue, it is not taken off, and schedule looks at its queue |
| `SchedRuns.UndisturbedIff` | os/core/sched/scheduler.c:232-243 | from a covered bitmap schedule looks at the queue of a ready task if and only if no ready task, and no pending task due when its turn comes, has a better priority |
| `SchedRuns.NextOfBestRuns` | os/core/sched/scheduler.c:232-287 | so, with safe switches, the bound holds over every run in which no better task is ready or comes due |
| `SchedRuns.UnblockedRunsNext` | os/core/sched/scheduler.c:131-147 | sched_unblock puts the task before all others of its priority: it runs at the next schedule unless something better is due |
| `SchedStall.EarlyUnblockStalls` | os/core/sched/scheduler.c:70-287 | a run from sched_init on with one unblocking before the wake-up time, at the end of which schedule leaves a sleeping task running although another is ready and due |
| `DepGraph.DfsPush` | app/musl-1.2.3/ldso/dynlink.c:1486-1495 | going down to an unmarked dependency keeps the search invariant |
| `DepGraph.DfsFinish` | app/musl-1.2.3/ldso/dynlink.c:1484-1497 | so does moving a finished object from the stack to the queue |
| `DepGraph.DfsDone` | app/musl-1.2.3/ldso/dynlink.c:1442-1509 | what a finished search delivers: exactly the reachable objects, each once, dependencies first wherever they do not depend back |
| `DepGraph.DfsRoom` | app/musl-1.2.3/ldso/dynlink.c:1449-1497 | queue end and stack end of the one buffer never collide |
| `CtorQueue.Linker.QueueCtors` | app/musl-1.2.3/ldso/dynlink.c:1442-1509 | for every graph, cyclic or not: the queue holds exactly the objects reachable from the argument, each once, for every edge whose target does not depend back the target first, ended by NULL inside the buffer; marks are clear again; it terminates |
| `CtorQueue.Linker.ClearMarks` | app/musl-1.2.3/ldso/dynlink.c:1449-1461 | the bound on the buffer covers all reachable objects and their marks are clear, with and without a complete dependency list |
| `CtorQueue.Sort` | app/musl-1.2.3/ldso/dynlink.c:1473-1498 | the loop in one shared buffer performs that search |
| `CtorQueue.Linker.ExtendBfsDeps` | app/musl-1.2.3/ldso/dynlink.c:1241-1290 | the list that grows while it is walked ends: direct dependencies stay its prefix, the rest has no duplicate, it holds exactly what is reachable in at least one step, and all marks are clear again |
| `CtorQueue.BfsDone` | app/musl-1.2.3/ldso/dynlink.c:1241-1290 | a list closed under direct dependency is the reachable set |
| `InitFini.RunKeepsInv` | app/musl-1.2.3/ldso/dynlink.c:1401-1549 | the invariant of the protocol, in every state under every interleaving of threads |
| `InitFini.ConstructorsStartOnce` | app/musl-1.2.3/ldso/dynlink.c:1511-1549 | each constructor starts at most once |
| `InitFini.NoStartAfterShutdown` | app/musl-1.2.3/ldso/dynlink.c:1511-1549 | none starts once shutting_down is set |
| `InitFini.ReturnsConstructed` | app/musl-1.2.3/ldso/dynlink.c:1511-1549 | when do_init_fini returns, every object of its queue is constructed or being constructed by the caller itself |
| `InitFini.FinalizersInReverse` | app/musl-1.2.3/ldso/dynlink.c:1401-1429 | finalizers run at most once, for constructed objects only, in the reverse order of constructor starts, and at the end for all constructed objects that have some |
| `InitProgress.InitWaitsIff` | app/musl-1.2.3/ldso/dynlink.c:1518-1522 | in every run a test of do_init_fini goes on to wait, releasing the lock, if and only if another thread is in the constructor of the object or shutting_down is set |
| `InitProgress.ExitWaitsIff` | app/musl-1.2.3/ldso/dynlink.c:1413-1416 | a test of the exit call if and only if another thread is; else it runs the finalizer exactly when the object is constructed, and goes on |
| `InitProgress.TestsAgain` | app/musl-1.2.3/ldso/dynlink.c:1518-1520 | a call that waited tests again at the same place |
| `InitProgress.CallCompletes` | app/musl-1.2.3/ldso/dynlink.c:1511-1549 | from every state in which nothing keeps a thread waiting, it alone gets through a call: all of the queue is constructed, but for what the thread is constructing further out, the new objects have been started in order without repeats, and nothing else has changed |
| `InitProgress.QueueRuns` | app/musl-1.2.3/ldso/dynlink.c:1511-1549 | so for every queue there is a run from the start in which the first call constructs it |
| `InitProgress.ExitCompletes` | app/musl-1.2.3/ldso/dynlink.c:1401-1429 | from every state in which no other thread constructs a listed object, the exit call alone runs the finalizers of all constructed ones, in the order of the list, and ends |
| `GnuHash.ComputeHash` | app/musl-1.2.3/ldso/dynlink.c:235-242 | the loop computes the hash |
| `GnuHash.HashIs` | app/musl-1.2.3/ldso/dynlink.c:235-242 | which is 5381 * 33^n plus the characters as digits to base 33, modulo 2^32 |
| `GnuHash.GnuLookup` | app/musl-1.2.3/ldso/dynlink.c:258-277 | equals a linear scan for the lowest hashed symbol with that name and a non-negative version, on every table with well-formed chains |
| `GnuHash.ScanFinds` | app/musl-1.2.3/ldso/dynlink.c:258-277 | that scan finds the lowest symbol with the name and a version that is not negative, or none when there is none |
| `GnuHash.LayoutIs` | app/musl-1.2.3/ldso/dynlink.c:258-289 | where in the table words buckets, chains and filter bits are |
| `GnuHash.GnuLookupFiltered` | app/musl-1.2.3/ldso/dynlink.c:279-289 | equals the same scan: the Bloom filter drops nothing |
| `GnuHash.FilterKeeps` | app/musl-1.2.3/ldso/dynlink.c:279-289 | a name the scan finds always passes the filter |
| `GnuHash.FilterWord` | app/musl-1.2.3/ldso/dynlink.c:279-284 | masking picks the filter word at the remainder by the filter size |
| `SymsList.OnListIff` | app/musl-1.2.3/ldso/dynlink.c:1306-1312 | the test of add_syms tells membership: a library is on the list if and only if it has a successor or is the last |
| `SymsList.Symbols.Add` | app/musl-1.2.3/ldso/dynlink.c:1306-1312 | appends a library unless it is on the list |
| `SymsList.Symbols.Revert` | app/musl-1.2.3/ldso/dynlink.c:1314-1324 | undoes any number of additions: the list up to the old last library is left, all others are unlinked |
| `LazyRelocs.Dso.Defer` | app/musl-1.2.3/ldso/dynlink.c:392-397 | an entry saved into the table it is read from overwrites no entry still to be read, because the write index has not passed the read index |
| `LazyRelocs.Dso.DoRelocs` | app/musl-1.2.3/ldso/dynlink.c:361-427 | stores the values of the resolved entries in order, saves exactly the unresolved PLT and GOT entries in order, also when the table is replayed in place, and stops at the first failure exactly at run time |
| `LazyRelocs.ResolveCases` | app/musl-1.2.3/ldso/dynlink.c:378-409 | the symbol value by cases: none, the library's own at base plus value, the definition found, 0 for a weak undefined one, and missing exactly otherwise |
| `LazyRelocs.StoredAt` | app/musl-1.2.3/ldso/dynlink.c:365-428 | each entry's value plus addend, modulo 2^64, is at base plus offset, or what memory held when its symbol is missing |
| `LazyRelocs.StoredNowhereElse` | app/musl-1.2.3/ldso/dynlink.c:365-428 | and no other address changes |
| `LazyRelocs.LeftCases` | app/musl-1.2.3/ldso/dynlink.c:390-398 | an entry is saved if and only if it is a PLT or GOT entry whose symbol is missing |
| `LazyRelocs.StopsIff` | app/musl-1.2.3/ldso/dynlink.c:390-405 | processing ends early exactly at run time, at the first entry whose symbol is missing and that cannot wait |
| `LazyRelocs.RedoLazyRelocs` | app/musl-1.2.3/ldso/dynlink.c:516-534 | each library keeps exactly its unresolved entries, or no table when none is left, and the new list is the libraries with entries left, in reverse |
| `LazyRelocs.NewListIs` | app/musl-1.2.3/ldso/dynlink.c:516-534 | the new list is the libraries with entries left, the later ones first |
| `LazyRelocs.BackwardsIs` | app/musl-1.2.3/ldso/dynlink.c:516-534 | that is: exactly those, each at one place, at falling places of the old list |
| `LazyRelocs.AllStored` | app/musl-1.2.3/ldso/dynlink.c:516-534 | every entry of every library has stored its value, or nothing when its symbol is missing |
| `LazyRelocs.DeferredFrom` | app/musl-1.2.3/ldso/dynlink.c:390-398 | an entry is left if and only if it is in the table, unresolved and of a kind that may wait |
| `LazyRelocs.DeferredInOrder` | app/musl-1.2.3/ldso/dynlink.c:392-397 | the entries left are in the order they had in the table |
| `LazyRelocs.StoredValues` | app/musl-1.2.3/ldso/dynlink.c:410-428 | each resolved entry stores symbol value plus addend modulo 2^64, an unresolved one nothing |
| `LazyRelocs.Untouched` | app/musl-1.2.3/ldso/dynlink.c:410-428 | no other address changes |
| `LazyRelocs.PassedValues` | app/musl-1.2.3/ldso/dynlink.c:516-534 | after a pass and any number of replays, with any symbols whatever at each, every entry holds the value from the first symbols that resolve it, or what memory held |
| `LazyRelocs.LeftIsMissed` | app/musl-1.2.3/ldso/dynlink.c:516-534 | and the entries left are exactly those that may wait and that none of the symbols resolved, in order |
| `LazyRelocs.LeftIsEagerIff` | app/musl-1.2.3/ldso/dynlink.c:516-534 | these are the entries one eager pass with the last symbols leaves if and only if it leaves none that earlier symbols resolved |
| `LazyRelocs.LazyIsEagerIff` | app/musl-1.2.3/ldso/dynlink.c:2106-2132 | one pass and one replay, with any two symbol lists, give in every memory what one eager pass with the second gives if and only if no entry's key is gone, moved, or there only in the second although the entry could not wait for it |
| `LazyRelocs.WeakDefinedLater` | app/musl-1.2.3/ldso/dynlink.c:390-398 | a weak symbol that only the second list defines: they differ |
| `LazyRelocs.DefinedLocally` | app/musl-1.2.3/ldso/dynlink.c:2106-2132 | a symbol that only the first list defines, as without RTLD_GLOBAL: they differ in memory and in the entries left |
| `LazyRelocs.ReplaysAreEagerIff` | app/musl-1.2.3/ldso/dynlink.c:516-534 | any number of replays with any symbols gives in every memory what one eager pass with the last gives if and only if each entry has its last value from the first symbols that resolve it |
| `LazyRelocs.LoadingIsEagerIff` | app/musl-1.2.3/ldso/dynlink.c:2106-2132 | as dlopen changes the list, which may shrink after the first pass and grows from the first replay on, only the first and the last list matter, by the same keys as in LazyIsEagerIff |
| `Masks.MaskIsRem` | app/musl-1.2.3/ldso/dynlink.c:1169-1175 | masking with a power of two less one is the remainder |
| `Tls.MaxP2IsMax` | app/musl-1.2.3/ldso/dynlink.c:34-34 | MAXP2 of powers of two is the greater one, in wrapping arithmetic |
| `Tls.Layout.LoadLibrary` | app/musl-1.2.3/ldso/dynlink.c:1165-1184 | both variants: the block goes to the least offset beyond all others that is congruent to the image address, negated below the thread pointer, modulo the alignment; all blocks stay disjoint and tls_align is the greatest alignment |
| `Tls.Layout.LoadApp` | app/musl-1.2.3/ldso/dynlink.c:1853-1867 | the same for the program, beyond the gap above the thread pointer |
| `Tls.AddressCongruent` | app/musl-1.2.3/src/env/__init_tls.c:46-68 | with the thread pointer aligned, each block lies at an address congruent to that of its image |
| `Tls.Layout.CopyTls` | app/musl-1.2.3/src/env/__init_tls.c:39-72 | in memory of the size update_tls_size computes, blocks, thread structure and table fit without overlap, the table holds the block addresses, and each is congruent to its image address modulo its alignment |

## Left out

- GranAllocator.Gran.constructor: more than 2^32 granules, or memory at the very end of the address space, where the unsigned arithmetic would wrap once more, are not modelled.
- GranAllocator.Gran.Alloc: requires a size of at most 32 granules, which the source asserts; integer overflow in the shift by log2gran is not modelled.
- GnuHash.GnuLookup: requires h1 to be the hash of the name, as the only callers pass it.
- Mmap.RunKeepsInv: on values; a call is one step that succeeds, with the blocks gran_alloc hands out as part of it; MmapCode ties it to the code over allocator, list and tables. MAP_FIXED addresses and lengths over 32 pages, which the allocator's assertion rejects, are not modelled, nor is the truncation of the heap size to int.
- MmapCode.SysMmapCall: the pages for new tables are taken from the allocator before the tables are built and the unused ones given back, in place of one at a time as pt_alloc does; the two leave the same allocation table. A refused request, which mmap_calloc does not test for, ends the call: it is said which requests were met, not what is half built. The list of areas is a sequence.
- MmapCode.SysBrkCall: the same; from a break inside a page the next growth fails the assertion of pt_map, so it starts at a page boundary, and a break that does not grow is in Mmap.ShrinkingIff and MmapCode.Mm.MoveBrk.
- Mmap.MapBlock: the attribute bits that as_map derives from the protection are a parameter.
- Asid.TlbSafety: runs end before the generation counter wraps; translations fetched speculatively while a kernel task runs are not modelled.
- SchedRuns.RunKeepsInvIff: sched_detach is left out, because its removal from a list is guarded by the ready queue being non-empty and not by membership; the idle task neither blocks nor sleeps; task_state values are left out.
- Scheduler.Scheduler.ScheduleNext: lists are sequences here; SchedRings does schedule on the pointers, with the priority that the bitmap gives, ListHead the single list operations of the other calls. The task_switch at its end is in TaskSwitch.
- Scheduler.Scheduler.PendingCheck: an index walk over a sequence; the walk on pointers is SchedRings.PendingCheck.
- Scheduler.Scheduler.Switch: the same; the walk on pointers is SchedRings.SwitchWalk, without the poisoning of list_del, which list_add_tail overwrites.
- ListHead.Unlink: list_del poisons the pointers of the element, which is not modelled; splice, cut, replace and the hlist operations are left out, nothing in the kernel uses them.
- CtorQueue.Linker.ExtendBfsDeps: allocation succeeds; the path for a failed allocation and ldd mode are left out.
- InitFini.RunKeepsInv: exit is called once; the abort when a fork left the visitor inconsistent, and the legacy init and fini entries beside the arrays, are part of one opaque constructor or finalizer call.
- LazyRelocs.Dso.DoRelocs: relocation types that store symbol value plus addend (SYMBOLIC, GOT, PLT); the other types, REL tables with inline addends and the linker's own skipped relative entries are left out. A lookup is a map from names; reloc targets do not overlap in part.
- LazyRelocs.RedoLazyRelocs: a freed table is a flag, not freed memory.
- Tls.Layout.CopyTls: the copying of images and DTP_OFFSET, which is 0, are left out.
- sysv_lookup, find_sym2, version decoding and dladdr: plain searches that would only add easy members.
- Library files, paths and mapping (map_library, load_library search), FDPIC and MIPS branches: input and output, and other architectures.
- Inline assembly, system registers, caches, traps, interrupt controller and start-up order: hardware effects; installing a table and flushing the TLB are abstract steps.
- Printing and dump functions, string helpers, ELF header checks: easy members.
- Other bitmap operations (weight, and, or, equal): easy members.

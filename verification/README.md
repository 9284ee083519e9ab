# NPUCore: verified models of the kernel's memory, queues, caches and scheduler

NPUCore is a kernel written in Rust for RISC-V and LoongArch. This project models the parts of it
whose correctness spans many calls, and proves what they keep, for all inputs and all interleavings:

- **Paging.** An address space is a vector of areas, each with the frame state of every page
  (in memory, compressed, swapped out, unallocated), and a page table. `MemorySets.MemorySet` is that
  object, with its methods `munmap`, `mprotect`, `mmap` with MAP_FIXED, `do_page_fault`, `do_oom`,
  `force_swap` and the fork, changed in place as the kernel does. `PagingMachine`, `PagingStores` and
  `PagingRuns` are a state machine over any number of address spaces, one reference-counted store of
  frames, zram slots and swap slots, and the files with their page cache; user stores, kernel copies,
  file writes and truncations are among its steps. Each method of the memory set promises that what
  it leaves is a run of that machine (`MemoryRuns`, from `PagingCalls`), so every sequence of calls is
  one. `TranslationWalks` is the translation of user memory over that machine, with the reclaiming
  that its page faults can start.
- **The stores behind paging**: the zram slots, the swap device, the stack allocator and the bitmap
  allocator of physical frames; along every run they hold what the live trackers stand for
  (`DeviceRuns`).
- **The split virtqueue** of sections 2.6.5, 2.6.6 and 2.6.8 of VIRTIO 1.1 with an honest device
  that completes chains in any order, and the console and input drivers on top of it.
- **The fair scheduler**: its fixed-point arithmetic, the window its virtual runtimes stay in, and how
  long a queued task waits, and that tasks share the time by their weights.
- **The caches**: the write-back cache of disk blocks and the page cache's coalesced transfers.
- **Path names and user buffers**: what path normalisation keeps, and that scattered copies to and
  from user memory are slices of the bytes under the frames taken.

How it is built. Operations that change things in place are classes and methods proved against
functions on values; the theorems are lemmas about those functions. A page is 4096 bytes; a page
number is an address divided by it. Frames, zram slots and swap slots are one map from tracker to
(reference count, data): the count is the strong count of the kernel's `Arc`, and dropping the last
handle removes the entry. Compression is an abstract pair with `decompress(compress(p)) == p`. Files
and the page cache are part of the machine; a page that is not read in yet stands for the bytes its
file has now. Frame and slot numbers handed out by allocators, the size of a file at a fault, device
registers and clocks are parameters. Each kernel operation is atomic. The RISC-V configuration is
modelled where the two differ (blocks of 512 bytes), except where a size is a parameter.

Properties that turned out not to hold as one might expect are stated as they are: a lemma with a
concrete input, and a lemma with the exact condition.

- A copy of the kernel to user memory does not look at W. It stores to the frame behind any present
  entry, so after a fork a `read` into a shared page of the parent changes the child's page, and a
  `read` into a read-only file mapping changes the page cache (`PagingRuns.KernelWriteCrosses`,
  `PagingRuns.ForkInput`). It changes nobody else's bytes exactly if the frame has one handle
  (`PagingStores.KernelStoreExact`).
- A page of a file that is mapped private and writable follows writes to the file until it is read in,
  in parent and child alike (`PagingRuns.FileWriteFollows`, `PagingRuns.FileInput`). A write to a file
  changes no page of any space exactly if only page caches hold the frame and no page of the file is
  yet to be read in (`PagingStores.CacheStoreExact`); cutting a file off, exactly if no page of the
  part cut off is (`PagingStores.FileCutExact`).
- Translating a range of user memory can reclaim pages it has already translated: a fault on a later
  page with fewer than three frames free cleans the space first. The copy then goes to a frame that
  may be another page's (`KernelCopies.ReclaimInput`). Every translation of a range gives the frames
  of its pages exactly if no page that a clean may take comes before one whose turn can start a clean
  (`TranslationWalks.TranslationExact`).
- `mmap` with MAP_FIXED over a range that no area overlaps goes on past an `unwrap_unchecked` of an
  error, which is undefined (`MemorySets.MemorySet.MmapFixed`).
- Cutting the lower part of an area leaves the list of reclaimable indices and the file position
  behind (`MapAreas.ShrinkLowerActive`, `MapAreas.ShrinkLowerBreaksActive`, `MapAreas.KeptSlotExact`,
  `MapAreas.KeptBytesExact`, `MapAreas.ShrinkLowerMovesFile`).
- An index past 65535 is cut to 16 bits when it is listed as reclaimable
  (`AreaFaults.FilledActive`, `AreaFaults.BigAreaBreaksActive`).
- A queue longer than 32 entries indexes past the declared rings with the 33rd buffer
  (`SplitRing.LongQueueOverruns`, `SplitRing.RingBound`).
- Removing a zram slot that is not in use breaks the free list (`Zram.RemovedOk`).
- A name that does not exist, followed by "..", disappears from a path unseen
  (`DirectoryPaths.DroppedUnseen`, `DirectoryPaths.RawSucceeds`).
- An empty user array faults if its address is inside a page that is not mapped
  (`UserBuffers.CopyFromUserArray`).
- The search for a free block buffer never ends exactly if every buffer is pinned
  (`BlockCache.AllPinnedStuck`, `BlockCache.OnePinnedStuck`).
- An array copied to user memory reads back exactly if no two of its addresses are one byte of
  physical memory (`UserBuffers.ReadBackExact`, `UserBuffers.TwoMappingsLost`).
- A release build accepts frames that are not in use; the allocators then stay in order exactly if
  the frame was in use (`FrameAllocator.StackFrameAllocator.Dealloc`,
  `BitmapAlloc.BitmapFrameAllocator.DeallocFrame`).
- `munmap` and `mprotect` of no page panic inside an area (`MemorySets.MemorySet.Munmap`,
  `MemorySets.MemorySet.Mprotect`).

Where a comment of the source and its code disagree, the code is followed: the example in the comment
of `parse_dir_path` is not what the code computes, and `read_in` copies up to eight blocks, not two.

Check everything with `dafny verify dfyconfig.toml`.

## Model

| member | source | states |
|---|---|---|
| `PagedMemory.FaultShape` | os/src/mm/memory_set.rs:302-412 | a fault that is served gives the page, in memory, the bytes it stood for before, in place exactly if its frame has one handle; a read-only file page gets the frame of the page cache and the bytes in it |
| `PagingMachine.ReboundInv` | os/src/mm/map_area.rs:49-164 | moving one page of one space to another tracker keeps the invariant of the whole machine: counts equal holders, entries match frames, a writable entry has a sole holder |
| `PagingMachine.ReboundBytes` | os/src/mm/map_area.rs:49-164 | and changes the bytes of no other page of any space |
| `PagingMachine.FaultKeeps` | os/src/mm/memory_set.rs:289-427 | a page fault changes the bytes of no page, its own included, and touches no other space |
| `PagingMachine.MapsWhatItWas` | os/src/mm/memory_set.rs:339-353 | a page that a fault maps from the page cache was in no frame, and the frame it gets holds the bytes it stood for |
| `PagingMachine.EvictKeeps` | os/src/mm/map_area.rs:850-905 | compressing, swapping out or force-swapping a page changes the bytes of no page |
| `PagingMachine.ProtectKeeps` | os/src/mm/memory_set.rs:1055-1068 | a protection change keeps all bytes, and an entry that has W afterwards had it before |
| `PagingMachine.ShareCopies` | os/src/mm/map_area.rs:561-577 | a page shared by fork holds the same bytes in parent and child |
| `PagingMachine.WritableIsSole` | os/src/mm/map_area.rs:635-664 | a writable entry leads to a frame whose only handle is the page it maps |
| `PagingMachine.StoreKeeps` | os/src/mm/memory_set.rs:721-767 | a user store through a writable entry changes one byte of one page of one space |
| `PagingStores.KernelStoreBytes` | os/src/mm/page_table.rs:160-190 | a store by the kernel through any present entry changes one byte of the page of everyone behind the frame, and no page that neither has the frame nor is to be read in from it |
| `PagingStores.KernelStoreExact` | os/src/hal/arch/riscv/sv39.rs:243-247 | it changes no other page and no page cache, for every offset and byte, exactly if the frame has one handle |
| `PagingStores.CacheStoreExact` | os/src/fs/fat32/fat_inode.rs:1120-1133 | a write to a file changes no page of any space, for every offset and byte, exactly if all handles of the cached frame are those of page caches and no page that stands for the file page is yet to be read in |
| `PagingStores.FileCutExact` | os/src/fs/cache.rs:505-521 | cutting a page off a file changes no page of any space, whatever is read there later, exactly if no page that stands for it is yet to be read in |
| `PagingStores.UnreadFollows` | os/src/mm/memory_set.rs:323-338 | a writable page of a file that is not read in yet gets the bytes written to the file after it was mapped |
| `PagingStores.ForkedStoreSeen` | os/src/mm/map_area.rs:561-577 | after a page is shared, a store by the kernel through the parent's entry changes the child's page |
| `PagingStores.RefileExact` | os/src/mm/map_area.rs:714-743 | when the file position of a page moves, the page keeps its bytes for all contents of files exactly if it is in a frame or the position is the same |
| `PagingRuns.StepInv` | os/src/mm/map_area.rs:542-664 | every step of every kind keeps the machine invariant |
| `PagingRuns.StepKeeps` | os/src/mm/map_area.rs:79-164 | every step changes a page's bytes only by a store of its own space to it, unless it reaches the page by way of a shared frame or its file |
| `PagingRuns.AloneSpares` | os/src/mm/page_table.rs:160-190 | a kernel store to a frame with one handle, and a file write to a frame only caches hold or a cut, with no page of the file part yet to be read in, reach no other page that way |
| `PagingRuns.RunInv` | os/src/mm/map_area.rs:542-664 | the invariant holds in every state of every run over any number of spaces |
| `PagingRuns.RunSoleWriter` | os/src/mm/map_area.rs:635-664 | in every state of every run a writable entry points to a frame with exactly one holder |
| `PagingRuns.RunMapped` | os/src/mm/memory_set.rs:302-412 | in every state of every run a page has an entry exactly if its frame is in memory, so `unreachable!` and `unwrap` never fire |
| `PagingRuns.RunCached` | os/src/fs/cache.rs:415-470 | in every state of every run a frame of the page cache is alive and holds the page of the file every reader finds |
| `PagingRuns.PrivateMemory` | os/src/mm/map_area.rs:79-164 | paging is transparent: in every run whose kernel stores, file writes and cuts meet that condition, a page always holds what its own stores put there, whatever faults, evictions, forks, unmaps and stores of others happen |
| `PagingRuns.PrivatePage` | os/src/mm/map_area.rs:79-164 | the same for one page, in every run in which no step reaches that page by way of a shared frame or its file |
| `PagingRuns.ForkIsolation` | os/src/mm/memory_set.rs:721-767 | from the moment of a fork parent and child see the common bytes with their own later stores, never one of the other, in every run whose later steps meet the condition |
| `PagingRuns.KernelWriteCrosses` | os/src/syscall/fs.rs:256-265 | without it they do not: a fork and one store by the kernel for the parent is a run after which the child holds that byte |
| `PagingRuns.ForkInput` | os/src/syscall/fs.rs:256-265 | the same on a machine with one page |
| `PagingRuns.FileWriteFollows` | os/src/fs/fat32/fat_inode.rs:1120-1133 | nor for files: a write to a file in the cache and a fault is a run after which a page holds other bytes though its space stored nothing |
| `PagingRuns.FileInput` | os/src/fs/fat32/fat_inode.rs:1120-1133 | the same on a machine with one page of a file, whose frame only the page cache has |
| `PagingCalls.MunmapRuns` | os/src/mm/memory_set.rs:943-1004 | what `munmap` leaves is a run of the machine that removes the pages and moves the file positions above a cut |
| `PagingCalls.MprotectRuns` | os/src/mm/memory_set.rs:1005-1076 | what `mprotect` leaves is a run of the machine |
| `PagingCalls.InsertRuns` | os/src/mm/memory_set.rs:888-939 | what entering a new area leaves is a run of the machine |
| `PagingCalls.ForkRuns` | os/src/mm/memory_set.rs:721-767 | what the fork leaves, in both spaces and the store, is a run of the machine |
| `PagingCalls.FaultRuns` | os/src/mm/memory_set.rs:289-427 | a fault served on the areas is a step of the machine |
| `PagingCalls.EvictRuns` | os/src/mm/map_area.rs:850-905 | so is moving a page out of memory |
| `MemoryRuns.LeadsTwice` | os/src/mm/memory_set.rs:289-427 | changes of an address space that are runs in every machine holding it compose |
| `MemoryRuns.MunmapLeads` | os/src/mm/memory_set.rs:943-1004 | `munmap` is a run in every machine that holds the space, whatever files hold |
| `MemoryRuns.EvictLeads` | os/src/mm/map_area.rs:850-905 | so is each round of `do_oom` and `force_swap` |
| `MemoryRuns.FaultLeads` | os/src/mm/memory_set.rs:289-427 | so is a fault, in every machine whose file and page cache have what the fault brings in |
| `MemoryRuns.ForkLeads` | os/src/mm/memory_set.rs:721-767 | so is a fork, in both spaces |
| `MemoryRuns.CallsReach` | os/src/mm/memory_set.rs:289-1076 | any sequence of calls by any spaces, with stores, copies and file writes between them, is a run of the machine |
| `MemoryRuns.CallsSafe` | os/src/mm/memory_set.rs:289-1076 | so after any sequence of calls a writable entry leads to a frame with exactly one handle, and a page has an entry exactly if it is in memory |
| `TrustRuns.DidTrusted` | os/src/mm/map_area.rs:683-766 | one call keeps every reclaimable list right unless it cuts off the lower part of an area or faults in an area of more than 65536 pages |
| `TrustRuns.CallsTrusted` | os/src/mm/map_area.rs:850-905 | at any point of any sequence of such calls the reclaimer can be called on any area |
| `TranslationWalks.StepEntry` | os/src/mm/frame_allocator.rs:188-223 | in the turn of one page only its own eviction takes the entry of a page away, which is anonymous, swept and alone in its frame, and only with fewer than three frames free |
| `TranslationWalks.WalkEntry` | os/src/mm/page_table.rs:160-190 | after any number of turns a page translated has the frame taken for it, or no entry if it was reclaimed since |
| `TranslationWalks.WalkExact` | os/src/mm/page_table.rs:160-190 | the frames taken are those of the pages at the end exactly if no page was reclaimed after its turn |
| `TranslationWalks.SafeRight` | os/src/mm/memory_set.rs:1296-1309 | so they are in every translation from a safe start |
| `TranslationWalks.SafeWhenFree` | os/src/mm/frame_allocator.rs:217-223 | a start is safe if every page is there, or three frames are free at the turn of each that is not |
| `TranslationWalks.TranslationExact` | os/src/mm/page_table.rs:160-190 | every translation of a range whose faults are served is right exactly if no page that a clean may take comes before one whose turn can start a clean: a missing page, or one that an earlier clean may take |
| `KernelCopies.WalkHolds` | os/src/mm/frame_allocator.rs:188-223 | a translation changes the bytes of no page of any space, whatever is reclaimed in it |
| `KernelCopies.WalkReaches` | os/src/mm/memory_set.rs:1296-1309 | a translation is a run of the machine |
| `KernelCopies.RightSees` | os/src/mm/page_table.rs:160-190 | the table the pieces are made from is the page table's exactly if the translation is right |
| `KernelCopies.TranslationReads` | os/src/mm/page_table.rs:493-520 | after a translation that is right the pieces show the bytes the pages held when it began |
| `KernelCopies.TranslationWrites` | os/src/mm/page_table.rs:567-594 | and the translation with the stores is a run after which the pages hold what the copy put there |
| `KernelCopies.CopyRuns` | os/src/mm/page_table.rs:567-594 | through a table that is right the stores are a run of the machine, one kernel store a byte, and change nothing but the contents of frames |
| `KernelCopies.StoreStrays` | os/src/mm/page_table.rs:567-594 | a store to a frame that has become another page's leaves the page it was meant for as it was and changes the other |
| `KernelCopies.ReclaimInput` | os/src/mm/page_table.rs:160-190 | two pages translated with no frame free: both pieces are one frame, and a byte stored through the first is found in the second page |
| `MapAreas.IntoTwoKeeps` | os/src/mm/map_area.rs:287-320 | both halves of a split have the frames, permission and file positions of the area; the counters are divided by what each half has, and the reclaimable lists stay right |
| `MapAreas.IntoThreeKeeps` | os/src/mm/map_area.rs:790-848 | the same for three parts; a second cut outside the tail is refused |
| `MapAreas.ActiveSplit` | os/src/mm/map_area.rs:351-371 | the two lists name pages in memory, and an index is listed exactly if the half it falls in lists it |
| `MapAreas.CountParts` | os/src/mm/map_area.rs:337-350 | the counts of the parts add up |
| `MapAreas.RotateDrops` | os/src/mm/map_area.rs:260-275 | rotating and truncating the vector drops the first frames |
| `MapAreas.MunmapSlots` | os/src/mm/memory_set.rs:943-1004 | after `munmap` exactly the pages outside the range remain, each with its frame and permission |
| `MapAreas.KeptSlotExact` | os/src/mm/map_area.rs:714-743 | a page that remains is unchanged, file position included, exactly if no file-backed area lost its lower part |
| `MapAreas.KeptBytesExact` | os/src/mm/map_area.rs:714-743 | it holds what it held, whatever files hold, exactly if it is in a frame or no file-backed area lost its lower part |
| `MapAreas.ShrinkLowerMovesFile` | os/src/mm/map_area.rs:714-743 | a two-page area of a file whose second page then stands for the first page of the file |
| `MapAreas.MunmapWellFormed` | os/src/mm/memory_set.rs:943-1004 | areas stay pairwise disjoint and their counters safe |
| `MapAreas.CutActive` | os/src/mm/map_area.rs:683-766 | unless the lower part goes, what is left of an area names only pages in memory as reclaimable |
| `MapAreas.ShrinkLowerActive` | os/src/mm/map_area.rs:260-275 | after the lower part goes, the list is right exactly if every index kept names a page in memory that many places further up |
| `MapAreas.ShrinkLowerBreaksActive` | os/src/mm/map_area.rs:714-743 | a two-page area for which it is not |
| `MunmapFrames.SumCutPages` | os/src/mm/memory_set.rs:956-993 | the frames given up area by area are those of the pages in the range, each as often |
| `MunmapFrames.MunmapHeld` | os/src/mm/memory_set.rs:943-1004 | every handle is either kept or given up, once |
| `AreaLists.SpliceSlot` | os/src/mm/memory_set.rs:1034-1053 | replacing an area by its pieces in the list changes no page |
| `AreaLists.MunmapTrusted` | os/src/mm/map_area.rs:683-766 | without a lower-part cut every reclaimable list stays right |
| `ProtectAreas.RecutTiles` | os/src/mm/memory_set.rs:1034-1053 | every way `mprotect` splits an area tiles it, with one tile exactly the range |
| `ProtectAreas.ProtectedSlot` | os/src/mm/memory_set.rs:1026-1069 | `mprotect` changes the permission of exactly the pages of the range and nothing else of any page |
| `ProtectAreas.ProtectedOk` | os/src/mm/memory_set.rs:1026-1069 | areas stay disjoint |
| `ProtectAreas.ProtectedTrusted` | os/src/mm/memory_set.rs:1026-1069 | reclaimable lists stay right |
| `ProtectAreas.ProtectTableAt` | os/src/mm/memory_set.rs:1054-1062 | entries in the range get the permission without W, with their frame; no entry comes or goes |
| `AreaFaults.FilledActive` | os/src/mm/map_area.rs:244-250 | listing a page that came in keeps the list right exactly if its index fits 16 bits or happens to name another unlisted page in memory |
| `AreaFaults.BigAreaBreaksActive` | os/src/mm/map_area.rs:244-250 | an area of 65537 pages for which it does not |
| `AreaFaults.ReframedActive` | os/src/mm/map_area.rs:635-664 | the same for the page a copy-on-write moves |
| `AreaFaults.RebindSpace` | os/src/mm/map_area.rs:231-258 | changing one frame of one area changes that page of the space alone |
| `AreaFaults.InsertKeeps` | os/src/mm/memory_set.rs:888-939 | a new area in an unmapped range adds its pages, takes no handle and keeps areas disjoint |
| `CallOutcomes.ProtectedBits` | os/src/mm/memory_set.rs:1005-1069 | the bits of `prot` are the permission of every page of the range and, without W, of every entry there |
| `CallOutcomes.ForkedPages` | os/src/mm/map_area.rs:561-577 | after a fork a shared entry has lost W and nothing else in the parent, the child's has the permission of the area without W, and every other page and entry is as it was |
| `CallOutcomes.FaultRefused` | os/src/mm/memory_set.rs:289-427 | BadAddress exactly if no area with R and U has the page, BeyondEOF exactly if it is not mapped and past the end of its file rounded up, NoPermission exactly if it is mapped and its area lacks W; served otherwise |
| `CallOutcomes.FaultServes` | os/src/mm/memory_set.rs:302-412 | the frame, entry, bytes and counts a served fault leaves, and that no other page or entry changes |
| `CallOutcomes.FilledRelisted` | os/src/mm/map_area.rs:231-258 | a page that comes in is listed as reclaimable and no longer counted as compressed or swapped out |
| `CallOutcomes.OrderKept` | os/src/mm/memory_set.rs:914-936 | a new area keeps the order of the areas past those at the front |
| `CallOutcomes.LastStays` | os/src/mm/memory_set.rs:914-936 | the last area stays last exactly if some area past those at the front starts no lower than the new one |
| `CallOutcomes.LastAfterMunmap` | os/src/mm/memory_set.rs:943-1004 | `munmap` leaves a last area that the range does not reach last |
| `Reclaim.EvictKeepsBytes` | os/src/mm/map_area.rs:79-148 | moving one page out of memory changes the bytes of no page of the space |
| `Reclaim.OomEvict` | os/src/mm/map_area.rs:855-869 | one round of `do_oom` on a page with one handle keeps bytes, handles outside and the rest of the list |
| `Reclaim.OomSkip` | os/src/mm/map_area.rs:855-879 | one round on a shared page only unlists it |
| `Reclaim.EvictedSlack` | os/src/mm/map_area.rs:850-905 | the counters of compressed and swapped-out pages move with the frames they count |
| `ForkSteps.ForkedStep` | os/src/mm/map_area.rs:561-577 | sharing one more area takes W from its entries and gives the child entries without W |
| `ForkSteps.ForkHandles` | os/src/mm/memory_set.rs:729-741 | after a fork every handle is one of the parent, one of the child or one of those outside, which are as many as before |
| `ForkSteps.ForkBytes` | os/src/mm/memory_set.rs:721-767 | parent and child find the same bytes in every page they share |
| `MunmapSteps.OthersUntouched` | os/src/mm/memory_set.rs:956-1000 | if one area must split, no other is touched, so none is deleted and the saved index is right |
| `MunmapSteps.TrimWays` | os/src/mm/memory_set.rs:962-987 | whole, lower and upper cuts leave what the cut on values leaves |
| `MunmapSteps.KeptIsMunmap` | os/src/mm/memory_set.rs:991-993 | deleting the listed areas, last first, leaves the areas of the specification |
| `MunmapSteps.SplitOut` | os/src/mm/memory_set.rs:994-1000 | so does splitting one area and unmapping its middle |
| `MunmapSteps.MunmapKeeps` | os/src/mm/memory_set.rs:943-1004 | the space stays valid and handles outside it stay as many, whatever shares its frames |
| `MemorySets.MemorySet.Munmap` | os/src/mm/memory_set.rs:943-1004 | every outcome, zero length, panics and ranges that only touch an area included; areas, table and every reference count afterwards; the space stays valid; a run in every machine; reclaimable lists stay right unless a lower part goes |
| `MemorySets.MemorySet.Pass` | os/src/mm/memory_set.rs:956-990 | the pass over the areas: what it cut, what is left to delete, and that a split excludes both |
| `MemorySets.MemorySet.Mprotect` | os/src/mm/memory_set.rs:1005-1076 | each error and each panic exactly when it is due; otherwise every page of the range has R, W and X as bits 0, 1 and 2 of `prot` say, with U, every entry there has them without W, and no other page or entry changes; a run in every machine; reclaimable lists stay right |
| `MemorySets.MemorySet.MmapFixed` | os/src/mm/memory_set.rs:846-942 | the range holds a new area with the permission and the file positions asked for, at its place in the order of the list, and everything else is as after `munmap`; an area that was last and is clear of the range stays last if some area past those at the front of the list starts no lower; a refused file leaves the range unmapped; the call is defined exactly if some area overlaps the range; a run in every machine; reclaimable lists stay right unless a lower part goes |
| `MemorySets.MemorySet.PageFault` | os/src/mm/memory_set.rs:289-427 | each error exactly when it is due, over areas, table, file size and permissions; otherwise the page is mapped with all permissions of its area, in which frame and with which bytes, it is listed as reclaimable, and nothing else changes; no handle outside is lost, and it is a run in every machine whose file and page cache have what it brings in |
| `MemorySets.MemorySet.CopyOnWrite` | os/src/mm/map_area.rs:635-664 | a frame with one handle is made writable, a shared one is copied |
| `MemorySets.MemorySet.DoOom` | os/src/mm/map_area.rs:850-883 | listed pages leave memory exactly if their frame has one handle; all bytes, all other trackers and all other entries stay; the count returned; the counters of the area move with its frames; `unreachable!` is not reached; a run in every machine |
| `MemorySets.MemorySet.ForceSwap` | os/src/mm/map_area.rs:884-905 | all listed pages are swapped out, all bytes and other entries stay, trackers shared with others live on with their data; a run in every machine |
| `MemorySets.MemorySet.Fork` | os/src/mm/memory_set.rs:721-767 | both spaces afterwards; an entry of a shared page loses W alone in the parent and has the permission of the area without W in the child; the trap context of its own; the store, handles and bytes; a run in every machine |
| `Zram.NextIdFree` | os/src/mm/zram.rs:54-73 | `insert` finds a slot exactly if one is not in use, and never one in use |
| `Zram.InsertedKeeps` | os/src/mm/zram.rs:54-73 | inserting adds one id to the contents and keeps the free list in order |
| `Zram.RemovedKeeps` | os/src/mm/zram.rs:86-103 | removing an id in use takes exactly it away |
| `Zram.RemovedOk` | os/src/mm/zram.rs:86-103 | removing keeps the device in order exactly if the id is in use |
| `Zram.Device.Insert` | os/src/mm/zram.rs:54-73 | the method, with NoSpace exactly if all slots are in use |
| `Zram.Device.Get` | os/src/mm/zram.rs:75-84 | the data under an id, or which error |
| `Zram.Device.Remove` | os/src/mm/zram.rs:86-103 | the method on ids in use, not in use and out of range |
| `Zram.Device.Read` | os/src/mm/zram.rs:105-118 | a page written comes back as long as its id is in use |
| `Swap.GroupsApart` | os/src/fs/swap.rs:65-67 | the blocks of different pages do not meet |
| `Swap.WriteStored` | os/src/fs/swap.rs:71-79 | writing a page changes no other page stored |
| `Swap.Device.AllocPage` | os/src/fs/swap.rs:55-64 | the lowest free id, none exactly if all are taken |
| `Swap.Device.Write` | os/src/fs/swap.rs:71-79 | the contents gain one page under an id not in use |
| `Swap.Device.Read` | os/src/fs/swap.rs:68-70 | reading gives what was written |
| `Swap.Device.Discard` | os/src/fs/swap.rs:81-83 | exactly one id is freed |
| `FrameAllocator.StackFrameAllocator.Alloc` | os/src/mm/frame_allocator.rs:116-135 | a frame not in use, none exactly if all are |
| `FrameAllocator.StackFrameAllocator.Dealloc` | os/src/mm/frame_allocator.rs:151-163 | when it panics in a debug and a release build; otherwise the allocator stays in order exactly if the frame was in use, and then exactly that frame is free again |
| `FrameAllocator.StackFrameAllocator.UnallocatedFrames` | os/src/mm/frame_allocator.rs:101-103 | free and used frames make up the range |
| `TrackerStores.ZramWrite` | os/src/mm/map_area.rs:128-148 | a zram tracker made by paging is for a slot no other tracker has, and store and device agree afterwards |
| `TrackerStores.ZramDrop` | os/src/mm/zram.rs:21-26 | dropping trackers frees a slot with the last handle only, and then the slot is in use, so the device stays in order |
| `TrackerStores.SwapWrite` | os/src/mm/map_area.rs:79-97 | the same for swap trackers |
| `TrackerStores.SwapDrop` | os/src/fs/swap.rs:16-20 | and their drops |
| `TrackerStores.FrameAlloc` | os/src/mm/map_area.rs:526-536 | a frame from the allocator is behind no live tracker |
| `TrackerStores.FrameDrop` | os/src/mm/frame_allocator.rs:64-68 | a frame is given back with its last handle, and then it is in use |
| `DeviceRuns.TakeAgrees` | os/src/mm/map_area.rs:79-148 | what a device offers no live tracker has, and a tracker for it keeps store and devices in agreement |
| `DeviceRuns.DropAgrees` | os/src/mm/frame_allocator.rs:64-68 | a dropped tracker frees only what is in use, with the last handle, and keeps the agreement |
| `DeviceRuns.StepAgrees` | os/src/mm/map_area.rs:79-164 | every step of the paging machine whose new trackers are what the devices offer keeps it |
| `DeviceRuns.RunAgrees` | os/src/mm/map_area.rs:79-164 | in every state of every such run the live trackers are exactly what frame allocator, zram and swap device hold, with their data |
| `Bitmaps.FullBits` | os/src/mm/bitmap_alloc.rs:138-144 | a word is all ones exactly if all its frames are taken |
| `BitmapAlloc.BitmapFrameAllocator.Init` | os/src/mm/bitmap_alloc.rs:61-83 | no frame taken, padding bits set |
| `BitmapAlloc.BitmapFrameAllocator.FindFree` | os/src/mm/bitmap_alloc.rs:124-159 | the search from the hint around the end misses no free frame and ignores padding |
| `BitmapAlloc.BitmapFrameAllocator.AllocFrame` | os/src/mm/bitmap_alloc.rs:124-160 | fails exactly if every frame is taken; otherwise exactly one more is |
| `BitmapAlloc.BitmapFrameAllocator.FindRun` | os/src/mm/bitmap_alloc.rs:177-209 | the lowest run of free frames, or that there is none |
| `BitmapAlloc.BitmapFrameAllocator.AllocContiguous` | os/src/mm/bitmap_alloc.rs:169-210 | takes exactly the lowest run, or changes nothing |
| `BitmapAlloc.BitmapFrameAllocator.DeallocFrame` | os/src/mm/bitmap_alloc.rs:218-240 | when it panics in a debug and a release build; otherwise that frame is free, and the counter is right exactly if it was taken |
| `BitmapAlloc.BitmapFrameAllocator.IsAllocated` | os/src/mm/bitmap_alloc.rs:244-252 | membership in the set of taken frames |
| `BitmapAlloc.BitmapFrameAllocator.AllocatedFrames` | os/src/mm/bitmap_alloc.rs:93-95 | the counter is the size of the set |
| `SplitRing.NextInv` | dependency/virtio-drivers/src/queue.rs:79-172 | every step of driver or device keeps the invariant of descriptors, rings and indices |
| `SplitRing.RunInv` | dependency/virtio-drivers/src/queue.rs:79-172 | it holds in every state of every run |
| `SplitRing.RunPartition` | dependency/virtio-drivers/src/queue.rs:79-152 | at any time the descriptors partition into the free list read from `free_head`, as long as the free count says, and the chains of the outstanding tokens, each found by following NEXT to a last descriptor without it; none repeats a descriptor, and the lengths add up |
| `SplitRing.RunIndices` | dependency/virtio-drivers/src/queue.rs:113-172 | the 16-bit indices are the true counts; their difference is the number of outstanding chains, at most the size; comparing them is exact |
| `SplitRing.RunKeepsEntries` | dependency/virtio-drivers/src/queue.rs:113-121 | no ring entry is overwritten before its reader consumed it |
| `SplitRing.AddLends` | dependency/virtio-drivers/src/queue.rs:87-112 | what following NEXT from a new token finds is what `add` was given, inputs first and read-only |
| `SplitRing.ChainStays` | dependency/virtio-drivers/src/queue.rs:79-172 | no step touches a descriptor of a chain that stays outstanding |
| `SplitRing.RunLends` | dependency/virtio-drivers/src/queue.rs:79-172 | in every state of every run each outstanding token was made by some `add`, and what the device finds behind it is what that `add` was given |
| `SplitRing.RingBound` | dependency/virtio-drivers/src/queue.rs:232-254 | in every run of adds and pops the entry an add writes is one of the declared ones exactly for sizes up to 32 |
| `SplitRing.LongQueueOverruns` | dependency/virtio-drivers/src/queue.rs:79-123 | a longer queue after 32 buffers added one by one: the 33rd can be added and its entry is past the ring |
| `SplitRing.StepMovesDriver` | dependency/virtio-drivers/src/queue.rs:79-172 | the counters of those runs are those of the queue |
| `SplitRing.AddMovesDriver` | dependency/virtio-drivers/src/queue.rs:113-116 | and the entry is the one `add` writes |
| `SplitRing.AddInv` | dependency/virtio-drivers/src/queue.rs:79-123 | adding a chain keeps the invariant |
| `SplitRing.PopInv` | dependency/virtio-drivers/src/queue.rs:138-172 | so does recycling one |
| `VirtQueues.VirtQueue.Create` | dependency/virtio-drivers/src/queue.rs:39-74 | errors exactly when due, and the state of a new queue, which is in order exactly for sizes up to 32 |
| `VirtQueues.VirtQueue.Add` | dependency/virtio-drivers/src/queue.rs:79-123 | errors exactly when due; otherwise following NEXT from the token passes the buffers in order, inputs first, each with its address and length, writable for the device exactly if it is an output; the rest is the state of the specification; the undefined link is not followed |
| `VirtQueues.VirtQueue.RecycleDescriptors` | dependency/virtio-drivers/src/queue.rs:138-152 | ends, and puts exactly the chain in front of the free list |
| `VirtQueues.VirtQueue.PopUsed` | dependency/virtio-drivers/src/queue.rs:157-172 | the oldest completion, NotReady exactly if there is none |
| `VirtQueues.UsedExact` | dependency/virtio-drivers/src/queue.rs:126-128 | `can_pop` is exact across wrap-around |
| `VirtQueues.PopReads` | dependency/virtio-drivers/src/queue.rs:157-172 | what a pop returns is the entry of the used ring that the masked index names |
| `VirtioConsole.Console.PollRetrieve` | dependency/virtio-drivers/src/console.rs:51-54 | giving the buffer back does not fail, and lends all of it for the device to write |
| `VirtioConsole.Console.AckInterrupt` | dependency/virtio-drivers/src/console.rs:56-70 | at most one completion waits, so both assertions hold |
| `VirtioConsole.Console.Recv` | dependency/virtio-drivers/src/console.rs:73-85 | popped bytes are the delivered stream in order |
| `VirtioInput.Requeue` | dependency/virtio-drivers/src/input.rs:54-63 | for every completion order, adding after a pop returns the token just popped and lends every slot again |
| `VirtioInput.InputDriver.LendAll` | dependency/virtio-drivers/src/input.rs:33-36 | token `i` is slot `i`: eight bytes at its place, for the device to write |
| `VirtioInput.InputDriver.PopPendingEvent` | dependency/virtio-drivers/src/input.rs:54-63 | the events come out in the order the device published them, and adding never fails |
| `BlockCache.SweepKeeps` | os/src/fs/cache.rs:108-126 | sweeping a buffer changes no block's content and keeps the cache coherent |
| `BlockCache.LoadKeeps` | os/src/fs/cache.rs:172-190 | loading a block into an unused buffer changes no content |
| `BlockCache.ModifyKeeps` | os/src/fs/cache.rs:70-81 | changing a cached block changes that block alone |
| `BlockCache.AllPinnedStuck` | os/src/fs/cache.rs:127-137 | no buffer is unused after any number of sweeps exactly if every buffer is pinned |
| `BlockCache.OnePinnedStuck` | os/src/fs/cache.rs:127-137 | a pool of one buffer for which that is so |
| `BlockCache.Manager.Oom` | os/src/fs/cache.rs:108-126 | what becomes of each buffer: pinned ones stay, others lose priority or are released; the flat disk unchanged |
| `BlockCache.Manager.AllocBuffer` | os/src/fs/cache.rs:127-137 | ends within two sweeps if some buffer is unpinned; pinned handles keep their block |
| `BlockCache.Manager.TryGet` | os/src/fs/cache.rs:159-170 | finds the buffer exactly if the block is cached |
| `BlockCache.Manager.Get` | os/src/fs/cache.rs:172-190 | the handle shows the block's content; no block changes; other handles keep theirs |
| `BlockCache.Manager.Modify` | os/src/fs/cache.rs:70-81 | writing through a handle is writing the flat disk |
| `PageCache.RunIsEach` | os/src/fs/cache.rs:341-378 | writing a run of consecutive blocks at once is writing them in order |
| `PageCache.WriteEachIs` | os/src/fs/cache.rs:341-378 | every block after writing a list in order: the last of what was written to it, else what it held |
| `PageCache.Page.ReadIn` | os/src/fs/cache.rs:266-324 | block `k` of the page is the `k`th block listed, and the rest are zeros |
| `PageCache.Page.WriteBack` | os/src/fs/cache.rs:341-378 | each block listed holds the last of what the list puts there, and no other block changes |
| `PageCache.ReadWriteBack` | os/src/fs/cache.rs:266-378 | reading in and writing back leaves the disk unchanged |
| `PageCache.WriteReadIn` | os/src/fs/cache.rs:266-378 | writing back and reading in gives the page back exactly if blocks listed twice had the same content |
| `CfsRuntime.Inverse` | os/src/task/cfs_scheduler.rs:79-108 | each inverse weight is 2^32 divided by the weight, up to less than one |
| `CfsRuntime.TablesOrdered` | os/src/task/cfs_scheduler.rs:79-108 | both tables are strictly ordered |
| `CfsRuntime.GainAtLeast` | os/src/task/cfs_scheduler.rs:253-262 | a turn of the minimum granularity gains at least 8652, even at nice -20 |
| `CfsRuntime.GainAtMost` | os/src/task/cfs_scheduler.rs:253-262 | what a turn of bounded length can gain |
| `CfsRuntime.GainOrdered` | os/src/task/cfs_scheduler.rs:253-262 | for the same time a nicer task never gains less |
| `CfsRuntime.GainAccurate` | os/src/task/cfs_scheduler.rs:251-262 | the gain is runtime times 1024 divided by weight, up to one and the rounding of the table |
| `CfsQueue.TurnGain` | os/src/task/cfs_scheduler.rs:264-274 | the bounds of what one turn adds to the virtual runtime |
| `CfsQueue.RuntimeCharged` | os/src/task/cfs_scheduler.rs:264-274 | a task scheduled in is charged and its turn starts anew, at nice 0 for the very time it ran, for none if the clock went back; one that was not is left alone |
| `CfsQueue.ChargedByWeight` | os/src/task/cfs_scheduler.rs:264-274 | the charge is the time it ran times 1024 divided by the weight of its nice value, up to one and the rounding of the table |
| `CfsQueue.NicerChargedMore` | os/src/task/cfs_scheduler.rs:264-274 | of two tasks charged for the same time the nicer one is not charged less |
| `CfsQueue.CfsRunQueue.Enqueue` | os/src/task/cfs_scheduler.rs:362-388 | a task is put at its own virtual runtime or at the minimum, a new one half a latency past it, whichever is more, and that the counter stays right exactly if the key is new |
| `CfsQueue.CfsRunQueue.Dequeue` | os/src/task/cfs_scheduler.rs:391-401 | exactly one key goes, if it is there, with its weight; otherwise nothing changes |
| `CfsQueue.CfsRunQueue.PickNext` | os/src/task/cfs_scheduler.rs:404-413 | the least key leaves, the minimum rises to it, and the total weight falls by the fixed weight |
| `CfsFairness.KeysStep` | os/src/task/cfs_scheduler.rs:377-413 | entering and leaving the queue of a run is entering and leaving the tree of the run queue |
| `CfsFairness.StepInside` | os/src/task/cfs_scheduler.rs:362-413 | every step keeps all virtual runtimes in the window and the minimum from falling |
| `CfsFairness.RunInside` | os/src/task/cfs_scheduler.rs:362-413 | so does every run |
| `CfsFairness.MinRises` | os/src/task/cfs_scheduler.rs:404-413 | the minimum never decreases |
| `CfsFairness.QueuedApart` | os/src/task/cfs_scheduler.rs:362-413 | any two queued tasks differ by at most the window |
| `CfsFairness.PicksRise` | os/src/task/cfs_scheduler.rs:404-413 | successive picks never go backwards |
| `CfsFairness.TurnIsSteps` | os/src/task/cfs_scheduler.rs:377-413 | a turn is pick, gain and enqueue |
| `CfsFairness.WaitStep` | os/src/task/cfs_scheduler.rs:377-413 | a turn of another task lowers the waiting measure |
| `CfsFairness.BoundedWaiting` | os/src/task/cfs_scheduler.rs:377-413 | a queued task is picked within N * (window / d + 1) turns |
| `CfsFairness.NoStarvation` | os/src/task/cfs_scheduler.rs:377-413 | and again within that many from any moment on |
| `CfsFairness.ReachableWithin` | os/src/task/cfs_scheduler.rs:362-413 | in every reachable state of the scheduler the queued tasks are within its window |
| `CfsFairness.TimedGainBounds` | os/src/task/cfs_scheduler.rs:253-274 | a turn of at least the minimum granularity and at most a limit gains within the bounds, whatever the nice value |
| `CfsFairness.TurnsExtend` | os/src/task/cfs_scheduler.rs:377-413 | a sequence of turns continues a run of the scheduler, three steps a turn |
| `CfsFairness.FairByClock` | os/src/task/cfs_scheduler.rs:253-413 | from any reachable state on, with turns given by nice values and clock readings alone, every queued task has a turn among any N * (W / d + 1) in a row, and they are a run of the scheduler |
| `CfsFairness.GainIsShare` | os/src/task/cfs_scheduler.rs:251-274 | over any number of turns by the clock the virtual runtime a task gains is the time it ran, by weight |
| `CfsFairness.WeightedFairness` | os/src/task/cfs_scheduler.rs:251-413 | from any reachable state on, over any number of turns, time over weight of a task exceeds that of any other queued task by at most two windows, one for each of its turns, and the rounding of the table |
| `CfsFairness.PicksLeftStep` | os/src/task/cfs_scheduler.rs:362-413 | in any run each pick of another task uses up one of the picks it has left before a waiting task, and no step gives it any |
| `CfsFairness.WaitBoundedByPicks` | os/src/task/cfs_scheduler.rs:362-413 | in any stretch of a run, with any number of tasks off the queue at once, a task that waits all through sees at most (N - 1) * (W / d + 1) picks, if no task is made and each that is picked gains at least d before it is queued again |
| `DirectoryPaths.NormalizeNormal` | os/src/fs/directory_tree.rs:189-207 | the result is some ".." followed by plain names |
| `DirectoryPaths.Idempotent` | os/src/fs/directory_tree.rs:189-207 | normalising twice is normalising once |
| `DirectoryPaths.ParseAgain` | os/src/fs/directory_tree.rs:189-207 | writing the components out and parsing again gives them back |
| `DirectoryPaths.SplitExact` | os/src/fs/directory_tree.rs:189-190 | the components are exactly the parts between the slashes |
| `DirectoryPaths.Meaning` | os/src/fs/directory_tree.rs:189-293 | if the literal walk of a path succeeds, its normal form leads to the same node (section 4.13 of POSIX.1-2017 XBD) |
| `DirectoryPaths.DroppedUnseen` | os/src/fs/directory_tree.rs:189-207 | the converse fails |
| `DirectoryPaths.RawSucceeds` | os/src/fs/directory_tree.rs:189-293 | the literal walk succeeds exactly if the normal form of every prefix does |
| `DirectoryPaths.SameWalk` | os/src/fs/directory_tree.rs:189-293 | if no name is taken back the two walks agree, errors included |
| `DirectoryPaths.RootUps` | os/src/fs/directory_tree.rs:256-293 | at the root leading ".." have no effect |
| `DirectoryPaths.StuckIs` | os/src/fs/directory_tree.rs:236-282 | each error exactly when it is due |
| `DirectoryPaths.CdComp` | os/src/fs/directory_tree.rs:256-282 | where the components lead, step by step; ENOTDIR exactly if a name follows a node that is no directory, ENOENT exactly if a directory lacks the name |
| `DirectoryPaths.CdPath` | os/src/fs/directory_tree.rs:285-293 | a path that can be walked literally leads where it says |
| `UserBuffers.TranslatedByteBuffer` | os/src/mm/page_table.rs:160-190 | the pieces lie one after the other over the range, each in the frame its page had at its turn; a fault exactly if a page is in no area that serves it |
| `UserBuffers.CoverFlat` | os/src/mm/page_table.rs:160-190 | the pieces concatenate to exactly the bytes under the frames taken |
| `UserBuffers.UserBuffer.ReadAt` | os/src/mm/page_table.rs:316-347 | a slice of the flat content |
| `UserBuffers.UserBuffer.WriteAt` | os/src/mm/page_table.rs:348-379 | every byte of memory afterwards: what the pieces put there last, else what it held; a slice of the flat content is overwritten if no two pieces overlap |
| `UserBuffers.UserBuffer.Read` | os/src/mm/page_table.rs:284-298 | reading from the start |
| `UserBuffers.UserBuffer.Write` | os/src/mm/page_table.rs:300-314 | the same from the start |
| `UserBuffers.WrittenFlat` | os/src/mm/page_table.rs:348-379 | scattering over disjoint pieces is the slice operation |
| `UserBuffers.CoverDisjoint` | os/src/mm/page_table.rs:160-190 | pieces are disjoint exactly if no two addresses of the range are one byte of physical memory |
| `UserBuffers.CopyFromUserArray` | os/src/mm/page_table.rs:493-520 | the direct path and the path over pieces both give the bytes under the frames taken; when each fails |
| `UserBuffers.CopyToUserArray` | os/src/mm/page_table.rs:567-594 | when it fails; otherwise both paths store the bytes one by one from the address on, whatever else is mapped to the frames |
| `UserBuffers.PokedVirtual` | os/src/mm/page_table.rs:567-594 | what every virtual address reads afterwards: the last byte stored to its place by any address of the range, aliases included, else what it read before |
| `UserBuffers.ReadBackExact` | os/src/mm/page_table.rs:567-594 | the range reads back what was copied, for all data, exactly if no two of its addresses are one byte of physical memory |
| `UserBuffers.TwoMappingsLost` | os/src/mm/page_table.rs:567-594 | two pages of one frame for which that is not so |

## Left out

- Non-fixed `mmap` placement, `sbrk`, ELF loading, stack tables, kernel-space areas, `recycle_data_pages`: configuration constants, foreign parsers or easy members.
- MemorySets.MemorySet.Munmap: the kernel drops frames in memory and other trackers at different moments of the call; the counts do not depend on it. A panic leaves the model unchanged; the kernel stops in the middle of the split.
- MemorySets.MemorySet.DoOom: requires a reclaimable list that names pages in memory, as `TrustRuns.CallsTrusted` provides.
- MemorySets.MemorySet.Fork: requires the last area to be the one page of the trap context, in memory; the bytes put there are a parameter, and the trampoline pages are not part of the model.
- MemorySets.MemorySet.PageFault: takes the frame an allocator hands out as a parameter. Without a free frame the kernel reclaims and tries again; the reclaiming is other steps of the machine before the fault, and only if it frees nothing the kernel panics.
- PagingRuns.RunCached: what the page cache holds past the end of a file counts as bytes of the file.
- TranslationWalks.TranslationExact: how many frames are free at each turn and which pages of the space a clean goes over are parameters; a translation that meets a page no area serves ends with EFAULT, and says nothing about its pieces. What happens to a buffer kept while the process sleeps is any further run of the machine.
- CfsFairness.WaitBoundedByPicks: no task is made in the stretch; a task made while others wait adds its own picks.
- `PageCacheManager`: its write-back depends on a hardware dirty bit.
- Cross-CPU stealing, the real-time and idle queues.
- 64-bit wrap-around of virtual runtimes; the product in `calc_delta_vruntime` is cut to 64 bits, and the gain lemmas say when it fits.
- VirtioConsole.Console.AckInterrupt: relies on the device reporting 1 to 4096 bytes, as `DeviceDeliver` does.
- BlockCache.Manager.Get: requires a buffer without outside handles or the block already cached, without which the kernel loops.
- `rename`, the path cache and `get_cwd`; the lazy reading of directories: the model has the whole tree.
- `FdTable`, pids, time arithmetic, errno tables, sockets, GPU and network drivers, user programs: easy members, I/O or foreign calls.
- TLB flushes, fences, locks and re-entrant drops: each operation is atomic.

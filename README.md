# Dynamic Memory Management Visualizer — a verified model of the simulators

The Dynamic Memory Management Visualizer is a teaching tool for operating-system
memory management. Behind its user interface sit three independent simulators,
and this project models them in Dafny:

- **Paging** (`Paging`, with `Physical`, `Allocator` and `PageTables`).
  - Physical memory is a fixed row of frames. Each frame is FREE or ALLOCATED
    to one (process, page).
  - An allocator picks frames by first fit, best fit or next fit.
  - Each process has a page table whose entries carry the frame number and the
    present, modified and referenced bits.
  - `PagingSimulator` ties these together. It creates and removes processes,
    allocates and frees pages, translates logical addresses and touches pages.
- **Segmentation** (`Segmentation`).
  - Each process has a table of segments `(base, limit)`.
  - Translation is bounds-checked.
  - A placement cursor starts at 0x1000. Each automatically placed segment
    moves it on by the segment's size plus a 0x100 gap.
  - External fragmentation is the sum of the gaps between segments sorted by
    base.
- **Virtual memory** (`VirtualMemory`, with `Replacement`).
  - A backing store holds every page of every loaded process.
  - A replacement engine (FIFO, LRU or Optimal) decides which page sits in
    which frame slot.
  - The manager counts swap-ins and swap-outs.

Shared pieces:

- `AddressTranslation` holds the stateless address arithmetic.
- `Validators` holds the input checks of the front end.
- `Common` holds `Option` and Python's floor division and modulo.

## How the model is organized

- **Classes.** Every object that the Python code updates in place is a Dafny
  `class`, with `modifies` clauses on its methods:
  - `PhysicalMemory`, `MemoryAllocator` and `PagingSimulator`;
  - `ReplacementEngine`;
  - `BackingStore` and `VirtualMemoryManager`;
  - `SegmentationEngine`.
- **Arrays and loops.** The frame row is an `array<Frame>`. The allocation
  scans and the release loops are `while`/`for` loops, each with invariants.
  Each one is proved equal to a pure function of the old state
  (`FirstFitIn`, `BestFitUpTo`, `NextFitFrom`, `ReleaseProcess`,
  `OptimalVictim`, `Seeded`, `WithoutPages`).
- **Properties on pure functions.** The properties are proved about those pure
  functions:
  - the frames and the page tables describe the same mapping from both ends
    (`Paging.SimInv`);
  - no frame is shared;
  - the optimal victim is the farthest next use;
  - FIFO and LRU keep their lists in step with the slots;
  - no page is resident twice;
  - automatically placed segments are disjoint and leave exactly 0x100 bytes
    between neighbours.

Python's `//` and `%` floor toward negative infinity. They are modelled
explicitly (`Common.FloorDiv`, `Common.FloorMod`) and are never Dafny's
Euclidean operators.

### Where the behaviour follows the code

- **Stale list head.** Removing a virtual-memory process empties that process's
  slots but leaves its pages in the FIFO queue or LRU list. On a later fault
  with every slot full, the code pops the head of the list once. If no slot
  holds that page, the new page is not placed at all: the fault is counted and
  no frame index is reported. There is no retry with the next head.
  `Replacement.Evict` models exactly this.
- **Swap-in on that path.** `VirtualMemoryManager.AccessPage` still counts a
  swap-in on that path, as the code does.
- **LRU hit.** An LRU hit removes the page from the list if it is there, and
  then appends it in every case.
- **Optimal fallback.** When every resident page is used again, Optimal evicts
  the one used farthest away; ties keep the earliest slot. A page that is never
  used again ends the search at once.

## Model

| member | source | states |
|---|---|---|
| Common.FloorMod | module2_segmentation_virtual_memory/address_translation.py:84 | Python's remainder: in [0, b) for a positive divisor and in (b, 0] for a negative one |
| Common.FloorDivMod | module2_segmentation_virtual_memory/address_translation.py:83-84 | quotient times divisor plus remainder gives the dividend back, whatever the signs |
| Common.FloorDivModUnique | module2_segmentation_virtual_memory/address_translation.py:83-84 | for a positive divisor, the floor quotient and remainder are the only pair with an in-range remainder that recombines to the dividend |
| Physical.NewFrame | module1_paging_engine/physical_memory.py:19-32 | a new frame is free, has no owner, and keeps its id and size |
| Physical.Frame.Allocate | module1_paging_engine/physical_memory.py:34-52 | succeeds exactly when the frame is free and the request fits; then the frame is owned by (process, page) with that allocated size; otherwise it is unchanged; the frame invariant is kept |
| Physical.Frame.Deallocate | module1_paging_engine/physical_memory.py:54-67 | reports true exactly when the frame was allocated, and then returns it to the new-frame state; otherwise the frame is unchanged |
| Physical.AllocateThenDeallocate | module1_paging_engine/physical_memory.py:34-67 | releasing a frame that was just allocated gives back the original free frame |
| Physical.WithStatus | module1_paging_engine/physical_memory.py:106-122 | the free (or allocated) frame list holds exactly the frames of that status |
| Physical.FreeAndAllocatedPartition | module1_paging_engine/physical_memory.py:124-144 | free and allocated frames together number all the frames |
| Physical.PhysicalMemory.constructor | module1_paging_engine/physical_memory.py:77-90 | one new frame per index, sized frame_size; no frames for a negative count |
| Physical.PhysicalMemory.GetFrame | module1_paging_engine/physical_memory.py:92-104 | the frame for an in-range id, and None exactly for an id out of range |
| Physical.PhysicalMemory.GetFreeFrames | module1_paging_engine/physical_memory.py:106-113 | exactly the frames of the pool that are FREE, no more of them than the pool holds |
| Physical.PhysicalMemory.GetAllocatedFrames | module1_paging_engine/physical_memory.py:115-122 | exactly the frames of the pool that are ALLOCATED, no more of them than the pool holds |
| Physical.PhysicalMemory.GetFrameStatus | module1_paging_engine/physical_memory.py:124-144 | free plus allocated equals total, and the free size is the free count times the frame size |
| Physical.PhysicalMemory.Reset | module1_paging_engine/physical_memory.py:165-168 | every frame goes back to its new, free state |
| Allocator.FirstFitIn | module1_paging_engine/allocator.py:77-81 | the lowest index whose frame fits the request; None exactly when no frame in range fits |
| Allocator.BestFitUpTo | module1_paging_engine/allocator.py:103-114 | a fitting frame of least waste, the earliest among equal waste; None exactly when none fits |
| Allocator.NextFitFrom | module1_paging_engine/allocator.py:116-151 | the frame next fit returns fits the request, and next fit fails exactly when no frame of the row fits |
| Allocator.NextFitIsFirstInRotation | module1_paging_engine/allocator.py:136-151 | next fit returns the first fitting frame in the order that starts at the cursor and wraps around |
| Allocator.ChoiceSucceedsIffSomeFrameFits | module1_paging_engine/allocator.py:50-56 | every strategy finds a frame exactly when some frame is free and large enough, and the frame it returns fits |
| Allocator.AllocatedAtChangesOnlyChoice | module1_paging_engine/allocator.py:77-81 | allocation changes only the chosen frame, which becomes owned by the requester |
| Allocator.MemoryAllocator.constructor | module1_paging_engine/allocator.py:21-29 | the given strategy, with the next-fit cursor at 0 |
| Allocator.MemoryAllocator.Allocate | module1_paging_engine/allocator.py:50-56 | dispatches to the configured strategy; the frames after the call are the old ones with only the chosen frame allocated; next fit moves its cursor past the chosen frame; on a pool whose ids match their positions, the returned index is the chosen frame's id |
| Allocator.MemoryAllocator.AllocateFirstFit | module1_paging_engine/allocator.py:77-81 | the loop returns FirstFitIn over the whole row and allocates that frame; the result is that frame's id |
| Allocator.MemoryAllocator.AllocateBestFit | module1_paging_engine/allocator.py:103-114 | the loop returns BestFitUpTo over the whole row and allocates that frame; the result is that frame's id |
| Allocator.MemoryAllocator.AllocateNextFit | module1_paging_engine/allocator.py:136-151 | the two-part scan returns NextFitFrom the cursor; the cursor moves to (chosen + 1) mod n, and stays put on failure; the result is the chosen frame's id |
| Allocator.MemoryAllocator.Deallocate | module1_paging_engine/allocator.py:164-166 | succeeds exactly for an in-range allocated frame, which is freed; an out-of-range id changes nothing |
| Allocator.MemoryAllocator.SetStrategy | module1_paging_engine/allocator.py:175-177 | sets the strategy; only a switch to next fit resets the cursor |
| PageTables.NewEntry | module1_paging_engine/page_table.py:28-35 | a new entry is not present, has no frame and has every bit clear |
| PageTables.PageTableEntry.MapToFrame | module1_paging_engine/page_table.py:44-47 | present and valid, names the frame, status PRESENT; the M and R bits are kept |
| PageTables.PageTableEntry.UnmapFrame | module1_paging_engine/page_table.py:51-53 | not present, no frame, status NOT_PRESENT; valid and the other bits are kept |
| PageTables.PageTableEntry.MarkModified | module1_paging_engine/page_table.py:57-58 | M bit set and status MODIFIED; nothing else changes |
| PageTables.PageTableEntry.MarkReferenced | module1_paging_engine/page_table.py:62-64 | R bit set; the status moves only from PRESENT to REFERENCED |
| PageTables.PageTableEntry.ClearReferenced | module1_paging_engine/page_table.py:68-70 | R bit cleared; the status moves only from REFERENCED back to PRESENT |
| PageTables.MarkThenClearReferenced | module1_paging_engine/page_table.py:60-70 | marking and then clearing R restores the entry with R clear, unless it was already REFERENCED |
| PageTables.MapThenUnmap | module1_paging_engine/page_table.py:37-53 | mapping and then unmapping a new entry gives the new entry back, with valid set |
| PageTables.PageTable.GetEntry | module1_paging_engine/page_table.py:102 | the entry exactly when the page has one |
| PageTables.PageTable.CreatePage | module1_paging_engine/page_table.py:114-116 | idempotent: an existing entry is returned unchanged; otherwise a new entry is added; table validity is kept |
| PageTables.PageTable.MapPageToFrame | module1_paging_engine/page_table.py:129-134 | creates the entry if needed, maps it to the frame, and always reports success |
| PageTables.PageTable.UnmapPage | module1_paging_engine/page_table.py:146-150 | fails exactly when the page has no entry; otherwise unmaps it, and the page is no longer mapped |
| PageTables.PageTable.MappedPages | module1_paging_engine/page_table.py:159-162 | exactly the pages whose entry is present |
| PageTables.PageTable.TranslateAddress | module1_paging_engine/page_table.py:174-176 | page times page size plus offset gives the address, with 0 <= offset < page size |
| PageTables.PageTable.GetStats | module1_paging_engine/page_table.py:198-208 | mapped plus unmapped equals total entries, and mapped is the number of present pages |
| PageTables.SetEntryMappedPages | module1_paging_engine/page_table.py:152-162 | replacing one entry changes the mapped set only at that page |
| Paging.InitialEntries | module1_paging_engine/paging_engine.py:55-70 | entries for pages 0 to n-1, each a new entry |
| Paging.WithEntry | module1_paging_engine/paging_engine.py:123-127 | after create_page the page has an entry |
| Paging.NoSharedFrames | module1_paging_engine/paging_engine.py:119-151 | under the invariant, two present entries that name the same frame are the same (process, page) |
| Paging.OwnersOfSize | module1_paging_engine/paging_engine.py:142-149 | distinct allocated frames have distinct owners |
| Paging.AllocatedFramesCountPresentEntries | module1_paging_engine/paging_engine.py:274-292 | the number of allocated frames equals the number of present entries over all tables |
| Paging.SetEntryKeepsMatch | module1_paging_engine/paging_engine.py:238-265 | replacing an entry by one with the same present bit and frame keeps frames and tables matched |
| Paging.MapFrameKeepsMatch | module1_paging_engine/paging_engine.py:142-149 | mapping a non-present page and allocating the frame it names keeps frames and tables matched |
| Paging.UnmapKeepsMatch | module1_paging_engine/paging_engine.py:164-186 | unmapping a present page and freeing its frame keeps frames and tables matched |
| Paging.AddTableKeepsMatch | module1_paging_engine/paging_engine.py:55-70 | adding a table with no present entries keeps frames and tables matched |
| Paging.ReleaseKeepsMatch | module1_paging_engine/paging_engine.py:82-100 | freeing every frame of a process and dropping its table keeps frames and tables matched and the frames well formed |
| Paging.ReleaseFreesExactlyMappedFrames | module1_paging_engine/paging_engine.py:87-93 | remove_process changes exactly the frames named by the process's present entries |
| Paging.ReleaseStep | module1_paging_engine/paging_engine.py:88-93 | one iteration of the release loop frees the frame owned by that page, and no other |
| Paging.ReleaseComplete | module1_paging_engine/paging_engine.py:88-93 | after every mapped page has been visited, every frame of the process has been released |
| Paging.TranslationLandsInOwnedFrame | module1_paging_engine/paging_engine.py:204-236 | a translation without a fault lands inside a frame allocated to that very page |
| Paging.TranslationAgreesWithHelper | module1_paging_engine/paging_engine.py:204-236 | the simulator translates exactly as logical_to_physical_paging does over the table's page-to-frame map |
| Paging.FreshStateInv | module1_paging_engine/paging_engine.py:37-42 | the state after construction satisfies the simulator invariant |
| Paging.AddProcessKeepsInv | module1_paging_engine/paging_engine.py:55-70 | create_process keeps the invariant |
| Paging.RemoveProcessKeepsInv | module1_paging_engine/paging_engine.py:82-100 | remove_process keeps the invariant |
| Paging.CreateEntryKeepsInv | module1_paging_engine/paging_engine.py:126-127 | creating a missing entry keeps the invariant |
| Paging.SameMappingKeepsInv | module1_paging_engine/paging_engine.py:250-265 | marking an entry referenced or modified keeps the invariant |
| Paging.MapPageKeepsInv | module1_paging_engine/paging_engine.py:133-151 | allocating a frame for a non-present page keeps the invariant and adds one page to the process's count |
| Paging.UnmapPageKeepsInv | module1_paging_engine/paging_engine.py:164-186 | freeing a present page keeps the invariant and removes one page from the count |
| Paging.PagingSimulator.constructor | module1_paging_engine/paging_engine.py:37-42 | all frames free, no processes, zero counters, the chosen strategy |
| Paging.PagingSimulator.CreateProcess | module1_paging_engine/paging_engine.py:55-70 | fails exactly on a duplicate pid; otherwise adds a table with pages 0 to n-1 not present and a record with zero pages; the invariant is kept |
| Paging.PagingSimulator.RemoveProcess | module1_paging_engine/paging_engine.py:82-100 | fails exactly on an unknown pid; otherwise frees exactly the process's frames and drops its table and record |
| Paging.PagingSimulator.FreeMappedFrames | module1_paging_engine/paging_engine.py:87-93 | the loop over mapped pages leaves the frames equal to ReleaseProcess of the old frames |
| Paging.PagingSimulator.AllocatePage | module1_paging_engine/paging_engine.py:119-151 | None for an unknown process; a present page returns its frame unchanged; otherwise the entry is created if missing (even when allocation fails), the strategy's choice is allocated and mapped, and the count rises by one; under next fit the cursor moves to (choice + 1) mod n on success and otherwise never moves |
| Paging.PagingSimulator.CreateMissingEntry | module1_paging_engine/paging_engine.py:126-127 | adds a new entry only when the page has none |
| Paging.PagingSimulator.AllocateFrameFor | module1_paging_engine/paging_engine.py:133-151 | the result is the strategy's choice; on success the entry maps to it and the frame is owned by the page; under next fit the cursor moves to (choice + 1) mod n on success and stays put on failure or under the other strategies |
| Paging.PagingSimulator.RecordFrame | module1_paging_engine/paging_engine.py:142-149 | maps the entry to the allocated frame, counts the page, and leaves the frames unchanged (the second frame.allocate call is a no-op) |
| Paging.PagingSimulator.DeallocatePage | module1_paging_engine/paging_engine.py:164-186 | succeeds exactly for a present page; then its frame becomes free, the entry is unmapped and the count drops by one |
| Paging.PagingSimulator.TranslateAddress | module1_paging_engine/paging_engine.py:204-236 | the result is TranslationOf the old tables; a fault increments page_faults, a success increments successful_translations, and an entry that is found gets its R bit set |
| Paging.PagingSimulator.AccessPage | module1_paging_engine/paging_engine.py:250-265 | succeeds exactly for a present page; it is marked referenced, and modified on a write; a miss on a known process counts a page fault |
| Paging.PagingSimulator.Reset | module1_paging_engine/paging_engine.py:296-301 | every frame free, no processes, zero counters, the next-fit cursor at 0 |
| Paging.PagingSimulator.SetAllocationStrategy | module1_paging_engine/paging_engine.py:310 | sets the strategy and keeps the invariant |
| AddressTranslation.SplitAddress | module2_segmentation_virtual_memory/address_translation.py:83-85 | the offset lies in the page's range for either sign of page size |
| AddressTranslation.CombineAddress | module2_segmentation_virtual_memory/address_translation.py:88-100 | with an in-range offset, the combined address lies inside page pageNumber; SplitThenCombine and CombineThenSplit make it the inverse of split_address |
| AddressTranslation.SplitThenCombine | module2_segmentation_virtual_memory/address_translation.py:83-100 | splitting and recombining gives the address back |
| AddressTranslation.CombineThenSplit | module2_segmentation_virtual_memory/address_translation.py:83-100 | combining an in-range offset and then splitting gives the page and offset back |
| AddressTranslation.LogicalToPhysicalPaging | module2_segmentation_virtual_memory/address_translation.py:28-41 | None for an unknown page; a fault with no address for a non-resident page; otherwise frame times frame size plus offset |
| AddressTranslation.PagingTranslationStaysInFrame | module2_segmentation_virtual_memory/address_translation.py:28-41 | with equal page and frame sizes, a resident page's address lies inside its frame |
| AddressTranslation.LogicalToPhysicalSegmentation | module2_segmentation_virtual_memory/address_translation.py:60-69 | None exactly for an unknown segment; valid with base plus offset exactly when 0 <= offset < limit; otherwise an out-of-bounds error |
| Validators.ValidatePositiveInt | utils/validators.py:24-27 | valid exactly when value >= minimum; otherwise the below-minimum error |
| Validators.ValidateAddress | utils/validators.py:44-50 | valid exactly when non-negative and below the maximum, if one is given; a negative address is reported first |
| Validators.ValidateProcessId | utils/validators.py:66-69 | valid exactly when non-negative |
| Validators.ValidatePageId | utils/validators.py:85-88 | valid exactly when non-negative |
| Validators.ValidateSegmentId | utils/validators.py:104-107 | valid exactly when non-negative |
| Replacement.FirstIndex | module2_segmentation_virtual_memory/page_replacement.py:67-70 | the lowest index holding the value; None exactly when it is absent |
| Replacement.RemoveFirst | module2_segmentation_virtual_memory/page_replacement.py:224-225 | list.remove drops the first occurrence: one element shorter, one fewer copy, order otherwise kept |
| Replacement.RemoveFirstKeepsDistinct | module2_segmentation_virtual_memory/page_replacement.py:224-226 | removing from a duplicate-free list keeps it duplicate-free and removes exactly that element |
| Replacement.EmptySlots | module2_segmentation_virtual_memory/page_replacement.py:22-32 | num_frames empty slots (none for a negative count) |
| Replacement.ScanEnd | module2_segmentation_virtual_memory/page_replacement.py:324-348 | at the end of the search, the kept candidate is the optimal victim |
| Replacement.ScanBreak | module2_segmentation_virtual_memory/page_replacement.py:324-348 | a resident page that is never used again ends the search as the optimal victim |
| Replacement.ScanFurther | module2_segmentation_virtual_memory/page_replacement.py:324-348 | a page used strictly farther away becomes the candidate |
| Replacement.ScanKeep | module2_segmentation_virtual_memory/page_replacement.py:324-348 | any other slot leaves the candidate as it is |
| Replacement.OptimalScanChoosesOptimally | module2_segmentation_virtual_memory/page_replacement.py:324-348 | the search returns the optimal victim: the first page never used again, or else the page with the farthest next use, earliest slot on ties |
| Replacement.OptimalVictim | module2_segmentation_virtual_memory/page_replacement.py:324-352 | Optimal's victim satisfies the victim rule |
| Replacement.Access | module2_segmentation_virtual_memory/page_replacement.py:121-362 | a fault exactly when the page is not resident; faults or hits rise by one; the slot count is kept; a reported slot now holds the page |
| Replacement.HitKeepsSlots | module2_segmentation_virtual_memory/page_replacement.py:220-232 | a hit keeps the slots, reports the page's slot, and only LRU moves the page to the end of its list |
| Replacement.FaultFillsFirstFreeSlot | module2_segmentation_virtual_memory/page_replacement.py:152-162 | a fault with a free slot fills the lowest free slot, and FIFO and LRU append the page to their list |
| Replacement.FaultEvictsListHead | module2_segmentation_virtual_memory/page_replacement.py:164-174 | a FIFO or LRU fault with every slot full pops the list head and replaces the first slot holding it |
| Replacement.FaultEvictsOptimalVictim | module2_segmentation_virtual_memory/page_replacement.py:355-360 | an Optimal fault with every slot full replaces the optimal victim |
| Replacement.EvictChangesOneSlot | module2_segmentation_virtual_memory/page_replacement.py:164-174 | an eviction rewrites at most one slot, the reported one, and reports what it held |
| Replacement.FaultChangesOneSlot | module2_segmentation_virtual_memory/page_replacement.py:152-174 | a fault rewrites at most one slot, the reported one |
| Replacement.PlaceKeepsNoDuplicates | module2_segmentation_virtual_memory/page_replacement.py:159 | writing a non-resident page into one slot keeps the slots duplicate-free |
| Replacement.AccessKeepsNoDuplicates | module2_segmentation_virtual_memory/page_replacement.py:121-176 | no access ever puts a page in two slots |
| Replacement.AccessKeepsTracks | module2_segmentation_virtual_memory/page_replacement.py:200-259 | when FIFO or LRU runs alone, its list holds each resident page exactly once |
| Replacement.HitKeepsTracks | module2_segmentation_virtual_memory/page_replacement.py:220-232 | a hit keeps the list in step with the slots |
| Replacement.FillKeepsTracks | module2_segmentation_virtual_memory/page_replacement.py:240-245 | filling a free slot keeps the list in step with the slots |
| Replacement.EvictKeepsTracks | module2_segmentation_virtual_memory/page_replacement.py:246-257 | evicting the list head keeps the list in step with the slots |
| Replacement.Residents | module2_segmentation_virtual_memory/page_replacement.py:79-96 | loaded_pages holds exactly the resident pages |
| Replacement.Statistics | module2_segmentation_virtual_memory/page_replacement.py:79-96 | total accesses equals faults plus hits, and loaded_pages holds exactly the resident pages |
| Replacement.ReplacementEngine.constructor | module2_segmentation_virtual_memory/page_replacement.py:22-32 | empty slots, an empty list, zero counters |
| Replacement.ReplacementEngine.IsPageLoaded | module2_segmentation_virtual_memory/page_replacement.py:48-56 | a page is loaded exactly when the slot scan finds a slot holding it |
| Replacement.ReplacementEngine.SlotIndex | module2_segmentation_virtual_memory/page_replacement.py:67-70 | the slot scan returns FirstIndex |
| Replacement.ReplacementEngine.OptimalVictimSearch | module2_segmentation_virtual_memory/page_replacement.py:324-352 | the loop with its early exit returns OptimalVictim |
| Replacement.ReplacementEngine.AccessPage | module2_segmentation_virtual_memory/page_replacement.py:121-362 | the new state and result are exactly Access of the old state |
| Replacement.ReplacementEngine.HandleFault | module2_segmentation_virtual_memory/page_replacement.py:152-174 | the new state and result are exactly Fault of the old state |
| Replacement.ReplacementEngine.Reset | module2_segmentation_virtual_memory/page_replacement.py:100-102 | empty slots, an empty list, zero counters |
| VirtualMemory.ZeroPage | module2_segmentation_virtual_memory/virtual_memory.py:157-158 | bytes(n) has n bytes |
| VirtualMemory.BackingStore.constructor | module2_segmentation_virtual_memory/virtual_memory.py:19-21 | an empty store |
| VirtualMemory.BackingStore.StorePage | module2_segmentation_virtual_memory/virtual_memory.py:31 | adds or overwrites that page only |
| VirtualMemory.BackingStore.LoadPage | module2_segmentation_virtual_memory/virtual_memory.py:43 | the stored contents exactly when the page is stored |
| VirtualMemory.BackingStore.HasPage | module2_segmentation_virtual_memory/virtual_memory.py:45-55 | has_page holds exactly when load_page returns contents |
| VirtualMemory.BackingStore.RemovePage | module2_segmentation_virtual_memory/virtual_memory.py:67-70 | succeeds exactly when the page was stored; afterwards the page is absent |
| VirtualMemory.StoreThenLoad | module2_segmentation_virtual_memory/virtual_memory.py:23-43 | a stored page loads back as stored, and every other page is unaffected |
| VirtualMemory.Seeded | module2_segmentation_virtual_memory/virtual_memory.py:154-158 | after seeding, the store holds the old pages unchanged and every newly listed page as zeros |
| VirtualMemory.WithoutPages | module2_segmentation_virtual_memory/virtual_memory.py:180-187 | exactly the slots holding a removed page become empty |
| VirtualMemory.WithoutPagesKeepsNoDuplicates | module2_segmentation_virtual_memory/virtual_memory.py:172-189 | emptying slots keeps them duplicate-free and leaves no removed page resident |
| VirtualMemory.VirtualTranslation | module2_segmentation_virtual_memory/virtual_memory.py:280-308 | None exactly for an unknown process or an unlisted page; the offset is the floor remainder; a fault with no address exactly when the page is not resident |
| VirtualMemory.TranslationLandsInSlot | module2_segmentation_virtual_memory/virtual_memory.py:280-308 | a resident page's address lies inside the frame of the first slot holding it |
| VirtualMemory.VirtualMemoryManager.constructor | module2_segmentation_virtual_memory/virtual_memory.py:98-113 | an engine of the chosen policy with empty slots, an empty store, no processes, zero swaps |
| VirtualMemory.VirtualMemoryManager.LoadProcess | module2_segmentation_virtual_memory/virtual_memory.py:151-160 | records the page list and seeds every page not yet stored with zeros; always succeeds |
| VirtualMemory.VirtualMemoryManager.ClearSlots | module2_segmentation_virtual_memory/virtual_memory.py:182-186 | every slot holding the page becomes empty; the list and counters are kept |
| VirtualMemory.VirtualMemoryManager.RemoveProcess | module2_segmentation_virtual_memory/virtual_memory.py:172-189 | fails exactly on an unknown pid; otherwise the process's pages leave the store and their slots, and the FIFO/LRU list is left as it was |
| VirtualMemory.VirtualMemoryManager.AccessPage | module2_segmentation_virtual_memory/virtual_memory.py:210-262 | refuses an unknown process, an unlisted page, and a non-resident page missing from the store; otherwise the engine steps by Access, a swap-in is counted on a fault, and a replaced page is written back as zeros and counted as a swap-out |
| VirtualMemory.VirtualMemoryManager.TranslateAddress | module2_segmentation_virtual_memory/virtual_memory.py:280-308 | the result is VirtualTranslation of the current state |
| VirtualMemory.VirtualMemoryManager.SetReplacementAlgorithm | module2_segmentation_virtual_memory/virtual_memory.py:318-322 | a fresh engine of the new policy with every slot empty; the store and processes are kept |
| VirtualMemory.VirtualMemoryManager.Reset | module2_segmentation_virtual_memory/virtual_memory.py:369-376 | a fresh engine, an empty store, no processes, zero swaps |
| VirtualMemory.VirtualMemoryManager.Statistics | module2_segmentation_virtual_memory/virtual_memory.py:333-347 | total swaps equals swap-ins plus swap-outs; the engine's statistics are included |
| Segmentation.Segment.Translate | module2_segmentation_virtual_memory/segmentation_engine.py:47-59 | an address exactly for 0 <= offset < limit, namely base plus offset, inside [base, base + limit) |
| Segmentation.IndexOfSegment | module2_segmentation_virtual_memory/segmentation_engine.py:96-106 | the first position holding the id; None exactly when no segment has it |
| Segmentation.Segment.ContainsAddress | module2_segmentation_virtual_memory/segmentation_engine.py:35-45 | an offset is inside the segment exactly when logical_to_physical_segmentation, given the segment's (base, limit), reports it valid |
| Segmentation.SegmentTable.GetSegment | module2_segmentation_virtual_memory/segmentation_engine.py:96-106 | the segment with that id exactly when one exists |
| Segmentation.SegmentTable.AddSegment | module2_segmentation_virtual_memory/segmentation_engine.py:79-94 | afterwards the id looks up the new segment, every other id is unaffected, and the table grows only for a new id |
| Segmentation.SegmentTable.TranslateAddress | module2_segmentation_virtual_memory/segmentation_engine.py:108-128 | segment-not-found, an out-of-bounds error, or a valid base plus offset |
| Segmentation.SegmentTable.Bounds | module2_segmentation_virtual_memory/segmentation_engine.py:79-106 | the id-to-(base, limit) map has exactly the table's ids and their bounds |
| Segmentation.LookupAfterUpdate | module2_segmentation_virtual_memory/segmentation_engine.py:92-94 | overwriting a segment in place changes only that id's lookup |
| Segmentation.LookupAfterAppend | module2_segmentation_virtual_memory/segmentation_engine.py:92-94 | appending a new id changes no other lookup |
| Segmentation.TableAgreesWithStatelessTranslation | module2_segmentation_virtual_memory/segmentation_engine.py:119-128 | a segment table translates exactly as logical_to_physical_segmentation over its bounds |
| Segmentation.InsertByBase | module2_segmentation_virtual_memory/segmentation_engine.py:309 | insertion adds exactly that segment |
| Segmentation.InsertKeepsSorted | module2_segmentation_virtual_memory/segmentation_engine.py:309 | insertion keeps a list sorted by base |
| Segmentation.SortByBase | module2_segmentation_virtual_memory/segmentation_engine.py:309 | the result is sorted by base and is a permutation of the input |
| Segmentation.InsertLargestAppends | module2_segmentation_virtual_memory/segmentation_engine.py:309 | a segment whose base is largest goes at the end |
| Segmentation.SortKeepsSorted | module2_segmentation_virtual_memory/segmentation_engine.py:309 | the stable sort leaves an already sorted list as it is |
| Segmentation.ExternalGaps | module2_segmentation_virtual_memory/segmentation_engine.py:317-321 | the external fragmentation is never negative |
| Segmentation.TableFragmentation | module2_segmentation_virtual_memory/segmentation_engine.py:299-321 | nothing to report exactly for an empty table; internal fragmentation is always 0 |
| Segmentation.GapsSpanTheTable | module2_segmentation_virtual_memory/segmentation_engine.py:317-321 | for non-overlapping sorted segments, gaps plus sizes span from the first base to the last end |
| Segmentation.TouchingSegmentsHaveNoGaps | module2_segmentation_virtual_memory/segmentation_engine.py:317-321 | segments that touch or overlap leave no external fragmentation |
| Segmentation.AutoPlacedDisjoint | module2_segmentation_virtual_memory/segmentation_engine.py:244-255 | automatically placed segments never overlap; each ends at least 0x100 bytes before the next |
| Segmentation.AutoPlacedGaps | module2_segmentation_virtual_memory/segmentation_engine.py:317-321 | n automatically placed segments leave 0x100 times (n - 1) bytes of gaps |
| Segmentation.AutoPlacedFragmentation | module2_segmentation_virtual_memory/segmentation_engine.py:299-321 | calculate_fragmentation of n automatically placed segments reports 0x100 times (n - 1) external bytes |
| Segmentation.SegmentationEngine.constructor | module2_segmentation_virtual_memory/segmentation_engine.py:185-189 | no tables, the cursor at 0x1000, zero counters |
| Segmentation.SegmentationEngine.CreateProcess | module2_segmentation_virtual_memory/segmentation_engine.py:201-205 | fails exactly on an existing process; otherwise adds an empty table |
| Segmentation.SegmentationEngine.RemoveProcess | module2_segmentation_virtual_memory/segmentation_engine.py:217-221 | fails exactly on an absent process; the table is gone afterwards |
| Segmentation.SegmentationEngine.AddSegment | module2_segmentation_virtual_memory/segmentation_engine.py:244-255 | fails exactly on an unknown process; the segment goes at the given base or at the cursor, and only automatic placement moves the cursor, by size plus 0x100 |
| Segmentation.SegmentationEngine.TranslateAddress | module2_segmentation_virtual_memory/segmentation_engine.py:274-287 | an unknown process is refused; otherwise the table's translation; every call is an attempt, a valid one a success, and an invalid one on a known process a violation |
| Segmentation.SegmentationEngine.CalculateFragmentation | module2_segmentation_virtual_memory/segmentation_engine.py:299-321 | nothing to report for an unknown process; otherwise the table's fragmentation |
| Segmentation.SegmentationEngine.Statistics | module2_segmentation_virtual_memory/segmentation_engine.py:341-350 | successes plus violations never exceed attempts |
| Segmentation.SegmentationEngine.Reset | module2_segmentation_virtual_memory/segmentation_engine.py:354-358 | the initial state |

## Left out

- Floating-point fields (utilisation, fault and hit rates, the percentages of get_frame_status, get_stats and get_statistics) are not modelled; only the integer fields are.
- The user interface, the logger and every `visualize_*` method are presentation only and are not modelled.
- `PagingSimulator.get_statistics` is not modelled: it adds rates to counters the model already exposes; `AllocatedFramesCountPresentEntries` states the relation its counts rest on.
- `VirtualMemoryManager.get_memory_layout` and `SegmentTable.get_stats` are not modelled: they build display dictionaries from state the model exposes directly.
- `PageTable.get_page_for_address` is not modelled: the core never calls it, and it is the page half of `PageTable.TranslateAddress`.
- Frames, page table entries, page tables, segments and segment tables are values held in their owner's array or map, not separate objects; the code never keeps a second reference to one, so aliasing between them is not modelled.
- The `status` field of a segment (always ALLOCATED) is not modelled; no operation of the core reads it.
- PageTables.PageTable.MappedPages: get_mapped_pages returns a list in dictionary order; the model returns the set, since the release loop frees the same frames in any order.
- Python's dynamic type checks (`isinstance`) are not modelled: every argument is an `int` by its Dafny type.
- Error messages are enumerated reasons carrying the same data, not formatted strings.
- Replacement.Access: requires at least one slot for an Optimal engine, because with none the code's fallback search for a resident page raises StopIteration.
- Replacement.ReplacementEngine.AccessPage: requires at least one slot for Optimal, for the same reason.
- Replacement.ReplacementEngine.HandleFault: requires at least one slot for Optimal, for the same reason.
- VirtualMemory.VirtualMemoryManager.AccessPage: requires num_frames > 0 for Optimal (the StopIteration above) and a non-negative frame size, since `bytes(frame_size)` raises on a negative one.
- VirtualMemory.VirtualMemoryManager.LoadProcess: requires a non-negative frame size unless every listed page is already stored, since `bytes(frame_size)` raises on a negative one.
- Page contents are zero pages of the frame size; the code never writes other data, so no data is followed through swaps.
- Segmentation.TableFragmentation: reports only the byte fields; the fragmentation percentage is floating point.
- Segmentation.SortByBase: proved sorted and a permutation; that it agrees with Python's stable `sorted` on equal bases is part of its definition (insert after equal keys), not a separate proof.
- PageTables.PageTable.TranslateAddress: requires a nonzero page size; with page size 0 the code's `//` raises ZeroDivisionError, which the model does not represent.
- AddressTranslation.SplitAddress: requires a nonzero page size; page size 0 raises ZeroDivisionError in the code and is not represented.
- AddressTranslation.LogicalToPhysicalPaging: requires a nonzero page size; page size 0 raises ZeroDivisionError in the code and is not represented.
- Paging.TranslationOf: requires a nonzero page size for a known process; frame size 0 makes the page table's `//` raise ZeroDivisionError, which is not represented.
- Paging.PagingSimulator.TranslateAddress: requires a nonzero frame size when the process exists; frame size 0 raises ZeroDivisionError in the code and is not represented.
- VirtualMemory.VirtualTranslation: requires a nonzero frame size when the process exists; frame size 0 raises ZeroDivisionError in the code and is not represented.
- VirtualMemory.VirtualMemoryManager.TranslateAddress: requires a nonzero frame size when the process exists; frame size 0 raises ZeroDivisionError in the code and is not represented.
- Allocator.MemoryAllocator.Allocate: requires every frame's id to equal its position, as `PhysicalMemory` builds them (module1_paging_engine/physical_memory.py:86-88), and then returns the position, which is the `frame_id` the code returns; a frame list whose ids differ from their positions is not modelled.
- Allocator.MemoryAllocator.AllocateFirstFit: requires ids equal to positions and returns the position, for the same reason.
- Allocator.MemoryAllocator.AllocateBestFit: requires ids equal to positions and returns the position, for the same reason.
- Allocator.MemoryAllocator.AllocateNextFit: requires ids equal to positions and returns the position, for the same reason.

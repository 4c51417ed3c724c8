# Verified model of the LLM OS boot path and agent memory

This project models, in Dafny 4.11, how the LLM OS gets from the firmware's memory
list to a running agent, and proves what the pieces promise each other:

* **Physical frames** (`Regions`, `MemoryMaps`, `FrameAllocator`, `BootInfo`,
  `BootRun`, `Fragmentation`). The bootloader's 64-entry table is a class over an
  array that is sorted, trimmed, split and grown in place. The unstable sort is
  specified only as "a sorted rearrangement of the live entries", so every result
  about runs holds however ties are broken. The abstraction is a count of owners per
  frame and type, which no rearrangement changes; allocating and marking are both
  proved to be *transfers* of frames from usable to a new owner.
* **Loading the kernel** (`Machine`, `Loader`, `Level4`, `Bootloader`). Page table,
  physical memory and frame allocator form one machine. `map_to`/`unmap` of the
  paging library are modelled by their effect: missing intermediate tables are
  created from page-table frames, a mapped page (or one inside a 2 MiB page) is
  refused, and the bytes of page-table frames may become anything. `BootloaderMain`
  runs all steps in order.
* **The kernel's side** (`KernelFrames`, `KernelHeap`, `KernelBoot`): the allocator that
  walks the map handed over, the heap mapping that uses it, and `BootToHeap`, which
  composes both with the bootloader.
* **The agent** (`Context`, `Agent`): the context window against the full history of
  pushes, and the key/value tools against the full history of inputs.
* **The text screen** (`Vga`): the 25x80 buffer against a screen that never forgets.

Where the source panics, methods report failure (`ok == false`, `Panic`, an
`Outcome` other than `Reached`). The page table the bootloader starts with maps only
addresses of the first level-4 entry. A virtual address is named by the 48 bits that
are translated: `VirtAddr::new` of the `x86_64` crate (0.14) extends them by bit 47, and
panics exactly on what `Level4.Accepted` excludes. Other integers are unbounded: frame
numbers are addresses divided by 4096, and record bounds are required to fit 64 bits.
E820 records have non-zero length, because `bootloader/src/e820.s` (lines 38-40) drops
empty ones. Marks must lie inside one usable region where a result needs it;
`FrameAllocator.MarkSafeIff` shows exactly which marks are safe and
`FrameAllocator.StraddlingMarkLeaks` what happens otherwise. Text that comes from library
formatting and number parsing (calculator, debug lists, status line) is an arbitrary
parameter (`Agent.Library`).

Properties one might expect that the code does not have, each with a concrete input
and the exact condition under which it holds:

* A mark that sticks out of a usable region on both sides turns the region inside out
  and lets a frame that was never usable be handed out (`StraddlingMarkLeaks`,
  `MarkSafeIff`); a mark that reaches into a second region gives frames two owners
  (`ReservedOverlapAccepted`, `MarkDisjointIff`).
* Trimming is one-sided: a usable record that starts inside an earlier reserved one
  keeps the shared frames (`HalfReservedFrameStaysUsable`). For a list of records,
  nothing is ever shared, whatever order the sort gives to ties (`TieDecides`),
  exactly if no record that may be sorted before a surviving usable one reaches into
  it (`NothingSharedIff`).
* Taking page tables from the top does not always bound fragmentation: one usable
  region and three requests use three entries more (`ThreeMoreEntries`), and every
  further alternating request one more (`AlternationFragments`, `AlternationRunExists`).
  A request makes the map worse exactly if no region of its type can grow, the other
  type's next request could simply grow, and only one usable region is left
  (`PotentialRisesIff`); without such requests at most two entries are added
  (`FragmentationBound`).
* The physical-memory window leaves its reserved entries exactly if memory ends on a
  512 GiB boundary (`WindowFitsIff`, `WindowSpills`).
* The fixed temporary page is free to use only if the recursive mapping does not take its
  level-4 entry, 31; it does exactly if segments span entries 1 to 30 and not 31
  (`RecursiveHitsTempIff`).
* `store` keeps a key as typed up to its first space but `recall` trims it: the value
  comes back exactly for keys that contain no space and equal their own trim
  (`RoundTripIff`, `TabKeyIsLost`, `TwoWordKeyIsLost`).

Three places where the documentation and the code disagree, and the model follows the
code: `docs/agent-runtime.md` says errors are also added to the context as Tool
messages (the code records only successes), and counts four characters per token
(the code counts four bytes); and `bootloader/src/frame_allocator.rs` (lines 66-68)
promises a panic whenever a region that is not usable overlaps the mark, while the
code looks at the first overlapping region only (`OverlookedIff` says exactly when a
later one is overlooked).

## Model

| member | source | states |
|---|---|---|
| `Regions.FromAddressesCovers` | bootloader/src/bootinfo/memory_map.rs:132-138 | a frame belongs to `FrameRange::new(start, end)` exactly if it shares a byte with the addresses |
| `Regions.FrameRangeRoundTrip` | bootloader/src/main.rs:385-397 | frame numbers survive the conversion to addresses and back |
| `Regions.CompareNotAntisymmetric` | bootloader/src/bootinfo/memory_map.rs:40-43 | any two empty regions, and no others, compare Greater both ways |
| `Regions.BeforeIsStrictWeakOrder` | bootloader/src/bootinfo/memory_map.rs:40-57 | the comparator's Less relation is nevertheless a strict weak order |
| `Regions.PackedTwice` | bootloader/src/bootinfo/memory_map.rs:27-35 | two insertions, each followed by a sort, amount to one sort at the end |
| `Regions.OwnershipPacked` | bootloader/src/bootinfo/memory_map.rs:37-61 | a sort changes no frame's owners and no count of usable frames |
| `Regions.ChainUnique` | bootloader/src/bootinfo/memory_map.rs:37-61 | on disjoint non-empty regions the unstable sort has exactly one possible result |
| `Regions.SortedDisjointIsChain` | bootloader/src/bootinfo/memory_map.rs:37-61 | sorting a disjoint map leaves every region ending before the next one starts |
| `MemoryMaps.SortUnstable` | bootloader/src/bootinfo/memory_map.rs:40-57 | in place, sorted by the comparator, a permutation |
| `MemoryMaps.MemoryMap.constructor` | bootloader/src/bootinfo/memory_map.rs:20-25 | 64 empty entries, empty slice |
| `MemoryMaps.MemoryMap.Sort` | bootloader/src/bootinfo/memory_map.rs:37-61 | the table is permuted, the slice is exactly its live entries in order, and `next` is their number |
| `MemoryMaps.MemoryMap.AddRegion` | bootloader/src/bootinfo/memory_map.rs:27-35 | fails exactly on a full table; otherwise the slice is the sorted live entries plus the new one |
| `BootInfo.ConvertMeaning` | bootloader/src/bootinfo/memory_map.rs:217-232 | the five firmware types, and exactly the frames that share a byte with the record |
| `BootInfo.Trim` | bootloader/src/boot_info.rs:19-28 | the in-place loop cuts each usable region back to the next start |
| `BootInfo.CreateFrom` | bootloader/src/boot_info.rs:7-31 | fails exactly on an unknown type or more than 64 records; otherwise a trimmed sorted map of all records |
| `BootInfo.CreatedIsTidy` | bootloader/src/boot_info.rs:12-30 | ascending starts, no inverted range, no usable region reaching into a later one; hence no frame usable twice |
| `BootInfo.CreatedUsableIff` | bootloader/src/boot_info.rs:19-28 | a frame is usable exactly if a usable record has it and every later record starts beyond it |
| `BootInfo.CreatedProvenance` | bootloader/src/boot_info.rs:12-30 | no frame is usable that no usable firmware record touches |
| `BootInfo.CreatedKeepsOthers` | bootloader/src/boot_info.rs:12-30 | regions of other types are taken over unchanged |
| `BootInfo.NothingSharedIff` | bootloader/src/boot_info.rs:22-26 | for every order the sort may give to ties, no usable frame is also claimed by another type, exactly if no record of another type that may be sorted before a surviving usable record reaches into it |
| `BootInfo.NothingSharedSorted` | bootloader/src/boot_info.rs:22-26 | the same for one given order |
| `BootInfo.TieDecides` | bootloader/src/boot_info.rs:17-26 | two records with equal ranges for which the order of the tie decides whether frames are shared |
| `BootInfo.HalfReservedFrameStaysUsable` | bootloader/src/boot_info.rs:22-26 | a two-record list after which frame 1 is both reserved and usable |
| `FrameAllocator.GrowRegion` | bootloader/src/frame_allocator.rs:11-27 | enlarges the first region of the type that touches a usable one, and no other |
| `FrameAllocator.SplitUsableRegion` | bootloader/src/frame_allocator.rs:29-53 | takes the first frame of the first usable region, or of the last one for page tables |
| `FrameAllocator.AllocateFrame` | bootloader/src/frame_allocator.rs:10-64 | the slice makes an allocation step; panics only if the table is full and nothing can grow, and then exactly the chosen usable region has lost its first frame |
| `FrameAllocator.AllocationPicks` | bootloader/src/frame_allocator.rs:10-64 | on a disjoint map the frame is determined by ownership: the lowest usable one right behind a frame of the type; failing that the lowest usable one, or for a page table the first of the highest usable region |
| `FrameAllocator.GrowingPicks` | bootloader/src/frame_allocator.rs:11-27 | in any table, the first entry of the type that a usable region follows gets the frame |
| `FrameAllocator.SplittingPicks` | bootloader/src/frame_allocator.rs:29-53 | if there is none, page tables come from the highest usable region and all else from the lowest frame |
| `FrameAllocator.TwoEnds` | bootloader/src/frame_allocator.rs:48-53 | of [0, 5) and [10, 15) a stack gets frame 0 and a page table frame 10 |
| `FrameAllocator.AllocationMovesOneFrame` | bootloader/src/frame_allocator.rs:10-64 | exactly the returned frame goes from usable to the new type, every other frame keeps its owners, one usable frame fewer, disjointness kept |
| `FrameAllocator.OutOfMemoryIffExhausted` | bootloader/src/frame_allocator.rs:48-63 | None is returned exactly when no usable frame is left |
| `FrameAllocator.AllocationKeepsChain` | bootloader/src/frame_allocator.rs:10-64 | a disjoint map stays in ascending order |
| `FrameAllocator.AllocationKeepsSound` | bootloader/src/frame_allocator.rs:10-64 | no frame is offered twice after it if none was before |
| `FrameAllocator.AllocationKeepsBelow` | bootloader/src/frame_allocator.rs:10-64 | no region ends above the highest address of the start |
| `FrameAllocator.Carve` | bootloader/src/frame_allocator.rs:85-122 | the five-way case split, failing exactly when the table lacks room |
| `FrameAllocator.MarkAllocatedRegion` | bootloader/src/frame_allocator.rs:69-126 | succeeds exactly if the first overlapping region is usable and the table has room; in spite of an overlapping region that is not usable exactly if that one comes later |
| `FrameAllocator.MarkTransfers` | bootloader/src/frame_allocator.rs:85-122 | a mark inside one usable region hands over exactly its frames |
| `FrameAllocator.MarkKeepsSound` | bootloader/src/frame_allocator.rs:85-122 | marking keeps the map sound |
| `FrameAllocator.HitsItsHost` | bootloader/src/frame_allocator.rs:70-83 | on a sound map the search, if it stops at a usable region, stops at the one that contains the mark |
| `FrameAllocator.ChainHitsHost` | bootloader/src/frame_allocator.rs:70-83 | on a disjoint map in ascending order it always does |
| `FrameAllocator.MarkSafeIff` | bootloader/src/frame_allocator.rs:85-122 | no marked frame stays usable and no region is inverted exactly if the mark does not stick out on both sides and meets no other usable region |
| `FrameAllocator.StraddlingMarkLeaks` | bootloader/src/frame_allocator.rs:116-121 | a mark and an allocation after which a never-usable frame is handed out |
| `FrameAllocator.MarkDisjointIff` | bootloader/src/frame_allocator.rs:85-122 | on a disjoint map every frame keeps at most one owner exactly if the mark meets no second region and does not stick out on both sides |
| `FrameAllocator.OverlookedIff` | bootloader/src/frame_allocator.rs:66-83 | the guard under which a region that is not usable is overlooked: the first overlapping one is usable with room, and it comes later |
| `FrameAllocator.ReservedOverlapAccepted` | bootloader/src/frame_allocator.rs:66-105 | a mark that is accepted and gives a reserved frame a second owner |
| `FrameAllocator.MarksSucceed` | bootloader/src/main.rs:201-232 | disjoint marks inside usable regions of a disjoint map with table room never get stuck: after any completed part of them the next one can be made |
| `FrameAllocator.MarkAll` | bootloader/src/main.rs:201-232 | makes the marks in order; stops only at one the map then does not admit; such planned marks all succeed and keep the map disjoint |
| `FrameAllocator.PlannedRunExists` | bootloader/src/main.rs:201-232 | a run through all planned marks exists |
| `FrameAllocator.MarksTransfer` | bootloader/src/main.rs:201-232 | after them each frame's owners are the old ones plus the marks, minus usable where marked |
| `FrameAllocator.MarksKeepBelow` | bootloader/src/main.rs:201-232 | the same after completed marks |
| `FrameAllocator.MarkOrderIrrelevant` | bootloader/src/main.rs:201-232 | planned marks can be made in any other order too, and every run in any order ends with the same owners |
| `BootRun.RunShrinks` | bootloader/src/main.rs:197-325 | every reachable map is sound and usable frames only become fewer |
| `BootRun.NoFrameTwice` | bootloader/src/frame_allocator.rs:10-126 | no frame is claimed by two marks or allocations of a run |
| `BootRun.RunConserves` | bootloader/src/frame_allocator.rs:10-126 | frames still usable plus frames claimed equal the usable frames at the start |
| `BootRun.ServesExactly` | bootloader/src/frame_allocator.rs:10-64 | n usable frames serve exactly n allocations of any mix of types unless the table overflows |
| `BootRun.WholeBoot` | bootloader/src/main.rs:135-334 | over a whole boot claims are disjoint, the kernel allocator returns no claimed frame and none twice, all frames come from usable firmware records, and the counts balance |
| `Fragmentation.RunPotential` | bootloader/src/frame_allocator.rs:48-53 | live regions, minus one per type that can simply grow next, never increase |
| `Fragmentation.PotentialRisesIff` | bootloader/src/frame_allocator.rs:11-53 | one request raises the potential exactly if nothing of its type can grow, the other type is ready to grow and one usable region is left; and then by one |
| `Fragmentation.FragmentationBound` | bootloader/src/frame_allocator.rs:48-53 | any mix of requests for one type and for page tables, none of which meets the condition of `PotentialRisesIff`, uses at most two entries more |
| `Fragmentation.BoundWithTwoUsable` | bootloader/src/frame_allocator.rs:48-53 | in particular the bound holds while two usable regions are left |
| `Fragmentation.NeverOverflows` | bootloader/src/bootinfo/memory_map.rs:28-31 | from at most 61 regions such a run never overflows the table |
| `Fragmentation.AlternationFragments` | bootloader/src/frame_allocator.rs:48-53 | with one usable region, alternating two types adds one region per request |
| `Fragmentation.AlternationRunExists` | bootloader/src/frame_allocator.rs:48-53 | from any lone usable region such a run exists, as long as frames and table entries last |
| `Fragmentation.ThreeMoreEntries` | bootloader/src/frame_allocator.rs:48-53 | ten usable frames in one region: three requests, three entries more |
| `KernelFrames.BootInfoFrameAllocator.AllocateFrame` | src/memory.rs:66-72 | call n returns usable frame number n, and the counter always advances |
| `KernelFrames.OfferedPerOwner` | src/memory.rs:57-63 | a frame is listed exactly as often as usable regions claim it |
| `KernelFrames.FramesAscend` | src/memory.rs:57-63 | on a sorted map with disjoint usable regions the list is strictly ascending |
| `KernelFrames.KernelListsEachOnce` | src/memory.rs:57-72 | successive results ascend, list every usable frame once, then stay None |
| `KernelHeap.Mapper.MapHeapPage` | src/allocator.rs:45-53 | one round maps the page to the next frame of the allocator, above those of all earlier heap pages, or changes no mapping |
| `KernelHeap.Mapper.MapTo` | src/allocator.rs:51 | on success the page has its frame and all its tables exist, each new one with a frame of its own |
| `KernelHeap.InitHeap` | src/allocator.rs:33-60 | on success all 256 heap pages have ascending usable frames, none of them a page table; no other page changes; it fails only on a mapped heap page or if fewer than 259 usable frames were left |
| `KernelHeap.HeapAddresses` | src/allocator.rs:25-44 | the heap pages are those of the mebibyte from 0x4444_4444_0000 on |
| `KernelBoot.HeapTaken` | src/allocator.rs:37-53 | the bootloader leaves a heap page mapped only if a loaded segment spans entry 136, or the stack or the window covers a heap page |
| `KernelBoot.GivenIsNobodys` | src/memory.rs:66-72 | what the kernel allocator gives out is in use for nothing |
| `KernelBoot.TablesAreShown` | src/memory.rs:17-35 | the level-4 table, all page tables in use and those added for the heap are visible through the window |
| `KernelBoot.BootToHeap` | src/main.rs:43-56 | from the firmware's list to the heap: its frames and tables were nobody's, all the bootloader set up stays ready, and each failure has its reason; the window's offset is never zero |
| `Machine.FrameTaken` | bootloader/src/frame_allocator.rs:10-64 | an allocation keeps the recorded purpose of every frame in use and adds one frame that nobody used |
| `Machine.Machine.TakeFrame` | bootloader/src/page_table.rs:56-58 | an allocated frame belonged to nobody and is recorded for its purpose; failure means no usable frame or a full table |
| `Machine.SameTableIff` | bootloader/src/page_table.rs:194-219 | two pages share a table of a level exactly if their walks agree down to it |
| `Machine.HugeTablesShared` | bootloader/src/main.rs:306-320 | a 2 MiB page needs the upper two tables of the pages it stands for |
| `Machine.Machine.EnsureTable` | bootloader/src/page_table.rs:203-219 | a missing table gets one new frame, on record as a page table |
| `Machine.Machine.MapTo` | bootloader/src/page_table.rs:194-219 | on success exactly the tables of the walk are there, each new one with a frame, and the page has its entry |
| `Machine.Machine.MapPage` | bootloader/src/page_table.rs:194-219 | refuses exactly mapped pages, changes only that page, keeps the bytes of all frames that matter and all purposes; a new level-1 table serves a mapped page |
| `Machine.Machine.MapHugeTo` | bootloader/src/main.rs:306-320 | the same for a 2 MiB page: 512 pages, two tables |
| `Machine.Machine.MapHuge` | bootloader/src/main.rs:306-320 | refuses exactly 2 MiB pages with a mapped page or a level-1 table, and adds no level-1 table |
| `Loader.MapFile` | bootloader/src/page_table.rs:83-101 | the file part's pages, or as many as it got to, map the image's own frames; nothing else changes |
| `Loader.CopyTail` | bootloader/src/page_table.rs:113-157 | the last file page moves to a fresh frame with equal bytes, on record as the kernel's; the temporary page stays an alias, no other frame that matters changes |
| `Loader.MapFresh` | bootloader/src/page_table.rs:166-174 | exactly the pages of the range are added, each with its own frame, unused before and recorded for its purpose; it stops only at a mapped page, without frames or with a full table |
| `Loader.NeedsIff` | bootloader/src/page_table.rs:77-101 | the pages that hold a byte of the segment, or the one behind its end if zeros follow, are the file pages and those wholly behind them |
| `Loader.LoadedMeaning` | bootloader/src/page_table.rs:68-192 | byte k of a loaded segment, read through page table and memory, is the file's or zero, and its frame is on record as the kernel's |
| `Loader.FreshRangeNext` | bootloader/src/page_table.rs:166-174 | one more fresh frame keeps the frames of the range pairwise distinct |
| `Loader.Zero` | bootloader/src/page_table.rs:177-180 | exactly the bytes the address range stands for become zero |
| `Loader.ZeroRange` | bootloader/src/page_table.rs:103-174 | no zeroed byte falls into the image or into another file page's frame |
| `Loader.MapSegment` | bootloader/src/page_table.rs:68-192 | on success the segment reads as file bytes then zeros from frames of the kernel's, and exactly the pages it needs, and the temporary one for a tail, were added; on any outcome frames that matter keep their bytes; "already mapped" means one of these pages was taken |
| `Loader.ClearContinues` | bootloader/src/page_table.rs:39-46 | if no page is needed twice, no segment of a run meets a mapped page |
| `Loader.ClearNext` | bootloader/src/page_table.rs:39-46 | conversely, a segment that could be mapped needed no page twice |
| `Loader.StillLoaded` | bootloader/src/page_table.rs:39-46 | mapping later segments does not disturb a loaded one |
| `Loader.MapSegments` | bootloader/src/page_table.rs:38-46 | all segments are loaded at once, and exactly their pages were added; at most one TLS template; at most one unaligned tail can succeed |
| `Loader.StepProgress` | bootloader/src/page_table.rs:39-46 | mapping one more segment keeps all earlier ones loaded relative to the original image |
| `Loader.MapKernel` | bootloader/src/page_table.rs:30-66 | all of this, the image untouched on every outcome, exactly the pages of segments and stack added, a stack of distinct stack-typed frames no segment shares; success means that no page was needed twice, and no failure is without a reason: two TLS templates, a page needed twice, no usable frame, or a full table |
| `Level4.IndexIff` | bootloader/src/level4_entries.rs:22-26 | an address is in an entry exactly if its low 48 bits lie between the entry's bounds |
| `Level4.SpansIff` | bootloader/src/level4_entries.rs:21-31 | an entry is spanned exactly if it translates an address of the segment or the one behind its end |
| `Level4.AcceptedIff` | bootloader/src/level4_entries.rs:22-25 | an accepted address has bits 47 to 63 all equal, or only bit 47 set |
| `Level4.ExtendedIff` | bootloader/src/main.rs:300-304 | extending repeats bit 47 and changes no lower bit |
| `Level4.SumAccepted` | bootloader/src/main.rs:300-304 | a sum with a sign-extended address is accepted exactly as long as the low bits do not leave the address space, and names their sum |
| `Level4.SeenSpans` | bootloader/src/level4_entries.rs:22-29 | a header spans the same entries by its low address bits |
| `Level4.UsedLevel4Entries.constructor` | bootloader/src/level4_entries.rs:14-32 | exactly entry 0 and the entries spanned by headers are in use (headers with addresses that `VirtAddr::new` refuses are rejected before, see `Bootloader.BootloaderMain`) |
| `Level4.UsedLevel4Entries.GetFreeEntries` | bootloader/src/level4_entries.rs:34-48 | reserves the lowest free window, failing exactly if there is none |
| `Level4.WindowAvoidsUsed` | bootloader/src/level4_entries.rs:34-48 | over any run no window touches an entry in use at the start |
| `Level4.WindowsDisjoint` | bootloader/src/level4_entries.rs:34-48 | over any run windows are pairwise disjoint |
| `Level4.LaterWindowsAreHigher` | bootloader/src/level4_entries.rs:35-41 | windows reserved after a single entry lie above it |
| `Level4.StuckAtWindow` | bootloader/src/level4_entries.rs:34-48 | if the third of three reservations fails, no choice of two entries and a window above them was free |
| `Level4.RoomFound` | bootloader/src/level4_entries.rs:34-48 | if all three succeed, they lie above each other in entries free at the start |
| `Level4.SegmentPageSpanned` | bootloader/src/level4_entries.rs:21-29 | every page a segment may map, including the one behind its end, lies in an entry it spans |
| `Level4.WindowFitsIff` | bootloader/src/main.rs:288-304 | the 4 KiB pages of the window all lie in the reserved entries exactly if memory does not end on a 512 GiB boundary |
| `Level4.WindowSpills` | bootloader/src/main.rs:288-304 | 512 GiB of memory reserve one entry and map a page in the next |
| `Bootloader.MaxPhysAddr` | bootloader/src/main.rs:137-141 | the largest end address, failing exactly on an empty map |
| `Bootloader.MarksInForce` | bootloader/src/main.rs:201-232 | every marked frame is withheld and recorded for its purpose |
| `Bootloader.Prepare` | bootloader/src/main.rs:193-232 | exactly frame 0 and the frames that share a byte with the bootloader, the ELF file or the page tables change from usable to their type, and only they are on record as in use; it fails only if the map does not suit the marks |
| `Bootloader.MarksAreAreas` | bootloader/src/main.rs:201-232 | the four marks cover exactly the frames that share a byte with these areas |
| `Bootloader.MarksTransferAreas` | bootloader/src/main.rs:201-232 | completed marks hand over exactly these frames |
| `Bootloader.UnmapImage` | bootloader/src/main.rs:234-240 | removes exactly the 2 MiB pages that contain a byte of the ELF file, and fails exactly if one is not mapped |
| `Bootloader.GuardStaysFree` | bootloader/src/main.rs:271-286 | mapping the kernel leaves the guard page unmapped |
| `Bootloader.StackOutsideSegments` | bootloader/src/main.rs:242-286 | a stack that fits its entry, the guard page and the boot info are clear of all segments |
| `Bootloader.MapWindow` | bootloader/src/main.rs:300-320 | exactly the pages of the window are added and show physical memory from zero; it fails only behind the end of the address space, at a 2 MiB page in use before, without frames or with a full table |
| `Bootloader.ShowsPhysical` | bootloader/src/main.rs:300-304 | every physical address up to the maximum has an accepted address in the window, which translates back to it |
| `Bootloader.WindowMeaning` | bootloader/src/main.rs:300-304 | what is read at the offset plus `pa`, through page table and memory, is byte `pa` of memory |
| `Bootloader.KnownFramesShown` | src/memory.rs:17-35 | every frame in use or on offer is visible through the window, with all its bytes |
| `Bootloader.LoadKernel` | bootloader/src/main.rs:242-286 | the ELF file's own mapping is gone, and exactly the pages of segments, boot info and stack were added; boot info, guard page, stack and segments are as the kernel expects and apart from each other; all areas stay on record; each failure has its reason |
| `Bootloader.CollisionExplained` | bootloader/src/page_table.rs:30-66 | a mapped page is met only if segments need a page twice, the stack does not fit its entry or runs over the temporary page |
| `Bootloader.FinishBoot` | bootloader/src/main.rs:288-327 | exactly the pages of the window are added, they show physical memory and every known frame, and everything made ready stays so |
| `Bootloader.WindowCompletes` | bootloader/src/main.rs:288-320 | exactly the old pages less the ELF file, and those of segments, boot info, stack and window are mapped, and the window keeps to its entries exactly if memory does not end on a 512 GiB boundary |
| `Bootloader.LowestReserved` | bootloader/src/level4_entries.rs:34-48 | the recursive entry, the boot info's and the window's are the lowest there are, in this order |
| `Bootloader.HeadersRefusedIff` | bootloader/src/main.rs:147-171 | refused are a 33rd header, an address that is not accepted, and a load across the gap |
| `Bootloader.LeavesSpace` | bootloader/src/main.rs:300-304 | the window leaves the address space only if it takes the topmost entry and memory ends with it |
| `Bootloader.CollisionInWindow` | bootloader/src/main.rs:306-320 | the window meets a page in use only if memory ends on a 512 GiB boundary, the stack does not fit its entry, or the temporary page of a tail lies in the window |
| `Bootloader.RecursiveHitsTempIff` | bootloader/src/page_table.rs:113-130 | the recursive mapping takes the temporary page's entry exactly if that is the first free one |
| `Bootloader.BootloaderMain` | bootloader/src/main.rs:118-334 | `maxPhys` is the highest end address of the map; whenever control reaches the kernel, segments read as the ELF file says, the image is untouched and no longer mapped, exactly the pages of the start, segments, boot info, stack and window are, the guard page is not, the stack is apart from segments, physical memory up to `maxPhys` and every frame in use or on offer show in the window, the TLS template is the only one, and the map withholds, under their types, frame 0 and every frame of bootloader, ELF file and page tables; otherwise the outcome names a reason that holds |
| `Context.RetainedMeaning` | src/agent/context.rs:63-106 | a window keeps all system prompts and exactly the most recent other messages, in order |
| `Context.EvictionMovesCut` | src/agent/context.rs:96-106 | one eviction drops exactly the oldest remaining non-system message |
| `Context.CutFor` | src/agent/context.rs:71-85 | the least number of evictions that makes room, or all that may go if none does |
| `Context.EstimateTokens` | src/agent/context.rs:140-143 | the number of tokens n for b bytes has 4n <= b < 4(n + 1), or is one for fewer than four bytes |
| `Context.Utf8LengthAppend` | src/agent/context.rs:140-143 | the byte length is additive |
| `Context.Utf8LengthAscii` | src/agent/context.rs:140-143 | on ASCII it is the number of characters |
| `Context.CharacterWidth` | src/agent/context.rs:140-143 | each character takes the fewest bytes whose UTF-8 payload holds its code point |
| `Context.TokensInBytes` | src/agent/context.rs:140-143 | a window's tokens bound its bytes from both sides |
| `Context.ThirdEvictsFirst` | src/agent/context.rs:68-85 | three messages of 8000 ASCII characters in 4096 tokens: the third evicts the first |
| `Context.ContextWindow.EvictOldest` | src/agent/context.rs:96-106 | the same in place; the saturating subtraction never saturates |
| `Context.ContextWindow.MakeRoom` | src/agent/context.rs:71-85 | evicts exactly as many messages as `CutFor` says |
| `Context.ContextWindow.PushMessage` | src/agent/context.rs:68-93 | the window is the history minus its oldest non-system messages, minimally cut; the new message costs a token for four bytes, at least one; budget met, in tokens and bytes, or only system prompts besides the new message; messages plus evictions equal pushes |
| `Agent.SplitJoined` | src/agent/tools.rs:129-136 | splitting at the first space undoes joining with one |
| `Agent.WhiteIff` | src/agent/tools.rs:142 | white space is Unicode's property of 25 characters |
| `Agent.TrimMeaning` | src/agent/tools.rs:142 | trimming takes white space off both ends and leaves none there |
| `Agent.ToolRegistry.Execute` | src/agent/tools.rs:65-78 | dispatch by name; only a complete `store` changes the memory |
| `Agent.StoreReply` | src/agent/tools.rs:129-138 | a complete store line is answered with key and value |
| `Agent.StoreNeedsValue` | src/agent/tools.rs:129-132 | without a value: the usage message, and nothing stored |
| `Agent.CalculatorReply` | src/agent/tools.rs:73 | `calc` passes its arguments to the calculator |
| `Agent.EchoReply` | src/agent/tools.rs:76 | `echo` gives its arguments back |
| `Agent.UnknownReply` | src/agent/tools.rs:66-71 | any other name is answered with the four names there are, and nothing changes |
| `Agent.Agent.Boot` | src/agent/mod.rs:33-60 | the system prompt is in the context and exactly the four tools are registered |
| `Agent.Agent.HandleToolCall` | src/agent/mod.rs:101-113 | a Tool message is recorded exactly for successful calls |
| `Agent.Agent.ProcessInput` | src/agent/mod.rs:73-98 | response, memory and the exact messages added, against the history of inputs; the status shown is that of the window once the input was pushed |
| `Agent.OtherInputsKeep` | src/agent/tools.rs:128-138 | only a store line for the key changes what is stored under it |
| `Agent.MemoryIsLatest` | src/agent/tools.rs:128-138 | over any run the memory holds the latest stored value |
| `Agent.RecallReturnsLatest` | src/agent/tools.rs:128-147 | recall answers with the latest stored value, whatever came before or after |
| `Agent.RecallOfNothing` | src/agent/tools.rs:141-147 | recall of a never stored key reports it missing |
| `Agent.RoundTripIff` | src/agent/tools.rs:128-147 | store then recall gives the value back exactly for keys without a space that equal their own trim |
| `Agent.TabKeyIsLost` | src/agent/tools.rs:141-142 | a tab key is stored but not recalled |
| `Agent.TwoWordKeyIsLost` | src/agent/tools.rs:129-142 | a key of two words is not given back |
| `Vga.Writer.ClearRow` | src/vga_buffer.rs:116-124 | blanks one row and nothing else |
| `Vga.Writer.NewLine` | src/vga_buffer.rs:105-114 | shifting in place equals appending a blank row to the unbounded screen |
| `Vga.Writer.WriteByte` | src/vga_buffer.rs:73-92 | one byte printed on the unbounded screen |
| `Vga.Writer.WriteString` | src/vga_buffer.rs:94-103 | after any text the buffer is the last 25 rows of the unbounded screen |
| `Vga.WrapCount` | src/vga_buffer.rs:73-92 | a line breaks exactly before every 81st column |
| `Vga.LineLands` | src/vga_buffer.rs:73-92 | the same within one line, with the row and column it ends up in |
| `Vga.TextLands` | src/vga_buffer.rs:73-92 | in any text every character other than a newline ends up at its place, counted from the start of its line, and is not overwritten |
| `Vga.CharacterShows` | src/vga_buffer.rs:73-103 | the same on 80 columns: printable characters show as they are, all others as a block |
| `Vga.ShownIff` | src/vga_buffer.rs:94-102 | which bytes show as they are |
| `Vga.NewlineOpensBlankRow` | src/vga_buffer.rs:105-124 | a newline opens a row of 80 blanks below all there was |
| `Vga.OldRowsStay` | src/vga_buffer.rs:105-114 | rows above the current one never change |

## Left out

- 64-bit overflow and the 52-bit check of physical addresses: frame numbers are unbounded, so the panics of `PhysAddr::new` on wider addresses do not occur in the model, nor do those for a stack or a segment's last page that ends exactly with the address space.
- A loadable header whose start fits 48 bits and whose 64-bit sum with its size does not: the model rejects it with the headers, the source fails on its pages later.
- The recursive page-table entry and its final unmapping: the entry is reserved, but its self-mapping pages are not part of the page map.
- Bootloader.BootloaderMain: describes the source only if `recursive != TEMP_ENTRY` or no segment has a tail to copy; otherwise the temporary page names a page table, which the model does not contain. The result `recursive` and `RecursiveHitsTempIff` say exactly when that is.
- Page permissions, TLB flushes, control registers and the context switch: they do not change the modelled state.
- Configured boot-info, stack and window addresses: only the dynamically chosen ones are modelled.
- Parsing the ELF file: segments are given as program headers, with the congruence, size and bounds the ELF specification demands of loadable ones.
- The calculator's arithmetic, help text, the layout of the status line and debug lists of tool names: arbitrary parameters.
- The heap allocator behind `init_heap`, serial output, interrupts, GDT and assembly stages: no modelled state.
- Colours other than the one in force, volatile access and locks of the screen driver.

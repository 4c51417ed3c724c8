/**
 * `kernel_main` up to the heap (`src/main.rs`): the kernel's frame allocator and mapper
 * take over the memory map and the page table that the bootloader leaves behind.
 */
module KernelBoot {
  import opened Basics
  import opened Regions
  import opened FrameAllocator
  import opened BootInfo
  import opened Machine
  import opened Loader
  import opened Level4
  import opened Bootloader
  import opened KernelFrames
  import opened KernelHeap

  predicate HeapPage(p: nat) { FIRST_PAGE <= p <= LAST_PAGE }

  const HEAP_ENTRY: nat := 136

  lemma HeapInItsEntry(p: nat)
    requires HeapPage(p)
    ensures BaseOf(HEAP_ENTRY) / PAGE_SIZE + 1 < p < BaseOf(HEAP_ENTRY + 1) / PAGE_SIZE && p != TEMP_PAGE
  {}

  /** A loaded segment, the stack or the window reaches the heap. */
  ghost predicate HeapReached(segments: seq<Segment>, stackSize: nat, entry: nat, idx: nat, maxPhys: nat) {
    || (exists k :: 0 <= k < |segments| && segments[k].kind == Load && Spans(segments[k], HEAP_ENTRY))
    || (exists p: nat :: HeapPage(p) && (StackPage(entry, stackSize, p) || InWindow(idx, maxPhys, p)))
  }

  /** Otherwise the bootloader leaves the heap's pages alone. */
  lemma HeapTaken(v: Snapshot, pages: map<nat, nat>, segments: seq<Segment>, stackSize: nat,
                  recursive: nat, entry: nat, idx: nat, maxPhys: nat, p: nat)
    requires LowPages(pages) && LoadsInSpace(segments)
    requires Placement(pages, v.pages, segments, stackSize, recursive, entry, idx, maxPhys)
    requires HeapPage(p) && p in v.pages
    ensures HeapReached(segments, stackSize, entry, idx, maxPhys)
  {
    HeapInItsEntry(p);
    BasePages(HEAP_ENTRY);
    if InSegments(segments, |segments|, p) {
      var k :| 0 <= k < |segments| && segments[k].kind == Load && segments[k].Needs(p);
      SegmentPageSpanned(segments[k], p, HEAP_ENTRY);
    }
  }

  /** What the kernel allocator gives out, nobody has. */
  lemma GivenIsNobodys(m: Machine, n: nat, f: nat)
    requires m.Valid() && Handover(m.table.Slice()) && Given(m.table.Slice(), n, f)
    ensures f !in m.owner && IsUsable(m.table.Slice(), f)
  {
    KernelListsEachOnce(m.table.Slice());
    assert f in m.owner ==> Assigned(m.table.Slice(), f, m.owner[f]);
  }

  lemma GuardIsNoHeapPage(entry: nat)
    ensures !HeapPage(GuardPage(entry))
  {
    BasePages(entry);
  }

  /** Heap pages leave everything ready that the bootloader set up, and the window as it is. */
  lemma HeapKeepsReady(v: Snapshot, pages: map<nat, nat>, layout: Layout, segments: seq<Segment>, image: nat -> byte,
                       entry: nat)
    requires layout.Valid() && Ready(v, layout, segments, image, entry) && Extends(v.pages, pages)
    requires forall f: nat :: AreaOf(layout, f, Kernel) ==> f in v.held
    requires forall p :: p in pages ==> p in v.pages || HeapPage(p)
    ensures Ready(v.(pages := pages), layout, segments, image, entry)
  {
    GuardIsNoHeapPage(entry);
    ReadyKept(v, v.(pages := pages), layout, segments, image, entry);
  }

  /** What the kernel has when the heap is there, or could not be made. */
  ghost predicate HeapOutcome(m: Machine, k: Mapper, r: MapResult, start: Start, entry: nat, idx: nat, maxPhys: nat)
    requires m.Valid()
    reads m, m.table, m.table.entries, k, k.frames
  {
    match r
    case Mapped => k.HeapMapped() && forall p :: HeapPage(p) && p in k.pages ==> k.pages[p] !in m.owner
    case Failed(PageAlreadyMapped) => HeapReached(start.Segments(), start.layout.stackSize, entry, idx, maxPhys)
    case Failed(FrameAllocationFailed) => UsableFrameCount(m.table.Slice()) < 259
    case Panicked => false
  }

  /** The frames of the heap and of its page tables were nobody's. */
  lemma HeapFramesFree(m: Machine, k: Mapper)
    requires m.Valid() && Handover(m.table.Slice()) && k.Valid() && k.frames.memoryMap == m.table.Slice()
    ensures forall f :: f in k.drawn ==> f !in m.owner && IsUsable(m.table.Slice(), f)
    ensures k.HeapMapped() ==> forall p :: HeapPage(p) && p in k.pages ==> k.pages[p] !in m.owner
  {
    forall f | f in k.drawn ensures f !in m.owner && IsUsable(m.table.Slice(), f) {
      GivenIsNobodys(m, k.frames.next, f);
    }
    if k.HeapMapped() {
      forall p | HeapPage(p) && p in k.pages ensures k.pages[p] !in m.owner {
        GivenIsNobodys(m, k.frames.next, k.pages[p]);
      }
    }
  }

  lemma StillShown(m: Machine, offset: nat, pages: map<nat, nat>, f: nat)
    requires offset < SPACE && m.table.Valid() && AllShown(m, offset) && Known(m, f) && Extends(m.pages, pages)
    ensures FrameShown(pages, offset, f)
  {
    assert FrameShown(m.pages, offset, f);
  }

  /** The mapper can reach every page table: those in use when the kernel starts, and those it adds. */
  ghost predicate TablesShown(m: Machine, k: Mapper, start: Start, idx: nat)
    requires start.layout.Valid() && idx < ENTRIES
    reads m, k
  {
    && (forall f :: f in m.tableFrames || f in k.drawn ==> FrameShown(k.pages, BaseOf(idx), f))
    && (forall f: nat :: AreaOf(start.layout, f, PageTable) ==> FrameShown(k.pages, BaseOf(idx), f))
  }

  lemma TablesAreShown(m: Machine, k: Mapper, start: Start, idx: nat)
    requires start.layout.Valid() && idx < ENTRIES && m.Valid() && AllShown(m, BaseOf(idx)) && Extends(m.pages, k.pages)
    requires OnRecord(m.owner, start.layout) && forall f :: f in k.drawn ==> IsUsable(m.table.Slice(), f)
    ensures TablesShown(m, k, start, idx)
  {
    forall f | f in m.tableFrames || f in k.drawn ensures FrameShown(k.pages, BaseOf(idx), f) {
      StillShown(m, BaseOf(idx), k.pages, f);
    }
    forall f: nat | AreaOf(start.layout, f, PageTable) ensures FrameShown(k.pages, BaseOf(idx), f) {
      StillShown(m, BaseOf(idx), k.pages, f);
    }
  }

  /** What the heap leaves of the bootloader's work, and what it has itself. */
  ghost predicate HeapStarted(m: Machine, k: Mapper, r: MapResult, start: Start, entry: nat, idx: nat, maxPhys: nat)
    requires start.layout.Valid() && idx < ENTRIES && m.Valid()
    reads m, m.table, m.table.entries, k, k.frames
  {
    && HeapOutcome(m, k, r, start, entry, idx, maxPhys)
    && Extends(m.pages, k.pages) && TablesShown(m, k, start, idx)
    && (forall f :: f in k.drawn ==> f !in m.owner)
    && Ready(m.Now().(pages := k.pages), start.layout, start.Segments(), start.ram, entry)
  }

  /** How `init_heap` ends, on the page map it started from. */
  ghost predicate HeapEnds(k: Mapper, r: MapResult, pages: map<nat, nat>)
    reads k, k.frames
  {
    && Extends(pages, k.pages) && (forall p :: p in k.pages ==> p in pages || HeapPage(p))
    && match r
       case Mapped => k.HeapMapped()
       case Failed(PageAlreadyMapped) => exists p :: p in pages && HeapPage(p)
       case Failed(FrameAllocationFailed) => UsableFrameCount(k.frames.memoryMap) < 259
       case Panicked => false
  }

  lemma HeapIsStarted(m: Machine, k: Mapper, r: MapResult, start: Start, recursive: nat, entry: nat, idx: nat,
                      maxPhys: nat)
    requires start.Valid() && idx < ENTRIES && LoadsInSpace(start.Segments())
    requires Running(m, start.layout, start.Segments(), start.ram, entry, idx, maxPhys)
    requires Placement(start.Pages(), m.pages, start.Segments(), start.layout.stackSize, recursive, entry, idx, maxPhys)
    requires k.Valid() && k.frames.memoryMap == m.table.Slice() && HeapEnds(k, r, m.pages)
    ensures HeapStarted(m, k, r, start, entry, idx, maxPhys)
  {
    HeapFramesFree(m, k);
    TablesAreShown(m, k, start, idx);
    HeapKeepsReady(m.Now(), k.pages, start.layout, start.Segments(), start.ram, entry);
    HeapCollision(m, k, r, start, recursive, entry, idx, maxPhys);
    HeapOutcomeHolds(m, k, r, start, entry, idx, maxPhys);
  }

  lemma HeapOutcomeHolds(m: Machine, k: Mapper, r: MapResult, start: Start, entry: nat, idx: nat, maxPhys: nat)
    requires m.Valid() && Handover(m.table.Slice()) && k.Valid() && k.frames.memoryMap == m.table.Slice()
    requires HeapEnds(k, r, m.pages)
    requires r == Failed(PageAlreadyMapped) ==>
               HeapReached(start.Segments(), start.layout.stackSize, entry, idx, maxPhys)
    ensures HeapOutcome(m, k, r, start, entry, idx, maxPhys)
  {
    HeapFramesFree(m, k);
  }

  lemma HeapCollision(m: Machine, k: Mapper, r: MapResult, start: Start, recursive: nat, entry: nat, idx: nat,
                      maxPhys: nat)
    requires start.Valid() && LoadsInSpace(start.Segments()) && HeapEnds(k, r, m.pages)
    requires Placement(start.Pages(), m.pages, start.Segments(), start.layout.stackSize, recursive, entry, idx, maxPhys)
    ensures r == Failed(PageAlreadyMapped) ==>
              HeapReached(start.Segments(), start.layout.stackSize, entry, idx, maxPhys)
  {
    if r == Failed(PageAlreadyMapped) {
      var p :| p in m.pages && HeapPage(p);
      HeapTaken(m.Now(), start.Pages(), start.Segments(), start.layout.stackSize, recursive, entry, idx, maxPhys, p);
    }
  }

  /** The kernel's frame allocator, its mapper, and the heap. */
  method StartHeap(memoryMap: seq<Region>, pages: map<nat, nat>, tables: set<TableKey>)
    returns (r: MapResult, k: Mapper)
    requires Handover(memoryMap)
    ensures fresh(k) && fresh(k.frames) && k.Valid() && k.frames.memoryMap == memoryMap && HeapEnds(k, r, pages)
  {
    var frames := new BootInfoFrameAllocator(memoryMap);
    k := new Mapper(frames, pages, tables);
    r := InitHeap(k);
  }

  /**
   * From the firmware's list to the kernel heap.  The heap's frames, and those of the tables
   * for it, are in use for nothing else; segments, stack and window stay as they were; and
   * the heap fails only if something else reaches its pages, or fewer frames are left than
   * it has pages, and three for page tables.
   */
  method BootToHeap(e820: seq<E820Entry>, start: Start)
    returns (o: Outcome, r: MapResult, m: Machine?, k: Mapper?, entry: nat, idx: nat, maxPhys: nat)
    requires AllValid(e820) && start.Valid()
    requires forall s :: Created(e820, s) ==> Placed(s, start.layout.Marks())
    ensures o == Reached ==>
              && m != null && k != null && idx < ENTRIES && BaseOf(idx) != 0
              && Running(m, start.layout, start.Segments(), start.ram, entry, idx, maxPhys)
              && HeapStarted(m, k, r, start, entry, idx, maxPhys)
  {
    var recursive, tls;
    o, m, tls, recursive, entry, idx, maxPhys := BootloaderMain(e820, start);
    r, k := Panicked, null;
    if o == Reached {
      SeenHeaders(start.headers, start.layout.kernelSize);
      r, k := StartHeap(m.table.entries[..m.table.next], m.pages, m.tables);
      HeapIsStarted(m, k, r, start, recursive, entry, idx, maxPhys);
      BasePages(idx);
    }
  }
}

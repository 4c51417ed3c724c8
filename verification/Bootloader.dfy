/**
 * `bootloader_main`: the order of the steps from the firmware's memory list to the
 * jump into the kernel, with no addresses configured and the physical-memory
 * window enabled.
 */
module Bootloader {
  import opened Basics
  import opened Regions
  import opened MemoryMaps
  import opened FrameAllocator
  import opened BootInfo
  import opened Machine
  import opened Loader
  import opened Level4
  import opened KernelFrames

  /** Link-time addresses and configuration. */
  datatype Layout = Layout(kernelSize: nat, bootloaderStart: nat, bootloaderEnd: nat,
                           pageTableStart: nat, pageTableEnd: nat, stackSize: nat) {
    predicate Valid() {
      0 < kernelSize && bootloaderStart < bootloaderEnd && pageTableStart < pageTableEnd
    }

    function KernelMark(): Region
      requires Valid()
    {
      FromAddresses(KERNEL_START, KERNEL_START + kernelSize, Kernel)
    }

    function TableMark(): Region
      requires Valid()
    {
      FromAddresses(pageTableStart, pageTableEnd, PageTable)
    }

    /** The regions already in use when the bootloader starts. */
    function Marks(): seq<Region>
      requires Valid()
    {
      [FromAddresses(0, PAGE_SIZE, FrameZero),
       FromAddresses(bootloaderStart, bootloaderEnd, RegionType.Bootloader),
       KernelMark(),
       TableMark()]
    }
  }

  /** Where the source panics, and why. */
  datatype Outcome =
    | Reached
    | BadFirmwareMap
    | BadHeaders
    | NoFreeEntry
    | MarkRefused
    | ImageNotMapped
    | BootInfoFailed(mapping: MapResult)
    | KernelFailed(kernel: KernelResult)
    | NotCanonical
    | WindowFailed(mapping: MapResult)

  // ------------------------------------------------------------------
  // Marking
  // ------------------------------------------------------------------

  /** Some byte of frame `f` lies in [start, end). */
  predicate Touches(f: nat, start: nat, end: nat) { start < (f + 1) * PAGE_SIZE && f * PAGE_SIZE < end }

  /** What frame `f` is in use for when the bootloader starts. */
  predicate AreaOf(layout: Layout, f: nat, kind: RegionType) {
    match kind
    case FrameZero => f == 0
    case Bootloader => Touches(f, layout.bootloaderStart, layout.bootloaderEnd)
    case Kernel => Touches(f, KERNEL_START, KERNEL_START + layout.kernelSize)
    case PageTable => Touches(f, layout.pageTableStart, layout.pageTableEnd)
    case _ => false
  }

  /** The marks are for these areas. */
  lemma MarksAreAreas(layout: Layout, f: nat, kind: RegionType)
    requires layout.Valid()
    ensures AreaOf(layout, f, kind) <==>
            exists k :: 0 <= k < 4 && layout.Marks()[k].Covers(f) && layout.Marks()[k].kind == kind
    ensures layout.KernelMark().Covers(f) <==> AreaOf(layout, f, Kernel)
    ensures layout.TableMark().Covers(f) <==> AreaOf(layout, f, PageTable)
  {
    var marks := layout.Marks();
    FromAddressesCovers(0, PAGE_SIZE, FrameZero, f);
    FromAddressesCovers(layout.bootloaderStart, layout.bootloaderEnd, RegionType.Bootloader, f);
    FromAddressesCovers(KERNEL_START, KERNEL_START + layout.kernelSize, Kernel, f);
    FromAddressesCovers(layout.pageTableStart, layout.pageTableEnd, PageTable, f);
    assert marks[0].kind == FrameZero && marks[1].kind == RegionType.Bootloader;
    assert marks[2].kind == Kernel && marks[3].kind == PageTable;
    assert f == 0 <==> marks[0].Covers(f);
    assert AreaOf(layout, f, RegionType.Bootloader) <==> marks[1].Covers(f);
    assert AreaOf(layout, f, Kernel) <==> marks[2].Covers(f);
    assert AreaOf(layout, f, PageTable) <==> marks[3].Covers(f);
  }

  /** Every frame of these areas is on record for what it is in use for. */
  ghost predicate OnRecord(owner: map<nat, RegionType>, layout: Layout) {
    forall f: nat, kind :: AreaOf(layout, f, kind) ==> f in owner && owner[f] == kind
  }

  /** The frames of these areas have been handed over from usable to their type, and no others. */
  ghost predicate AreasMarked(s: seq<Region>, s': seq<Region>, layout: Layout) {
    && (forall f: nat, kind {:trigger AreaOf(layout, f, kind)} :: kind != Usable ==>
          Owners(s', f, kind) == Owners(s, f, kind) + (if AreaOf(layout, f, kind) then 1 else 0))
    && (forall f: nat :: IsUsable(s', f) <==> IsUsable(s, f) && forall kind :: !AreaOf(layout, f, kind))
  }

  lemma {:induction false} OwnersOfOne(marks: seq<Region>, f: nat, kind: RegionType)
    requires Disjoint(marks)
    ensures Owners(marks, f, kind) ==
            if exists k :: 0 <= k < |marks| && marks[k].Covers(f) && marks[k].kind == kind then 1 else 0
  {
    OwnersPositive(marks, f, kind);
    ClaimsBound(marks, f, kind);
    assert Claims(marks, f) <= 1;
  }

  lemma {:induction false} ClaimsBound(s: seq<Region>, f: nat, kind: RegionType)
    ensures Owners(s, f, kind) <= Claims(s, f)
  {
    if s != [] { ClaimsBound(s[1..], f, kind); }
  }

  lemma MarksTransferAreas(views: seq<seq<Region>>, layout: Layout)
    requires layout.Valid() && MarkRun(views, layout.Marks()) && Sound(views[0]) && Placed(views[0], layout.Marks())
    ensures AreasMarked(views[0], views[4], layout)
  {
    var marks := layout.Marks();
    forall f: nat, kind | kind != Usable
      ensures Owners(views[4], f, kind) == Owners(views[0], f, kind) + (if AreaOf(layout, f, kind) then 1 else 0)
    {
      MarksTransfer(views, marks, f, kind);
      OwnersOfOne(marks, f, kind);
      MarksAreAreas(layout, f, kind);
    }
    forall f: nat ensures IsUsable(views[4], f) <==> IsUsable(views[0], f) && forall kind :: !AreaOf(layout, f, kind) {
      MarksTransfer(views, marks, f, Usable);
      NoUsableMarks(marks, f);
      ClaimedIff(layout, f);
      assert Owners(views[0], f, Usable) <= 1 && Claims(marks, f) <= 1;
    }
  }

  lemma ClaimedIff(layout: Layout, f: nat)
    requires layout.Valid()
    ensures Claims(layout.Marks(), f) > 0 <==> exists kind :: AreaOf(layout, f, kind)
  {
    var marks := layout.Marks();
    if kind :| AreaOf(layout, f, kind) {
      MarksAreAreas(layout, f, kind);
      var k :| 0 <= k < 4 && marks[k].Covers(f) && marks[k].kind == kind;
      TotalAtLeastOne(marks, k, CoverWeight(f));
    } else {
      forall k | 0 <= k < 4 ensures !marks[k].Covers(f) { MarksAreAreas(layout, f, marks[k].kind); }
      TotalZero(marks, CoverWeight(f));
    }
  }

  /** The marks are recorded in the map, and none of their frames is offered. */
  ghost predicate InForce(s: seq<Region>, marks: seq<Region>) {
    forall k, f: nat {:trigger Assigned(s, f, marks[k].kind)} ::
      0 <= k < |marks| && marks[k].Covers(f) ==> Assigned(s, f, marks[k].kind)
  }

  lemma NoUsableMarks(marks: seq<Region>, f: nat)
    requires forall k :: 0 <= k < |marks| ==> marks[k].kind != Usable
    ensures Owners(marks, f, Usable) == 0
  {
    OwnersPositive(marks, f, Usable);
  }

  /** Completed marks are in force. */
  lemma MarksInForce(views: seq<seq<Region>>, marks: seq<Region>)
    requires MarkRun(views, marks) && Sound(views[0]) && Placed(views[0], marks)
    requires forall k :: 0 <= k < |marks| ==> marks[k].kind != Usable
    ensures Sound(views[|marks|]) && InForce(views[|marks|], marks)
  {
    MarksTransfer(views, marks, 0, Usable);
    forall k, f: nat | 0 <= k < |marks| && marks[k].Covers(f) ensures Assigned(views[|marks|], f, marks[k].kind) {
      MarksTransfer(views, marks, f, Usable);
      MarksTransfer(views, marks, f, marks[k].kind);
      NoUsableMarks(marks, f);
      TotalAtLeastOne(marks, k, CoverWeight(f));
      TotalAtLeastOne(marks, k, OwnerWeight(f, marks[k].kind));
      assert Owners(views[0], f, Usable) <= 1;
    }
  }

  /** Every marked frame is in use for the purpose it was marked with. */
  ghost predicate Records(owner: map<nat, RegionType>, marks: seq<Region>) {
    forall k, f: nat {:trigger marks[k].Covers(f)} :: 0 <= k < |marks| && marks[k].Covers(f) ==>
      f in owner && owner[f] == marks[k].kind
  }

  /** The frames in use after the marks, and nothing else. */
  lemma {:induction false} MarkedFrames(marks: seq<Region>) returns (owner: map<nat, RegionType>)
    requires Disjoint(marks)
    ensures Records(owner, marks)
    ensures forall f :: f in owner ==> exists k :: 0 <= k < |marks| && marks[k].Covers(f) && owner[f] == marks[k].kind
  {
    if marks == [] {
      return map[];
    }
    var rest, m := marks[1..], marks[0];
    DisjointTail(marks);
    var owner' := MarkedFrames(rest);
    owner := owner' + map f: nat | m.start <= f < m.end && m.Covers(f) :: m.kind;
    forall k, f: nat | 0 <= k < |marks| && marks[k].Covers(f) ensures f in owner && owner[f] == marks[k].kind {
      if k > 0 {
        RegionsApart(marks, k, 0, f);
        assert rest[k - 1].Covers(f);
      }
    }
    forall f | f in owner ensures exists k :: 0 <= k < |marks| && marks[k].Covers(f) && owner[f] == marks[k].kind {
      if m.Covers(f) {
        assert marks[0].Covers(f);
      } else {
        var k :| 0 <= k < |rest| && rest[k].Covers(f) && owner'[f] == rest[k].kind;
        assert marks[k + 1].Covers(f);
      }
    }
  }

  /** Exactly the frames of the ELF image. */
  ghost predicate HoldsImage(held: set<nat>, layout: Layout) {
    forall f: nat :: f in held <==> AreaOf(layout, f, Kernel)
  }

  /** Marks the used regions and sets up the machine; null where the source panics. */
  method Prepare(table: MemoryMap, layout: Layout, entryBytes: (map<nat, nat>, nat) -> byte,
                 pages: map<nat, nat>, tables: set<TableKey>, tableFrames: set<nat>, ram: nat -> byte, ghost top: nat)
    returns (m: Machine?)
    requires layout.Valid() && table.Valid() && Sound(table.Slice()) && Placed(table.Slice(), layout.Marks())
    requires Below(table.Slice(), top)
    requires forall f :: f in tableFrames ==> AreaOf(layout, f, PageTable)
    modifies table, table.entries
    ensures m == null ==> !Plan(old(table.Slice()), layout.Marks())
    ensures m != null ==>
              && fresh(m) && m.table == table && m.top == top && m.Valid()
              && m.ram == ram && m.pages == pages && m.tables == tables && m.tableFrames == tableFrames
              && OnRecord(m.owner, layout) && HoldsImage(m.held, layout)
    ensures m != null ==> AreasMarked(old(table.Slice()), table.Slice(), layout)
    ensures m != null ==> forall f :: f in m.owner ==> AreaOf(layout, f, m.owner[f])
  {
    ghost var marks := layout.Marks();
    var marked;
    ghost var views;
    marked, views := MarkAll(table, layout.Marks());
    if !marked {
      return null;
    }
    assert marks[..4] == marks;
    MarksInForce(views, marks);
    MarksKeepBelow(views, marks, top);
    MarksTransferAreas(views, layout);
    ghost var owner := MarkedFrames(marks);
    ghost var held := set f | f in owner && layout.KernelMark().Covers(f);
    FirstBooks(table.Slice(), layout, held, tableFrames, owner);
    RecordsAreAreas(owner, layout);
    m := new Machine(table, entryBytes, pages, tables, tableFrames, ram, held, owner, top);
  }

  lemma RecordsAreAreas(owner: map<nat, RegionType>, layout: Layout)
    requires layout.Valid() && Records(owner, layout.Marks())
    requires forall f :: f in owner ==>
               exists k :: 0 <= k < 4 && layout.Marks()[k].Covers(f) && owner[f] == layout.Marks()[k].kind
    ensures OnRecord(owner, layout) && forall f :: f in owner ==> AreaOf(layout, f, owner[f])
  {
    forall f: nat, kind | AreaOf(layout, f, kind) ensures f in owner && owner[f] == kind {
      MarksAreAreas(layout, f, kind);
    }
    forall f | f in owner ensures AreaOf(layout, f, owner[f]) {
      MarksAreAreas(layout, f, owner[f]);
    }
  }

  lemma FirstBooks(s: seq<Region>, layout: Layout, held: set<nat>, tableFrames: set<nat>, owner: map<nat, RegionType>)
    requires layout.Valid() && Sound(s) && Disjoint(layout.Marks()) && InForce(s, layout.Marks())
    requires Records(owner, layout.Marks())
    requires forall f :: f in owner ==>
               exists k :: 0 <= k < 4 && layout.Marks()[k].Covers(f) && owner[f] == layout.Marks()[k].kind
    requires held == set f | f in owner && layout.KernelMark().Covers(f)
    requires forall f :: f in tableFrames ==> AreaOf(layout, f, PageTable)
    ensures Books(s, held, tableFrames, owner)
    ensures HoldsImage(held, layout)
  {
    var marks := layout.Marks();
    assert marks[2] == layout.KernelMark() && marks[3] == layout.TableMark();
    forall f: nat ensures f in held <==> AreaOf(layout, f, Kernel) {
      MarksAreAreas(layout, f, Kernel);
      if marks[2].Covers(f) { assert f in owner; }
    }
    forall f | f in tableFrames ensures f in owner && owner[f] == PageTable && f !in held {
      MarksAreAreas(layout, f, PageTable);
      assert marks[3].Covers(f);
      RegionsApart(marks, 3, 2, f);
    }
    forall f | f in owner ensures Assigned(s, f, owner[f]) {
      var k :| 0 <= k < 4 && marks[k].Covers(f) && owner[f] == marks[k].kind;
      assert Assigned(s, f, marks[k].kind);
    }
  }

  /** The end of the highest region. */
  ghost predicate TopOf(s: seq<Region>, top: nat) {
    Below(s, top) && exists i :: 0 <= i < |s| && s[i].end * PAGE_SIZE == top
  }

  method MaxPhysAddr(table: MemoryMap) returns (ok: bool, max: nat)
    requires table.Valid()
    ensures ok <==> table.Slice() != []
    ensures ok ==> TopOf(table.Slice(), max)
  {
    if table.next == 0 {
      return false, 0;
    }
    ok, max := true, table.entries[0].end * PAGE_SIZE;
    var i := 1;
    while i < table.next
      invariant 1 <= i <= table.next
      invariant forall k :: 0 <= k < i ==> table.entries[k].end * PAGE_SIZE <= max
      invariant exists k :: 0 <= k < i && table.entries[k].end * PAGE_SIZE == max
    {
      if table.entries[i].end * PAGE_SIZE > max {
        max := table.entries[i].end * PAGE_SIZE;
      }
      i := i + 1;
    }
  }

  /** Small page `p` belongs to one of the 2 MiB pages first, ..., last. */
  predicate InHugeRange(first: nat, last: nat, p: nat) { first * 512 <= p < (last + 1) * 512 }

  /** The 2 MiB page around page `p` contains a byte of the ELF file, which lies where it is mapped. */
  predicate ImagePage(kernelSize: nat, p: nat) {
    KERNEL_START < (p / 512 + 1) * HUGE_SIZE && p / 512 * HUGE_SIZE < KERNEL_START + kernelSize
  }

  lemma ImagePageIff(kernelSize: nat, p: nat)
    requires 0 < kernelSize
    ensures ImagePage(kernelSize, p) <==>
            InHugeRange(KERNEL_START / HUGE_SIZE, (KERNEL_START + kernelSize - 1) / HUGE_SIZE, p)
  {}

  /** All 2 MiB pages of the ELF file are mapped. */
  ghost predicate ImageMapped(pages: map<nat, nat>, kernelSize: nat) {
    forall p: nat :: ImagePage(kernelSize, p) ==> p in pages
  }

  /** The page map without the ELF file. */
  ghost function WithoutImage(pages: map<nat, nat>, kernelSize: nat): map<nat, nat> {
    map p | p in pages && !ImagePage(kernelSize, p) :: pages[p]
  }

  /** Removes the 2 MiB identity mapping of the ELF file, and nothing else. */
  method UnmapImage(m: Machine, kernelSize: nat) returns (ok: bool)
    requires m.Valid() && 0 < kernelSize
    modifies m`pages, m`ram
    ensures m.Valid() && SameBytes(old(m.ram), m.ram, m.held)
    ensures ok <==> ImageMapped(old(m.pages), kernelSize)
    ensures ok ==> m.pages == WithoutImage(old(m.pages), kernelSize)
  {
    var first := KERNEL_START / HUGE_SIZE;
    var last := (KERNEL_START + kernelSize - 1) / HUGE_SIZE;
    forall p: nat ensures ImagePage(kernelSize, p) <==> InHugeRange(first, last, p) { ImagePageIff(kernelSize, p); }
    var h := first;
    while h <= last
      invariant first <= h <= last + 1 && m.Valid()
      invariant SameBytes(old(m.ram), m.ram, m.held) && Extends(m.pages, old(m.pages))
      invariant forall p: nat :: p in m.pages <==> p in old(m.pages) && !(first * 512 <= p < h * 512)
      invariant forall p: nat :: first * 512 <= p < h * 512 ==> p in old(m.pages)
      decreases last + 1 - h
    {
      if !(HugeMap(h, h).Keys <= m.pages.Keys) {
        ghost var p :| p in HugeMap(h, h).Keys && p !in m.pages;
        assert InHugeRange(first, last, p);
        return false;
      }
      m.pages := m.pages - HugeMap(h, h).Keys;
      m.WriteTables();
      h := h + 1;
    }
    return true;
  }

  // ------------------------------------------------------------------
  // The physical-memory window
  // ------------------------------------------------------------------

  /** Exactly the `n` pages from `base` on were added; they show physical memory from address zero. */
  ghost predicate WindowAdded(pages: map<nat, nat>, pages': map<nat, nat>, base: nat, n: nat) {
    && Extends(pages, pages')
    && (forall p :: p in pages' && p !in pages ==> base <= p < base + n)
    && (forall p :: base <= p < base + n ==> p !in pages && p in pages' && pages'[p] == p - base)
  }

  /** The 2 MiB page for frame `h` of a window at `offset`. */
  function HugePage(offset: nat, h: nat): nat { offset / HUGE_SIZE + h }

  lemma HugePageAt(offset: nat, h: nat)
    requires offset % HUGE_SIZE == 0
    ensures (offset + h * HUGE_SIZE) / HUGE_SIZE == HugePage(offset, h)
    ensures HugePage(offset, h) * 512 == offset / PAGE_SIZE + h * 512
  {}

  /** One more 2 MiB frame extends the visible part of memory by 512 pages. */
  lemma WindowNext(pages0: map<nat, nat>, pages: map<nat, nat>, pages': map<nat, nat>, base: nat, q: nat, h: nat)
    requires q * 512 == base + h * 512 && WindowAdded(pages0, pages, base, h * 512)
    requires pages' == pages + HugeMap(q, h) && HugeMap(q, h).Keys !! pages.Keys
    ensures WindowAdded(pages0, pages', base, (h + 1) * 512)
  {}

  /** Something is mapped, or was mapped, in 2 MiB page `q`. */
  ghost predicate HugeBusy(pages: map<nat, nat>, tables: set<TableKey>, q: nat) {
    TableKey(1, q) in tables || exists p :: p in pages && InHugeRange(q, q, p)
  }

  /** A page that is busy now and lies behind the window so far was busy before. */
  lemma BusyBefore(v0: Snapshot, v: Snapshot, base: nat, q: nat, h: nat)
    requires q * 512 == base + h * 512 && WindowAdded(v0.pages, v.pages, base, h * 512)
    requires forall t :: t in v.tables && t !in v0.tables ==> t.level > 1
    requires TableKey(1, q) in v.tables || !(HugeMap(q, h).Keys !! v.pages.Keys)
    ensures HugeBusy(v0.pages, v0.tables, q)
  {
    if TableKey(1, q) !in v.tables {
      var p :| p in HugeMap(q, h).Keys && p in v.pages;
      assert p in v0.pages && InHugeRange(q, q, p);
    }
  }

  /** Why mapping the window may fail, besides a want of frames. */
  ghost predicate WindowExplained(v: Snapshot, offset: nat, maxPhys: nat, o: Outcome) {
    && (o == NotCanonical ==> !Reaches(offset, LastHuge(maxPhys)))
    && (o == WindowFailed(Failed(PageAlreadyMapped)) ==>
          exists h: nat :: h <= LastHuge(maxPhys) && HugeBusy(v.pages, v.tables, HugePage(offset, h)))
  }

  /** The address for frame `h` lies within the address space. */
  predicate Reaches(offset: nat, h: nat) { offset + h * HUGE_SIZE < SPACE }

  lemma NextFits(offset: nat, h: nat)
    requires offset % HUGE_SIZE == 0 && Reaches(offset, h)
    ensures offset + (h + 1) * HUGE_SIZE <= SPACE
  {}

  /** The address of frame `h`, given that the one before it was accepted. */
  lemma WindowAddress(offset: nat, h: nat, va: nat)
    requires offset < SPACE && offset % HUGE_SIZE == 0 && va == Extended(offset) + h * HUGE_SIZE
    requires h > 0 ==> Reaches(offset, h - 1)
    ensures Accepted(va) <==> Reaches(offset, h)
    ensures Reaches(offset, h) ==> Low(va) / HUGE_SIZE == HugePage(offset, h)
    ensures HugePage(offset, h) * 512 == offset / PAGE_SIZE + h * 512
  {
    if h > 0 { NextFits(offset, h - 1); }
    SumAccepted(offset, h * HUGE_SIZE);
    HugePageAt(offset, h);
  }

  /** Maps the 2 MiB frames 0, ..., LastHuge at `offset`. */
  method MapWindow(m: Machine, offset: nat, maxPhys: nat) returns (o: Outcome)
    requires m.Valid() && offset < SPACE && offset % HUGE_SIZE == 0
    modifies m`tables, m`tableFrames, m`pages, m`ram, m`owner, m.table, m.table.entries
    ensures o == Reached || o == NotCanonical || (o.WindowFailed? && o.mapping != Mapped)
    ensures o == Reached ==>
              && m.Valid() && Reaches(offset, LastHuge(maxPhys))
              && WindowAdded(old(m.pages), m.pages, offset / PAGE_SIZE, (LastHuge(maxPhys) + 1) * 512)
    ensures SameBytes(old(m.ram), m.ram, m.held) && KeepsOwners(old(m.owner), m.owner)
    ensures WindowExplained(old(m.Now()), offset, maxPhys, o)
    ensures o.WindowFailed? ==> m.Explains(o.mapping)
  {
    var h := 0;
    while h <= LastHuge(maxPhys)
      invariant h <= LastHuge(maxPhys) + 1 && m.Valid()
      invariant SameBytes(old(m.ram), m.ram, m.held) && KeepsOwners(old(m.owner), m.owner)
      invariant WindowAdded(old(m.pages), m.pages, offset / PAGE_SIZE, h * 512)
      invariant h > 0 ==> Reaches(offset, h - 1)
      invariant forall t :: t in m.tables && t !in old(m.tables) ==> t.level > 1
    {
      var va := Extended(offset) + h * HUGE_SIZE;
      WindowAddress(offset, h, va);
      if !Accepted(va) {
        assert !Reaches(offset, LastHuge(maxPhys));
        return NotCanonical;
      }
      ghost var v, q := m.Now(), HugePage(offset, h);
      var r := m.MapHuge(Low(va) / HUGE_SIZE, h);
      if r != Mapped {
        if r == Failed(PageAlreadyMapped) { BusyBefore(old(m.Now()), v, offset / PAGE_SIZE, q, h); }
        return WindowFailed(r);
      }
      WindowNext(old(m.pages), v.pages, m.pages, offset / PAGE_SIZE, q, h);
      h := h + 1;
    }
    return Reached;
  }

  /** `physical_memory_offset + phys`, by its low bits. */
  function VirtForPhys(offset: nat, pa: nat): nat
    requires offset < SPACE
  {
    Low(Extended(offset) + pa)
  }

  /** Physical address `pa` is visible at `offset`. */
  ghost predicate Shows(pages: map<nat, nat>, offset: nat, pa: nat)
    requires offset < SPACE
  {
    && Accepted(Extended(offset) + pa)
    && PageOf(VirtForPhys(offset, pa)) in pages && Phys(pages, VirtForPhys(offset, pa)) == pa
  }

  /** Physical memory is visible at `offset`, up to and including address `maxPhys`. */
  ghost predicate WindowShows(pages: map<nat, nat>, offset: nat, maxPhys: nat)
    requires offset < SPACE
  {
    forall pa: nat :: pa <= maxPhys ==> Shows(pages, offset, pa)
  }

  lemma PagesFurther(k: nat, pa: nat)
    ensures (pa + k * PAGE_SIZE) / PAGE_SIZE == k + pa / PAGE_SIZE && (pa + k * PAGE_SIZE) % PAGE_SIZE == pa % PAGE_SIZE
  {}

  lemma WholePages(offset: nat)
    requires offset % HUGE_SIZE == 0
    ensures offset == offset / PAGE_SIZE * PAGE_SIZE
  {
    var q := offset / HUGE_SIZE;
    assert offset == q * 512 * PAGE_SIZE;
    PagesFurther(q * 512, 0);
  }

  lemma PageBound(maxPhys: nat, pa: nat)
    requires pa <= maxPhys
    ensures pa / PAGE_SIZE < (LastHuge(maxPhys) + 1) * 512
  {
    assert pa < (LastHuge(maxPhys) + 1) * 512 * PAGE_SIZE;
  }

  lemma WindowInSpace(offset: nat, maxPhys: nat)
    requires offset % HUGE_SIZE == 0 && Reaches(offset, LastHuge(maxPhys))
    ensures offset + maxPhys < SPACE
  {
    NextFits(offset, LastHuge(maxPhys));
  }

  lemma ShowsAddress(pages0: map<nat, nat>, pages: map<nat, nat>, base: nat, n: nat, pa: nat, va: nat)
    requires WindowAdded(pages0, pages, base, n) && pa / PAGE_SIZE < n && va == pa + base * PAGE_SIZE
    ensures PageOf(va) in pages && Phys(pages, va) == pa
  {
    PagesFurther(base, pa);
    assert pages[base + pa / PAGE_SIZE] == pa / PAGE_SIZE;
  }

  lemma ShowsPhysical(pages0: map<nat, nat>, pages: map<nat, nat>, offset: nat, maxPhys: nat)
    requires offset % HUGE_SIZE == 0 && Reaches(offset, LastHuge(maxPhys))
    requires WindowAdded(pages0, pages, offset / PAGE_SIZE, (LastHuge(maxPhys) + 1) * 512)
    ensures WindowShows(pages, offset, maxPhys)
  {
    var base, n := offset / PAGE_SIZE, (LastHuge(maxPhys) + 1) * 512;
    WholePages(offset);
    WindowInSpace(offset, maxPhys);
    forall pa: nat | pa <= maxPhys ensures Shows(pages, offset, pa) {
      SumAccepted(offset, pa);
      PageBound(maxPhys, pa);
      ShowsAddress(pages0, pages, base, n, pa, offset + pa);
    }
  }

  /** In terms of page table and memory alone: what is read at the offset plus `pa` is byte `pa` of memory. */
  lemma WindowMeaning(v: Snapshot, offset: nat, maxPhys: nat, pa: nat, va: nat)
    requires offset < SPACE && WindowShows(v.pages, offset, maxPhys)
    requires pa <= maxPhys && va == Low(Extended(offset) + pa)
    ensures Accepted(Extended(offset) + pa)
    ensures va / 4096 in v.pages && v.ram(v.pages[va / 4096] * 4096 + va % 4096) == v.ram(pa)
  {
    assert Shows(v.pages, offset, pa);
  }

  /** Every byte of frame `f` is visible at `offset`. */
  ghost predicate FrameShown(pages: map<nat, nat>, offset: nat, f: nat)
    requires offset < SPACE
  {
    forall o: nat :: o < PAGE_SIZE ==> Shows(pages, offset, Cell(f, o))
  }

  lemma ShownFrame(pages: map<nat, nat>, offset: nat, maxPhys: nat, f: nat)
    requires offset < SPACE && WindowShows(pages, offset, maxPhys) && (f + 1) * PAGE_SIZE <= maxPhys
    ensures FrameShown(pages, offset, f)
  {}

  // ------------------------------------------------------------------
  // The guard page
  // ------------------------------------------------------------------

  /** The page after the first of a level-4 entry. */
  function GuardPage(entry: nat): nat { BaseOf(entry) / PAGE_SIZE + 1 }

  /** The headers the loader maps lie within the 48-bit space, and none spans `entry`. */
  ghost predicate ClearOf(segments: seq<Segment>, entry: nat) {
    && LoadsInSpace(segments)
    && forall k :: 0 <= k < |segments| ==> !Spans(segments[k], entry)
  }

  predicate LoadsInSpace(segments: seq<Segment>) {
    forall k :: 0 <= k < |segments| && segments[k].kind == Load ==>
      InSpace(segments[k]) && segments[k].fileSize <= segments[k].memSize
  }

  /** A page of an entry that no segment spans is no segment's page. */
  lemma OutsideSegments(segments: seq<Segment>, entry: nat, p: nat)
    requires ClearOf(segments, entry) && entry < ENTRIES
    requires BaseOf(entry) / PAGE_SIZE <= p < BaseOf(entry + 1) / PAGE_SIZE
    ensures !InSegments(segments, |segments|, p)
  {
    if i :| 0 <= i < |segments| && segments[i].kind == Load && segments[i].Needs(p) {
      SegmentPageSpanned(segments[i], p, entry);
    }
  }

  /** Mapping the kernel leaves the guard page alone. */
  lemma GuardStaysFree(segments: seq<Segment>, entry: nat, stackSize: nat, pages: map<nat, nat>, pages': map<nat, nat>)
    requires ClearOf(segments, entry) && 0 < entry < ENTRIES && GuardPage(entry) !in pages
    requires forall p :: p in pages' && p !in pages ==>
               Footprint(segments, |segments|, p) || GuardPage(entry) < p <= GuardPage(entry) + stackSize
    ensures GuardPage(entry) !in pages'
  {
    EntryPages(entry);
    OutsideSegments(segments, entry, GuardPage(entry));
  }

  /** The stack leaves room for boot info and guard page in its entry. */
  predicate StackFits(stackSize: nat) { stackSize + 2 <= LEVEL_4_SIZE / PAGE_SIZE }

  /** Boot info, guard page and stack of entry `entry`. */
  predicate InStackArea(entry: nat, stackSize: nat, p: nat) {
    BaseOf(entry) / PAGE_SIZE <= p <= GuardPage(entry) + stackSize
  }

  /** With a stack that fits the entry, boot info, guard page and stack are all clear of the kernel's segments. */
  lemma StackOutsideSegments(segments: seq<Segment>, entry: nat, stackSize: nat, p: nat)
    requires ClearOf(segments, entry) && entry < ENTRIES && StackFits(stackSize) && InStackArea(entry, stackSize, p)
    ensures !InSegments(segments, |segments|, p)
  {
    BasePages(entry);
    BasePages(entry + 1);
    OutsideSegments(segments, entry, p);
  }

  /** Where an entry's pages are: apart from those of lower entries and from the temporary page. */
  lemma EntryPages(entry: nat)
    requires 0 < entry
    ensures LEVEL_4_SIZE / PAGE_SIZE <= BaseOf(entry) / PAGE_SIZE
    ensures GuardPage(entry) < BaseOf(entry + 1) / PAGE_SIZE
    ensures BaseOf(entry) / PAGE_SIZE != TEMP_PAGE && GuardPage(entry) != TEMP_PAGE
  {
    BasePages(entry);
    BasePages(entry + 1);
  }

  // ------------------------------------------------------------------
  // The kernel's view
  // ------------------------------------------------------------------

  /** A page is mapped to a frame allocated for the given purpose. */
  ghost predicate GivenTo(v: Snapshot, p: nat, kind: RegionType) {
    p in v.pages && v.pages[p] in v.owner && v.owner[v.pages[p]] == kind
  }

  /** Every page of the stack has a frame of its own. */
  ghost predicate StackMapped(v: Snapshot, guard: nat, size: nat) {
    && (forall p :: guard < p <= guard + size ==> GivenTo(v, p, KernelStack))
    && (forall p, q :: guard < p < q <= guard + size && p in v.pages && q in v.pages ==> v.pages[p] != v.pages[q])
  }

  /** Boot info, guard page and stack are clear of the segments, provided that they fit their entry. */
  ghost predicate Apart(segments: seq<Segment>, entry: nat, stackSize: nat) {
    StackFits(stackSize) ==> forall p :: InStackArea(entry, stackSize, p) ==> !InSegments(segments, |segments|, p)
  }

  /** All that the kernel relies on when control reaches it. */
  ghost predicate Ready(v: Snapshot, layout: Layout, segments: seq<Segment>, image: nat -> byte, entry: nat)
    requires layout.Valid()
  {
    && AllLoaded(v, segments, |segments|, image)
    && (forall a: nat :: AreaOf(layout, a / PAGE_SIZE, Kernel) ==> v.ram(a) == image(a))
    && GivenTo(v, BaseOf(entry) / PAGE_SIZE, RegionType.BootInfo)
    && GuardPage(entry) !in v.pages
    && StackMapped(v, GuardPage(entry), layout.stackSize)
    && StackUnshared(v.pages, segments, GuardPage(entry), layout.stackSize)
    && Apart(segments, entry, layout.stackSize)
    && OnRecord(v.owner, layout)
  }

  /** Mapping more pages, other than the guard page, keeps everything ready. */
  lemma ReadyKept(v: Snapshot, v': Snapshot, layout: Layout, segments: seq<Segment>, image: nat -> byte, entry: nat)
    requires layout.Valid() && Ready(v, layout, segments, image, entry) && Retains(v, v') && Extends(v.pages, v'.pages)
    requires GuardPage(entry) !in v'.pages && forall f: nat :: AreaOf(layout, f, Kernel) ==> f in v.held
    ensures Ready(v', layout, segments, image, entry)
  {
    AllStillLoaded(v, v', segments, image);
    StackKept(v, v', GuardPage(entry), layout.stackSize);
    UnsharedKept(v, v', segments, image, GuardPage(entry), layout.stackSize);
  }

  lemma UnsharedKept(v: Snapshot, v': Snapshot, segments: seq<Segment>, image: nat -> byte, guard: nat, size: nat)
    requires AllLoaded(v, segments, |segments|, image) && StackMapped(v, guard, size)
    requires StackUnshared(v.pages, segments, guard, size) && Extends(v.pages, v'.pages)
    ensures StackUnshared(v'.pages, segments, guard, size)
  {
    forall i, va, p | 0 <= i < |segments| && segments[i].kind == Load
                      && segments[i].vaddr <= va < segments[i].vaddr + segments[i].memSize
                      && guard < p <= guard + size && PageOf(va) in v'.pages && p in v'.pages
      ensures v'.pages[PageOf(va)] != v'.pages[p]
    {
      assert Loaded(v, segments[i], image) && Reads(v, segments[i], image, va) && GivenTo(v, p, KernelStack);
    }
  }

  lemma StackKept(v: Snapshot, v': Snapshot, guard: nat, size: nat)
    requires StackMapped(v, guard, size) && Extends(v.pages, v'.pages) && KeepsOwners(v.owner, v'.owner)
    ensures StackMapped(v', guard, size)
  {
    forall p | guard < p <= guard + size
      ensures p in v.pages && GivenTo(v', p, KernelStack) && v'.pages[p] == v.pages[p]
    {
      assert GivenTo(v, p, KernelStack);
    }
  }

  /** Before the kernel is mapped, the boot info has been. */
  ghost predicate BootInfoAdded(pages: map<nat, nat>, pages': map<nat, nat>, entry: nat) {
    var base := BaseOf(entry) / PAGE_SIZE;
    base !in pages && base in pages' && pages' == pages[base := pages'[base]]
  }

  /** Only addresses of the first entry are mapped. */
  ghost predicate LowPages(pages: map<nat, nat>) {
    forall p :: p in pages ==> p < LEVEL_4_SIZE / PAGE_SIZE
  }

  /** The page table the bootloader starts with serves the first entry only. */
  ghost predicate LowOnly(pages: map<nat, nat>, tables: set<TableKey>) {
    LowPages(pages) && forall t :: t in tables && t.level == 1 ==> t.prefix < LEVEL_4_SIZE / HUGE_SIZE
  }

  /** Unmaps the ELF file and maps a frame for the boot info. */
  method MapBootInfo(m: Machine, layout: Layout, entry: nat) returns (o: Outcome)
    requires m.Valid() && layout.Valid() && 0 < entry < ENTRIES && LowPages(m.pages)
    modifies m, m.table, m.table.entries
    ensures o == Reached || o == ImageNotMapped || o.BootInfoFailed?
    ensures o == ImageNotMapped <==> !ImageMapped(old(m.pages), layout.kernelSize)
    ensures o.BootInfoFailed? ==>
              o.mapping != Mapped && o.mapping != Failed(PageAlreadyMapped) && m.Explains(o.mapping)
    ensures o == Reached ==> m.Valid() && Retains(old(m.Now()), m.Now())
    ensures o == Reached ==> GivenTo(m.Now(), BaseOf(entry) / PAGE_SIZE, RegionType.BootInfo)
    ensures o == Reached ==> BootInfoAdded(WithoutImage(old(m.pages), layout.kernelSize), m.pages, entry)
    ensures o == Reached ==> Served(old(m.tables), m.Now())
  {
    var unmapped := UnmapImage(m, layout.kernelSize);
    if !unmapped {
      return ImageNotMapped;
    }
    EntryPages(entry);
    var mapped := MapFreshPage(m, BaseOf(entry) / PAGE_SIZE, RegionType.BootInfo);
    return if mapped == Mapped then Reached else BootInfoFailed(mapped);
  }

  /** Why mapping the kernel may meet a mapped page. */
  ghost predicate KernelCollides(pages: map<nat, nat>, segments: seq<Segment>, entry: nat, stackSize: nat) {
    || !Clear(pages, segments, |segments|)
    || !StackFits(stackSize)
    || GuardPage(entry) < TEMP_PAGE <= GuardPage(entry) + stackSize
  }

  lemma ClearWithBootInfo(pages: map<nat, nat>, pages': map<nat, nat>, segments: seq<Segment>, entry: nat)
    requires 0 < entry < ENTRIES && BootInfoAdded(pages, pages', entry) && ClearOf(segments, entry)
    ensures Clear(pages, segments, |segments|) <==> Clear(pages', segments, |segments|)
  {
    EntryPages(entry);
    OutsideSegments(segments, entry, BaseOf(entry) / PAGE_SIZE);
    forall i | 0 <= i < |segments| && segments[i].kind == Load
      ensures Conflict(pages, segments[i]) <==> Conflict(pages', segments[i])
    {
      assert !segments[i].Needs(BaseOf(entry) / PAGE_SIZE);
    }
  }

  /** Nothing but the temporary page can be in the way of a stack that fits its entry. */
  lemma StackCollides(pages: map<nat, nat>, pages': map<nat, nat>, segments: seq<Segment>, entry: nat, stackSize: nat,
                      p: nat)
    requires 0 < entry < ENTRIES && BootInfoAdded(pages, pages', entry) && LowPages(pages) && ClearOf(segments, entry)
    requires StackFits(stackSize) && GuardPage(entry) < p <= GuardPage(entry) + stackSize
    requires p in pages' || Footprint(segments, |segments|, p)
    ensures p == TEMP_PAGE
  {
    EntryPages(entry);
    StackOutsideSegments(segments, entry, stackSize, p);
  }

  lemma CollisionExplained(pages: map<nat, nat>, pages': map<nat, nat>, segments: seq<Segment>, entry: nat,
                           stackSize: nat)
    requires 0 < entry < ENTRIES && BootInfoAdded(pages, pages', entry) && LowPages(pages) && ClearOf(segments, entry)
    requires Clear(pages', segments, |segments|) ==>
               exists p :: GuardPage(entry) < p <= GuardPage(entry) + stackSize
                           && (p in pages' || Footprint(segments, |segments|, p))
    ensures KernelCollides(pages, segments, entry, stackSize)
  {
    if Clear(pages, segments, |segments|) && StackFits(stackSize) {
      ClearWithBootInfo(pages, pages', segments, entry);
      var p :| GuardPage(entry) < p <= GuardPage(entry) + stackSize
               && (p in pages' || Footprint(segments, |segments|, p));
      StackCollides(pages, pages', segments, entry, stackSize, p);
    }
  }

  /** A failed `map_kernel` has one of these reasons. */
  ghost predicate KernelFailure(m: Machine, r: KernelResult, pages: map<nat, nat>, segments: seq<Segment>, entry: nat,
                                stackSize: nat)
    reads m, m.table, m.table.entries
  {
    match r
    case Ok(_, _) => false
    case MultipleTlsSegments => TwoTls(segments)
    case MappingFailed(PageAlreadyMapped) => KernelCollides(pages, segments, entry, stackSize)
    case _ => KernelExplains(m, r)
  }

  /** The pages of boot info and stack. */
  predicate StackPage(entry: nat, stackSize: nat, p: nat) {
    var base := BaseOf(entry) / PAGE_SIZE;
    p == base || base + 2 <= p < base + 2 + stackSize
  }

  /** Exactly the pages of segments, boot info and stack were added. */
  ghost predicate KernelPages(pages: map<nat, nat>, pages': map<nat, nat>, segments: seq<Segment>, entry: nat,
                              stackSize: nat) {
    && Extends(pages, pages')
    && forall p: nat :: p in pages' <==>
         p in pages || Footprint(segments, |segments|, p) || StackPage(entry, stackSize, p)
  }

  /** The boot-info page and `map_kernel`. */
  method LoadKernel(m: Machine, layout: Layout, segments: seq<Segment>, entry: nat)
    returns (o: Outcome, tls: Option<Segment>)
    requires m.Valid() && layout.Valid() && 0 < entry < ENTRIES && OnRecord(m.owner, layout)
    requires HoldsImage(m.held, layout) && LowPages(m.pages)
    requires AllWellFormed(segments, layout.kernelSize) && ClearOf(segments, entry)
    modifies m, m.table, m.table.entries
    ensures o == Reached || o == ImageNotMapped || o.BootInfoFailed? || o.KernelFailed?
    ensures o == ImageNotMapped <==> !ImageMapped(old(m.pages), layout.kernelSize)
    ensures o.BootInfoFailed? ==>
              o.mapping != Mapped && o.mapping != Failed(PageAlreadyMapped) && m.Explains(o.mapping)
    ensures var pages := WithoutImage(old(m.pages), layout.kernelSize);
            && (o.KernelFailed? ==> KernelFailure(m, o.kernel, pages, segments, entry, layout.stackSize))
            && (o == Reached ==> Clear(pages, segments, |segments|))
            && (o == Reached ==> KernelPages(pages, m.pages, segments, entry, layout.stackSize))
    ensures o == Reached ==> m.Valid() && Ready(m.Now(), layout, segments, old(m.ram), entry)
    ensures o == Reached ==> TlsFound(segments, |segments|, tls)
    ensures o == Reached ==> old(m.held) <= m.held && Served(old(m.tables), m.Now())
  {
    tls := None;
    o := MapBootInfo(m, layout, entry);
    if o == Reached {
      ghost var v := m.Now();
      ghost var pages := WithoutImage(old(m.pages), layout.kernelSize);
      o, tls := RunMapKernel(m, layout, segments, entry, old(m.Now()).(pages := pages));
      if o == Reached { ServedOn(old(m.tables), v, m.Now()); }
    }
  }

  /** `map_kernel`, started after the boot info was mapped; `v0` is the state between unmapping and that. */
  method RunMapKernel(m: Machine, layout: Layout, segments: seq<Segment>, entry: nat, ghost v0: Snapshot)
    returns (o: Outcome, tls: Option<Segment>)
    requires m.Valid() && layout.Valid() && 0 < entry < ENTRIES
    requires HoldsImage(v0.held, layout) && OnRecord(v0.owner, layout) && LowPages(v0.pages) && Retains(v0, m.Now())
    requires BootInfoAdded(v0.pages, m.pages, entry)
    requires GivenTo(m.Now(), BaseOf(entry) / PAGE_SIZE, RegionType.BootInfo)
    requires AllWellFormed(segments, layout.kernelSize) && ClearOf(segments, entry)
    modifies m, m.table, m.table.entries
    ensures o == Reached || o.KernelFailed?
    ensures o.KernelFailed? ==> KernelFailure(m, o.kernel, v0.pages, segments, entry, layout.stackSize)
    ensures o == Reached ==> m.Valid() && Ready(m.Now(), layout, segments, v0.ram, entry)
    ensures o == Reached ==> v0.held <= m.held && Traced(old(m.Now()), m.Now())
    ensures o == Reached ==> KernelPages(v0.pages, m.pages, segments, entry, layout.stackSize)
    ensures o == Reached ==> Clear(v0.pages, segments, |segments|) && TlsFound(segments, |segments|, tls)
  {
    ghost var v1 := m.Now();
    ImageIsHeld(layout, v0);
    ImageStays(v0, v1, layout.kernelSize);
    var r := MapKernel(m, GuardPage(entry), layout.stackSize, segments, layout.kernelSize);
    if !r.Ok? {
      if r == MappingFailed(PageAlreadyMapped) {
        CollisionExplained(v0.pages, v1.pages, segments, entry, layout.stackSize);
      }
      return KernelFailed(r), None;
    }
    ClearWithBootInfo(v0.pages, v1.pages, segments, entry);
    BecomesReady(v0, v1, m.Now(), layout, segments, entry);
    return Reached, r.tls;
  }

  /** From the state after unmapping (0) over the state with the boot info (1) to the loaded kernel. */
  lemma BecomesReady(v0: Snapshot, v1: Snapshot, v: Snapshot, layout: Layout, segments: seq<Segment>, entry: nat)
    requires layout.Valid() && 0 < entry < ENTRIES && OnRecord(v0.owner, layout)
    requires HoldsImage(v0.held, layout) && LowPages(v0.pages)
    requires Retains(v0, v1) && Retains(v1, v) && Extends(v1.pages, v.pages)
    requires BootInfoAdded(v0.pages, v1.pages, entry) && GivenTo(v1, BaseOf(entry) / PAGE_SIZE, RegionType.BootInfo)
    requires AllWellFormed(segments, layout.kernelSize) && ClearOf(segments, entry)
    requires AllLoaded(v, segments, |segments|, v1.ram)
    requires forall p: nat :: p in v.pages && p !in v1.pages <==>
               Footprint(segments, |segments|, p) || GuardPage(entry) < p <= GuardPage(entry) + layout.stackSize
    requires StackFrames(v1.held, v, GuardPage(entry), layout.stackSize)
    requires StackUnshared(v.pages, segments, GuardPage(entry), layout.stackSize)
    ensures KernelPages(v0.pages, v.pages, segments, entry, layout.stackSize)
    ensures Ready(v, layout, segments, v0.ram, entry)
  {
    EntryPages(entry);
    GuardStaysFree(segments, entry, layout.stackSize, v1.pages, v.pages);
    ImageIsHeld(layout, v0);
    SegmentsFromImage(v, segments, v0.ram, v1.ram, layout.kernelSize, v0);
    ApartFromSegments(segments, entry, layout.stackSize);
    StackIsMapped(v1.held, v, GuardPage(entry), layout.stackSize);
  }

  lemma StackIsMapped(held0: set<nat>, v: Snapshot, guard: nat, size: nat)
    requires StackFrames(held0, v, guard, size)
    ensures StackMapped(v, guard, size)
  {}

  lemma ApartFromSegments(segments: seq<Segment>, entry: nat, stackSize: nat)
    requires entry < ENTRIES && ClearOf(segments, entry)
    ensures Apart(segments, entry, stackSize)
  {
    if StackFits(stackSize) {
      forall p | InStackArea(entry, stackSize, p) ensures !InSegments(segments, |segments|, p) {
        StackOutsideSegments(segments, entry, stackSize, p);
      }
    }
  }

  lemma ImageIsHeld(layout: Layout, v: Snapshot)
    requires HoldsImage(v.held, layout) && OnRecord(v.owner, layout)
    ensures ImageHeld(v, layout.kernelSize)
  {
    var end := KERNEL_START + layout.kernelSize;
    forall f: nat | KERNEL_START < (f + 1) * PAGE_SIZE && f * PAGE_SIZE < end ensures KernelFrame(v, f) {
      assert AreaOf(layout, f, Kernel);
    }
  }

  lemma SegmentsFromImage(v: Snapshot, segments: seq<Segment>, image: nat -> byte, image': nat -> byte, size: nat,
                          v0: Snapshot)
    requires AllLoaded(v, segments, |segments|, image') && AllWellFormed(segments, size)
    requires ImageHeld(v0, size) && SameBytes(image, image', v0.held)
    ensures AllLoaded(v, segments, |segments|, image)
  {
    forall i | 0 <= i < |segments| && segments[i].kind == Load ensures Loaded(v, segments[i], image) {
      LoadedFrom(v, segments[i], image, image', size, v0);
    }
  }

  // ------------------------------------------------------------------
  // Handing over
  // ------------------------------------------------------------------

  lemma HandoverAfterSort(before: seq<Region>, after: seq<Region>)
    requires Sound(before) && Packed(before, after)
    ensures Handover(after) && forall f: nat, kind :: Owners(after, f, kind) == Owners(before, f, kind)
  {
    OwnershipPacked(before, after);
    NoInvertedPacked(before, after);
    forall f: nat ensures Owners(after, f, Usable) <= 1 {
      assert Owners(before, f, Usable) <= 1;
    }
  }

  /** The final sort. */
  method SortForKernel(m: Machine)
    requires m.Valid()
    modifies m.table, m.table.entries
    ensures m.Valid() && Handover(m.table.Slice())
  {
    ghost var before := m.table.Slice();
    m.table.Sort();
    HandoverAfterSort(before, m.table.Slice());
    BelowPacked(before, m.table.Slice(), m.top);
    forall f | f in m.owner ensures Assigned(m.table.Slice(), f, m.owner[f]) {
      assert Assigned(before, f, m.owner[f]);
    }
  }

  /** Every frame in use or still offered. */
  ghost predicate Known(m: Machine, f: nat)
    requires m.table.Valid()
    reads m, m.table, m.table.entries
  {
    f in m.owner || IsUsable(m.table.Slice(), f)
  }

  /** All of them are visible through the window. */
  ghost predicate AllShown(m: Machine, offset: nat)
    requires offset < SPACE && m.table.Valid()
    reads m, m.table, m.table.entries
  {
    forall f: nat :: Known(m, f) ==> FrameShown(m.pages, offset, f)
  }

  lemma KnownFramesShown(m: Machine, offset: nat)
    requires m.Valid() && offset < SPACE && WindowShows(m.pages, offset, m.top)
    ensures AllShown(m, offset)
  {
    forall f: nat | Known(m, f) ensures FrameShown(m.pages, offset, f) {
      if f in m.owner {
        assert Assigned(m.table.Slice(), f, m.owner[f]);
        OwnedBelow(m.table.Slice(), f, m.owner[f], m.top);
      } else {
        OwnedBelow(m.table.Slice(), f, Usable, m.top);
      }
      ShownFrame(m.pages, offset, m.top, f);
    }
  }

  lemma GuardBelowWindow(entry: nat, idx: nat)
    requires entry < idx < ENTRIES
    ensures GuardPage(entry) < BaseOf(idx) / PAGE_SIZE && BaseOf(idx) % HUGE_SIZE == 0 && BaseOf(idx) < SPACE
  {
    BasePages(entry);
    BasePages(idx);
  }

  /** Exactly the pages of the window were added. */
  ghost predicate WindowPlaced(pages: map<nat, nat>, pages': map<nat, nat>, idx: nat, maxPhys: nat) {
    forall p: nat :: p in pages' && p !in pages <==> InWindow(idx, maxPhys, p)
  }

  /** Maps the physical-memory window above the boot-info entry, and sorts the map for the kernel. */
  method FinishBoot(m: Machine, layout: Layout, segments: seq<Segment>, ghost image: nat -> byte, entry: nat, idx: nat,
                    maxPhys: nat)
    returns (o: Outcome)
    requires m.Valid() && layout.Valid() && entry < idx < ENTRIES && m.top == maxPhys
    requires Ready(m.Now(), layout, segments, image, entry)
    requires forall f: nat :: AreaOf(layout, f, Kernel) ==> f in m.held
    modifies m, m.table, m.table.entries
    ensures o == Reached || o == NotCanonical || (o.WindowFailed? && o.mapping != Mapped)
    ensures o == Reached ==> Running(m, layout, segments, image, entry, idx, maxPhys)
    ensures o == Reached ==> WindowPlaced(old(m.pages), m.pages, idx, maxPhys) && Extends(old(m.pages), m.pages)
    ensures WindowExplained(old(m.Now()), BaseOf(idx), maxPhys, o)
    ensures o.WindowFailed? ==> m.Explains(o.mapping)
  {
    GuardBelowWindow(entry, idx);
    o := MapWindow(m, BaseOf(idx), maxPhys);
    if o != Reached {
      return;
    }
    ShowsPhysical(old(m.pages), m.pages, BaseOf(idx), maxPhys);
    ReadyKept(old(m.Now()), m.Now(), layout, segments, image, entry);
    SortForKernel(m);
    KnownFramesShown(m, BaseOf(idx));
  }

  /** What holds when control reaches the kernel. */
  ghost predicate Running(m: Machine, layout: Layout, segments: seq<Segment>, image: nat -> byte, entry: nat,
                          idx: nat, maxPhys: nat)
    requires layout.Valid() && idx < ENTRIES
    reads m, m.table, m.table.entries
  {
    && m.Valid() && Ready(m.Now(), layout, segments, image, entry) && Handover(m.table.Slice())
    && WindowShows(m.pages, BaseOf(idx), maxPhys) && AllShown(m, BaseOf(idx))
    && (forall f: nat :: AreaOf(layout, f, Kernel) ==> f in m.held)
  }

  // ------------------------------------------------------------------
  // Level-4 entries
  // ------------------------------------------------------------------

  /** The recursive entry, the boot info's and those of the window lie in this order, and no segment spans any. */
  ghost predicate EntriesClear(segments: seq<Segment>, recursive: nat, entry: nat, idx: nat, num: nat) {
    && 0 < recursive < entry < idx && idx + num <= ENTRIES
    && forall i, k :: (i == recursive || i == entry || idx <= i < idx + num) && 0 <= k < |segments| ==>
         !Spans(segments[k], i)
  }

  /** The entries in use when the kernel's headers have been read. */
  ghost function InUse(segments: seq<Segment>): (s: seq<bool>)
    ensures |s| == ENTRIES
  {
    seq(ENTRIES, i requires 0 <= i < ENTRIES => i == 0 || exists k :: 0 <= k < |segments| && Spans(segments[k], i))
  }

  lemma FreeEntriesClear(segments: seq<Segment>, recursive: nat, entry: nat, idx: nat, num: nat)
    requires recursive < entry < idx && FreeWindow(InUse(segments), recursive, 1)
    requires FreeWindow(InUse(segments), entry, 1) && FreeWindow(InUse(segments), idx, num)
    ensures EntriesClear(segments, recursive, entry, idx, num)
  {
    assert !InUse(segments)[recursive];
    forall i, k | (i == recursive || i == entry || idx <= i < idx + num) && 0 <= k < |segments|
      ensures !Spans(segments[k], i)
    {
      assert !InUse(segments)[i];
    }
  }

  /** The entry of the temporary page. */
  const TEMP_ENTRY: nat := 31

  /** All lower entries are in use, but not this one. */
  ghost predicate FirstFree(segments: seq<Segment>, entry: nat)
    requires entry < ENTRIES
  {
    !InUse(segments)[entry] && forall i :: 0 <= i < entry ==> InUse(segments)[i]
  }

  /**
   * The recursive mapping takes the temporary page's entry exactly if that is the first free
   * one; the temporary page would then name a page table.
   */
  lemma RecursiveHitsTempIff(segments: seq<Segment>, s': seq<bool>, recursive: nat)
    requires Reserves(InUse(segments), s', 1, recursive)
    ensures TEMP_PAGE * PAGE_SIZE == 0xf_eeef_eee0_00 && Index(TEMP_PAGE * PAGE_SIZE) == TEMP_ENTRY
    ensures recursive == TEMP_ENTRY <==> FirstFree(segments, TEMP_ENTRY)
  {
    var s := InUse(segments);
    forall i: nat | i < recursive ensures s[i] {
      assert !FreeWindow(s, i, 1);
    }
    assert !s[recursive];
  }

  // ------------------------------------------------------------------
  // Collisions in the window
  // ------------------------------------------------------------------

  /** Why the window may meet a mapped page. */
  ghost predicate WindowCollides(segments: seq<Segment>, stackSize: nat, idx: nat, maxPhys: nat) {
    || maxPhys % LEVEL_4_SIZE == 0
    || !StackFits(stackSize)
    || (InWindow(idx, maxPhys, TEMP_PAGE) && exists i :: 0 <= i < |segments| && segments[i].HasTail())
  }

  /** The reserved entry that contains 2 MiB page number `h` of the window. */
  lemma EntryOfHuge(idx: nat, num: nat, h: nat, q: nat) returns (e: nat)
    requires h < num * 0x4_0000 && q == HugePage(BaseOf(idx), h)
    ensures idx <= e < idx + num
    ensures BaseOf(e) / PAGE_SIZE <= q * 512 && (q + 1) * 512 <= BaseOf(e + 1) / PAGE_SIZE
  {
    e := idx + h / 0x4_0000;
    BasePages(idx);
    BasePages(e);
    BasePages(e + 1);
  }

  lemma HugesReserved(maxPhys: nat, h: nat)
    requires maxPhys % LEVEL_4_SIZE != 0 && h <= LastHuge(maxPhys)
    ensures h < WindowEntries(maxPhys) * 0x4_0000
  {
    WindowSize(maxPhys);
  }

  /** Of all pages mapped so far only the temporary one can lie in an entry behind the stack's that no segment spans. */
  lemma OnlyTempBehind(pages: map<nat, nat>, pages': map<nat, nat>, segments: seq<Segment>, entry: nat, stackSize: nat,
                       e: nat, p: nat)
    requires LowPages(pages) && 0 < entry < e < ENTRIES && ClearOf(segments, e) && StackFits(stackSize)
    requires KernelPages(pages, pages', segments, entry, stackSize) && p in pages'
    requires BaseOf(e) / PAGE_SIZE <= p < BaseOf(e + 1) / PAGE_SIZE
    ensures p == TEMP_PAGE && exists i :: 0 <= i < |segments| && segments[i].HasTail()
  {
    BasePages(entry);
    BasePages(e);
    OutsideSegments(segments, e, p);
    assert Footprint(segments, |segments|, p);
  }

  lemma CollisionInWindow(pages: map<nat, nat>, tables: set<TableKey>, v: Snapshot, segments: seq<Segment>,
                          entry: nat, idx: nat, maxPhys: nat, stackSize: nat, h: nat)
    requires LowOnly(pages, tables) && LoadsInSpace(segments) && 0 < entry < idx
    requires idx + WindowEntries(maxPhys) <= ENTRIES
    requires forall i, k :: idx <= i < idx + WindowEntries(maxPhys) && 0 <= k < |segments| ==> !Spans(segments[k], i)
    requires KernelPages(pages, v.pages, segments, entry, stackSize) && Served(tables, v)
    requires h <= LastHuge(maxPhys) && HugeBusy(v.pages, v.tables, HugePage(BaseOf(idx), h))
    ensures WindowCollides(segments, stackSize, idx, maxPhys)
  {
    if maxPhys % LEVEL_4_SIZE != 0 && StackFits(stackSize) {
      var num, q := WindowEntries(maxPhys), HugePage(BaseOf(idx), h);
      HugesReserved(maxPhys, h);
      var e := EntryOfHuge(idx, num, h, q);
      BasePages(e);
      var p := BusyPage(tables, v, q);
      OnlyTempBehind(pages, v.pages, segments, entry, stackSize, e, p);
      HugeInWindow(idx, maxPhys, h, p);
    }
  }

  lemma HugeInWindow(idx: nat, maxPhys: nat, h: nat, p: nat)
    requires h <= LastHuge(maxPhys) && InHugeRange(HugePage(BaseOf(idx), h), HugePage(BaseOf(idx), h), p)
    ensures InWindow(idx, maxPhys, p)
  {
    BasePages(idx);
  }

  /** A busy 2 MiB page that no table served at the start contains a mapped page. */
  lemma BusyPage(tables: set<TableKey>, v: Snapshot, q: nat) returns (p: nat)
    requires HugeBusy(v.pages, v.tables, q) && Served(tables, v) && TableKey(1, q) !in tables
    ensures p in v.pages && InHugeRange(q, q, p)
  {
    if TableKey(1, q) in v.tables {
      assert InService(v.pages, TableKey(1, q).prefix);
      p :| p in v.pages && p / 512 == q;
    } else {
      p :| p in v.pages && InHugeRange(q, q, p);
    }
  }

  /** The window leaves the address space only if it is the topmost and memory ends with its last entry. */
  lemma LeavesSpace(idx: nat, maxPhys: nat)
    requires idx + WindowEntries(maxPhys) <= ENTRIES && !Reaches(BaseOf(idx), LastHuge(maxPhys))
    ensures maxPhys % LEVEL_4_SIZE == 0 && idx + WindowEntries(maxPhys) == ENTRIES
  {
    WindowSize(maxPhys);
  }

  /** How mapping the window ends. */
  ghost predicate WindowOutcome(m: Machine, o: Outcome, segments: seq<Segment>, stackSize: nat, idx: nat, maxPhys: nat)
    reads m, m.table, m.table.entries
  {
    match o
    case Reached => true
    case NoFreeEntry => !Room(InUse(segments), WindowEntries(maxPhys))
    case NotCanonical => maxPhys % LEVEL_4_SIZE == 0 && idx + WindowEntries(maxPhys) == ENTRIES
    case WindowFailed(r) =>
      && r != Mapped && m.Explains(r)
      && (r == Failed(PageAlreadyMapped) ==> WindowCollides(segments, stackSize, idx, maxPhys))
    case _ => false
  }

  // ------------------------------------------------------------------
  // The run as a whole
  // ------------------------------------------------------------------

  /** Each reservation took the lowest place there was. */
  ghost predicate LowestEntries(s: seq<bool>, recursive: nat, entry: nat, idx: nat, num: nat)
    requires recursive < entry < |s| && idx < |s|
  {
    && (forall i :: 0 <= i < entry && i != recursive ==> s[i]) && !s[recursive] && !s[entry]
    && (forall j :: entry < j < idx ==> !FreeWindow(s, j, num)) && FreeWindow(s, idx, num)
  }

  /**
   * The entries reserved, and all that is mapped, have their place; `pages` is what was mapped
   * before, less the ELF file.
   */
  ghost predicate Placement(pages: map<nat, nat>, pages': map<nat, nat>, segments: seq<Segment>, stackSize: nat,
                            recursive: nat, entry: nat, idx: nat, maxPhys: nat) {
    && EntriesClear(segments, recursive, entry, idx, WindowEntries(maxPhys)) && idx < ENTRIES
    && LowestEntries(InUse(segments), recursive, entry, idx, WindowEntries(maxPhys))
    && Clear(pages, segments, |segments|) && Extends(pages, pages')
    && (forall p: nat :: p in pages' <==>
          || p in pages || Footprint(segments, |segments|, p)
          || StackPage(entry, stackSize, p) || InWindow(idx, maxPhys, p))
    && (WindowFits(idx, maxPhys) <==> maxPhys % LEVEL_4_SIZE != 0)
  }

  lemma LowestReserved(s: seq<bool>, s1: seq<bool>, s2: seq<bool>, s3: seq<bool>, recursive: nat, entry: nat,
                       idx: nat, num: nat)
    requires Reserves(s, s1, 1, recursive) && Reserves(s1, s2, 1, entry) && num > 0 && Reserves(s2, s3, num, idx)
    ensures recursive < entry < idx < |s| && LowestEntries(s, recursive, entry, idx, num)
  {
    RoomFound(s, s1, s2, s3, recursive, entry, num, idx);
    forall i | 0 <= i < entry && i != recursive ensures s[i] {
      assert i < recursive ==> !FreeWindow(s, i, 1);
      assert !FreeWindow(s1, i, 1);
    }
    assert !s[recursive];
    forall j | entry < j < idx ensures !FreeWindow(s, j, num) {
      assert !FreeWindow(s2, j, num);
    }
  }

  lemma WindowCompletes(pages: map<nat, nat>, pages1: map<nat, nat>, pages2: map<nat, nat>, segments: seq<Segment>,
                        stackSize: nat, recursive: nat, entry: nat, idx: nat, maxPhys: nat)
    requires KernelPages(pages, pages1, segments, entry, stackSize) && Clear(pages, segments, |segments|)
    requires WindowPlaced(pages1, pages2, idx, maxPhys) && Extends(pages1, pages2)
    requires EntriesClear(segments, recursive, entry, idx, WindowEntries(maxPhys)) && idx < ENTRIES
    requires LowestEntries(InUse(segments), recursive, entry, idx, WindowEntries(maxPhys))
    ensures Placement(pages, pages2, segments, stackSize, recursive, entry, idx, maxPhys)
  {
    WindowFitsIff(idx, maxPhys);
  }

  /** Reserves entries for the window and fills it; the ghost parameters are as they were before the boot info. */
  method OpenWindow(m: Machine, level4: UsedLevel4Entries, layout: Layout, segments: seq<Segment>, entry: nat,
                    maxPhys: nat, ghost v0: Snapshot, ghost s1: seq<bool>, ghost recursive: nat)
    returns (o: Outcome, idx: nat)
    requires m.Valid() && layout.Valid() && level4.Valid() && 0 < entry < ENTRIES && m.top == maxPhys
    requires LowOnly(v0.pages, v0.tables) && KernelPages(v0.pages, m.pages, segments, entry, layout.stackSize)
    requires Clear(v0.pages, segments, |segments|) && Served(v0.tables, m.Now()) && LoadsInSpace(segments)
    requires Ready(m.Now(), layout, segments, v0.ram, entry)
    requires forall f: nat :: AreaOf(layout, f, Kernel) ==> f in m.held
    requires Reserves(InUse(segments), s1, 1, recursive) && Reserves(s1, level4.State(), 1, entry)
    modifies m, m.table, m.table.entries, level4.entryState
    ensures idx < ENTRIES && WindowOutcome(m, o, segments, layout.stackSize, idx, maxPhys)
    ensures o == Reached ==> Running(m, layout, segments, v0.ram, entry, idx, maxPhys)
    ensures o == Reached ==> Placement(v0.pages, m.pages, segments, layout.stackSize, recursive, entry, idx, maxPhys)
  {
    ghost var s0, s2, num := InUse(segments), level4.State(), WindowEntries(maxPhys);
    var ok;
    ok, idx := level4.GetFreeEntries(WindowEntries(maxPhys));
    if !ok {
      StuckAtWindow(s0, s1, s2, recursive, entry, num);
      return NoFreeEntry, 0;
    }
    RoomFound(s0, s1, s2, level4.State(), recursive, entry, num, idx);
    LowestReserved(s0, s1, s2, level4.State(), recursive, entry, idx, num);
    FreeEntriesClear(segments, recursive, entry, idx, num);
    ghost var v := m.Now();
    o := FinishBoot(m, layout, segments, v0.ram, entry, idx, maxPhys);
    if o == Reached {
      WindowCompletes(v0.pages, v.pages, m.pages, segments, layout.stackSize, recursive, entry, idx, maxPhys);
    } else if o == NotCanonical {
      LeavesSpace(idx, maxPhys);
    } else if o == WindowFailed(Failed(PageAlreadyMapped)) {
      ghost var h: nat :| h <= LastHuge(maxPhys) && HugeBusy(v.pages, v.tables, HugePage(BaseOf(idx), h));
      CollisionInWindow(v0.pages, v0.tables, v, segments, entry, idx, maxPhys, layout.stackSize, h);
    }
  }

  /** Why the kernel was not reached, from the boot-info page on. */
  ghost predicate Explained(m: Machine, o: Outcome, pages: map<nat, nat>, layout: Layout, segments: seq<Segment>,
                            entry: nat, idx: nat, maxPhys: nat)
    requires layout.Valid()
    reads m, m.table, m.table.entries
  {
    match o
    case ImageNotMapped => !ImageMapped(pages, layout.kernelSize)
    case BootInfoFailed(r) => r != Mapped && r != Failed(PageAlreadyMapped) && m.Explains(r)
    case KernelFailed(r) =>
      KernelFailure(m, r, WithoutImage(pages, layout.kernelSize), segments, entry, layout.stackSize)
    case _ => WindowOutcome(m, o, segments, layout.stackSize, idx, maxPhys)
  }

  /** From the boot-info page to the final sort. */
  method Boot(m: Machine, level4: UsedLevel4Entries, layout: Layout, segments: seq<Segment>, maxPhys: nat,
              ghost recursive: nat)
    returns (o: Outcome, tls: Option<Segment>, entry: nat, idx: nat)
    requires m.Valid() && layout.Valid() && level4.Valid() && m.top == maxPhys
    requires OnRecord(m.owner, layout) && HoldsImage(m.held, layout) && LowOnly(m.pages, m.tables)
    requires AllWellFormed(segments, layout.kernelSize) && LoadsInSpace(segments)
    requires Reserves(InUse(segments), level4.State(), 1, recursive)
    modifies m, m.table, m.table.entries, level4.entryState
    ensures entry < ENTRIES && idx < ENTRIES && Explained(m, o, old(m.pages), layout, segments, entry, idx, maxPhys)
    ensures o == Reached ==> Running(m, layout, segments, old(m.ram), entry, idx, maxPhys)
    ensures o == Reached ==>
              && TlsFound(segments, |segments|, tls)
              && Placement(WithoutImage(old(m.pages), layout.kernelSize), m.pages, segments, layout.stackSize,
                           recursive, entry, idx, maxPhys)
  {
    idx, tls := 0, None;
    ghost var s0, s1, num := InUse(segments), level4.State(), WindowEntries(maxPhys);
    var ok;
    ok, entry := level4.GetFreeEntries(1);
    if !ok {
      StuckAtSecond(s0, s1, recursive, num);
      return NoFreeEntry, None, 0, 0;
    }
    LaterWindowsAreHigher(s0, s1, level4.State(), recursive, 1, entry);
    assert !s1[entry] && !s0[entry];
    o, tls := LoadKernel(m, layout, segments, entry);
    if o == Reached {
      ghost var v0 := old(m.Now()).(pages := WithoutImage(old(m.pages), layout.kernelSize));
      o, idx := OpenWindow(m, level4, layout, segments, entry, maxPhys, v0, s1, recursive);
    }
  }

  /** `create_from` and the search for the highest address succeed. */
  ghost predicate FirmwareMapUsable(e820: seq<E820Entry>) {
    AllKnown(e820) && 0 < |e820| <= MAX_MEMORY_MAP_SIZE
  }

  /** At most 32 headers, all with accepted addresses, and none to be loaded across the gap between the halves. */
  predicate HeadersUsable(headers: seq<Segment>) {
    && |headers| <= 32
    && (forall k :: 0 <= k < |headers| ==> AcceptedHeader(headers[k]))
    && (forall k :: 0 <= k < |headers| && headers[k].kind == Load ==> !CrossesGap(headers[k]))
  }

  /** Refused are a 33rd header, one with an address that is not accepted, and one to be loaded across the gap. */
  lemma HeadersRefusedIff(headers: seq<Segment>)
    ensures !HeadersUsable(headers) <==>
            || |headers| >= 33
            || exists h :: h in headers
                           && (!Accepted(h.vaddr) || !Accepted(h.vaddr + h.memSize)
                               || (h.kind == Load && CrossesGap(h)))
  {
    if !HeadersUsable(headers) && |headers| < 33 {
      var k :| 0 <= k < |headers|
               && !(AcceptedHeader(headers[k]) && (headers[k].kind == Load ==> !CrossesGap(headers[k])));
      assert headers[k] in headers;
    }
  }

  /** The headers by the low bits of their addresses. */
  function SeenAll(headers: seq<Segment>): (s: seq<Segment>)
    ensures |s| == |headers| && forall k :: 0 <= k < |s| ==> s[k] == Seen(headers[k])
  {
    seq(|headers|, k requires 0 <= k < |headers| => Seen(headers[k]))
  }

  lemma SeenWellFormed(seg: Segment, size: nat)
    requires seg.WellFormed(size)
    ensures Seen(seg).WellFormed(size)
  {
    var k := seg.vaddr / SPACE;
    assert seg.vaddr == Low(seg.vaddr) + k * (SPACE / PAGE_SIZE) * PAGE_SIZE;
    PagesFurther(k * (SPACE / PAGE_SIZE), Low(seg.vaddr));
  }

  lemma SeenInUse(headers: seq<Segment>)
    ensures InUse(SeenAll(headers)) == InUse(headers)
  {
    var s := SeenAll(headers);
    forall i | 0 <= i < ENTRIES ensures InUse(s)[i] == InUse(headers)[i] {
      forall k | 0 <= k < |s| ensures Spans(s[k], i) <==> Spans(headers[k], i) {
        SeenSpans(headers[k], i);
      }
    }
  }

  lemma SeenHeaders(headers: seq<Segment>, size: nat)
    requires HeadersUsable(headers) && AllWellFormed(headers, size)
    ensures LoadsInSpace(SeenAll(headers)) && AllWellFormed(SeenAll(headers), size)
  {
    var s := SeenAll(headers);
    forall k | 0 <= k < |s| && s[k].kind == Load ensures InSpace(s[k]) && s[k].WellFormed(size) {
      SeenInSpace(headers[k]);
      SeenWellFormed(headers[k], size);
    }
  }

  lemma CreatedLength(e820: seq<E820Entry>, s: seq<Region>)
    requires Created(e820, s)
    ensures |s| == |e820|
  {
    var sorted: seq<Region> :| CreatedVia(e820, sorted, s);
    ConvertedAllLive(e820, sorted);
  }

  /** Every area in use at the start is on record with its type in the map, and not offered. */
  ghost predicate AreasWithheld(m: Machine, layout: Layout)
    requires m.table.Valid()
    reads m, m.table, m.table.entries
  {
    forall f: nat, kind :: AreaOf(layout, f, kind) ==>
      && f in m.owner && m.owner[f] == kind
      && Owners(m.table.Slice(), f, kind) > 0 && !IsUsable(m.table.Slice(), f)
  }

  lemma AreasAreWithheld(m: Machine, layout: Layout)
    requires m.Valid() && OnRecord(m.owner, layout)
    ensures AreasWithheld(m, layout)
  {
    forall f: nat, kind | AreaOf(layout, f, kind)
      ensures Owners(m.table.Slice(), f, kind) > 0 && !IsUsable(m.table.Slice(), f)
    {
      assert Assigned(m.table.Slice(), f, m.owner[f]);
    }
  }

  /** What the bootloader starts from, besides the firmware's list. */
  datatype Start = Start(layout: Layout, headers: seq<Segment>, entryBytes: (map<nat, nat>, nat) -> byte,
                         pages: map<nat, nat>, tables: set<TableKey>, tableFrames: set<nat>, ram: nat -> byte) {
    ghost predicate Valid() {
      && layout.Valid() && AllWellFormed(headers, layout.kernelSize) && LowOnly(pages, tables)
      && forall f :: f in tableFrames ==> AreaOf(layout, f, PageTable)
    }

    function Segments(): seq<Segment> { SeenAll(headers) }

    /** What is mapped at the start, less the ELF file. */
    ghost function Pages(): map<nat, nat> { WithoutImage(pages, layout.kernelSize) }
  }

  /**
   * The whole bootloader.  Whenever it gets as far as the kernel: every segment reads as
   * the ELF file prescribes, the image is untouched, the guard page below the stack is
   * unmapped, all physical memory shows at the offset, with every frame in use or on offer,
   * and the map handed over never offers frame 0 or a frame that holds the bootloader, the
   * image, the loaded kernel, the stack, the boot info or a page table.  If it does not get
   * there, the outcome says why.
   */
  method BootloaderMain(e820: seq<E820Entry>, start: Start)
    returns (o: Outcome, m: Machine?, tls: Option<Segment>, recursive: nat, entry: nat, idx: nat, maxPhys: nat)
    requires AllValid(e820) && start.Valid()
    requires forall s :: Created(e820, s) ==> Placed(s, start.layout.Marks())
    ensures entry < ENTRIES && idx < ENTRIES
    ensures o == BadFirmwareMap <==> !FirmwareMapUsable(e820)
    ensures o != BadFirmwareMap ==> exists s :: Created(e820, s) && TopOf(s, maxPhys)
    ensures o == BadHeaders <==> FirmwareMapUsable(e820) && !HeadersUsable(start.headers)
    ensures o == NoFreeEntry ==> !Room(InUse(start.headers), WindowEntries(maxPhys))
    ensures o == MarkRefused ==> exists s :: Created(e820, s) && !Plan(s, start.layout.Marks())
    ensures m == null ==> o in {BadFirmwareMap, BadHeaders, NoFreeEntry, MarkRefused}
    ensures m != null ==> Explained(m, o, start.pages, start.layout, start.Segments(), entry, idx, maxPhys)
    ensures m != null ==> fresh(m) && fresh(m.table) && fresh(m.table.entries)
    ensures m != null ==> (recursive == TEMP_ENTRY <==> FirstFree(start.headers, TEMP_ENTRY))
    ensures o == Reached ==>
              && m != null && Running(m, start.layout, start.Segments(), start.ram, entry, idx, maxPhys)
              && AreasWithheld(m, start.layout) && TlsFound(start.Segments(), |start.Segments()|, tls)
    ensures o == Reached ==>
              Placement(start.Pages(), m.pages, start.Segments(), start.layout.stackSize,
                        recursive, entry, idx, maxPhys)
  {
    m, tls, recursive, entry, idx, maxPhys := null, None, 0, 0, 0, 0;
    var table, created := CreateFrom(e820);
    if !created {
      return BadFirmwareMap, null, None, 0, 0, 0, 0;
    }
    ghost var first := table.Slice();
    CreatedIsSound(e820, first);
    CreatedLength(e820, first);
    var found;
    found, maxPhys := MaxPhysAddr(table);
    if !found {
      return BadFirmwareMap, null, None, 0, 0, 0, maxPhys;
    }
    assert TopOf(first, maxPhys);
    if !HeadersUsable(start.headers) {
      return BadHeaders, null, None, 0, 0, 0, maxPhys;
    }
    SeenHeaders(start.headers, start.layout.kernelSize);
    SeenInUse(start.headers);
    var segments := start.Segments();
    var level4 := new UsedLevel4Entries(start.headers);
    assert level4.State() == InUse(segments);
    var free;
    free, recursive := level4.GetFreeEntries(1);
    if !free {
      StuckAtFirst(InUse(segments), WindowEntries(maxPhys));
      return NoFreeEntry, null, None, 0, 0, 0, maxPhys;
    }
    RecursiveHitsTempIff(start.headers, level4.State(), recursive);
    m := Prepare(table, start.layout, start.entryBytes, start.pages, start.tables, start.tableFrames, start.ram,
                 maxPhys);
    if m == null {
      return MarkRefused, null, None, recursive, 0, 0, maxPhys;
    }
    o, tls, entry, idx := Boot(m, level4, start.layout, segments, maxPhys, recursive);
    if o == Reached {
      AreasAreWithheld(m, start.layout);
    }
  }
}

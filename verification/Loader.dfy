/**
 * `page_table.rs`: mapping the kernel's ELF segments, zeroing what lies behind
 * their file part, and mapping the kernel stack.
 */
module Loader {
  import opened Basics
  import opened Regions
  import opened Machine

  const KERNEL_START: nat := 0x400000
  const TEMP_PAGE: nat := 0xfeeefeee000 / PAGE_SIZE

  function AlignUp(a: nat): nat { (a + PAGE_SIZE - 1) / PAGE_SIZE * PAGE_SIZE }

  datatype SegmentType = Load | Tls | Other

  /** A 64-bit program header (the permission flags do not affect contents). */
  datatype Segment = Segment(kind: SegmentType, offset: nat, vaddr: nat, fileSize: nat, memSize: nat) {
    /** What the ELF specification demands of a loadable segment of an image of `size` bytes. */
    predicate WellFormed(size: nat) {
      && fileSize <= memSize
      && offset % PAGE_SIZE == vaddr % PAGE_SIZE
      && offset + fileSize <= size
    }

    function FirstPage(): nat { vaddr / PAGE_SIZE }

    /** The first page that lies wholly behind the file part. */
    function ZeroPage(): nat { AlignUp(vaddr + fileSize) / PAGE_SIZE }

    /** The page of the first byte behind the segment. */
    function EndPage(): nat { (vaddr + memSize) / PAGE_SIZE }

    /**
     * Page `p` must be mapped: it holds a byte of the file part or, if zeros follow, of what is
     * behind it, up to and including the byte after the segment.
     */
    predicate Needs(p: nat) {
      && vaddr < (p + 1) * PAGE_SIZE
      && if memSize > fileSize then p * PAGE_SIZE <= vaddr + memSize else p * PAGE_SIZE < vaddr + fileSize
    }

    /** The file part ends inside a page that must be partly zeroed. */
    predicate HasTail() {
      kind == Load && memSize > fileSize && (vaddr + fileSize) % PAGE_SIZE != 0
    }
  }

  /** A frame whose contents matter, on record as the kernel's. */
  ghost predicate KernelFrame(v: Snapshot, f: nat) {
    f in v.held && f in v.owner && v.owner[f] == Kernel
  }

  /** All frames that contain a byte of an image of `size` bytes are the kernel's. */
  ghost predicate ImageHeld(v: Snapshot, size: nat) {
    forall f: nat :: KERNEL_START < (f + 1) * PAGE_SIZE && f * PAGE_SIZE < KERNEL_START + size ==> KernelFrame(v, f)
  }

  /** Pages only get added, and page contents in held frames stay. */
  ghost predicate Extends(pages: map<nat, nat>, pages': map<nat, nat>) {
    forall p :: p in pages ==> p in pages' && pages'[p] == pages[p]
  }

  ghost predicate SameBytes(ram: nat -> byte, ram': nat -> byte, frames: set<nat>) {
    forall a: nat :: a / PAGE_SIZE in frames ==> ram'(a) == ram(a)
  }

  /** Frames that matter keep their bytes, and frames in use their purpose. */
  ghost predicate Retains(v: Snapshot, v': Snapshot) {
    v.held <= v'.held && SameBytes(v.ram, v'.ram, v.held) && KeepsOwners(v.owner, v'.owner)
  }

  lemma ImageStays(v: Snapshot, v': Snapshot, size: nat)
    requires ImageHeld(v, size) && Retains(v, v')
    ensures ImageHeld(v', size)
  {
    forall f: nat | KERNEL_START < (f + 1) * PAGE_SIZE && f * PAGE_SIZE < KERNEL_START + size
      ensures KernelFrame(v', f)
    {
      assert KernelFrame(v, f);
    }
  }

  // ------------------------------------------------------------------
  // The file part
  // ------------------------------------------------------------------

  /** Number of frames `range_inclusive` visits for the file part. */
  function FilePages(seg: Segment): nat {
    (KERNEL_START + seg.offset + seg.fileSize - 1) / PAGE_SIZE + 1 - (KERNEL_START + seg.offset) / PAGE_SIZE
  }

  /** The first `n` pages of the segment map the image's own frames. */
  ghost predicate FileMapped(pages: map<nat, nat>, seg: Segment, n: nat) {
    forall p :: seg.FirstPage() <= p < seg.FirstPage() + n ==>
      p in pages && pages[p] == (KERNEL_START + seg.offset) / PAGE_SIZE + (p - seg.FirstPage())
  }

  /** Exactly these pages were added. */
  ghost predicate FileAdded(pages: map<nat, nat>, pages': map<nat, nat>, seg: Segment, n: nat) {
    && Extends(pages, pages') && FileMapped(pages', seg, n)
    && (forall p :: p in pages' && p !in pages ==> seg.FirstPage() <= p < seg.FirstPage() + n)
    && (forall p :: seg.FirstPage() <= p < seg.FirstPage() + n ==> p !in pages)
  }

  lemma FileNext(pages0: map<nat, nat>, pages: map<nat, nat>, seg: Segment, i: nat)
    requires FileAdded(pages0, pages, seg, i) && seg.FirstPage() + i !in pages
    ensures FileAdded(pages0, pages[seg.FirstPage() + i := (KERNEL_START + seg.offset) / PAGE_SIZE + i], seg, i + 1)
  {}

  method MapFile(m: Machine, seg: Segment) returns (r: MapResult, ghost n: nat)
    requires m.Valid()
    modifies m`tables, m`tableFrames, m`pages, m`ram, m`owner, m.table, m.table.entries
    ensures r != Panicked ==> m.Valid()
    ensures KeepsOwners(old(m.owner), m.owner)
    ensures r == Mapped ==> Traced(old(m.Now()), m.Now())
    ensures SameBytes(old(m.ram), m.ram, m.held) && n <= FilePages(seg) && FileAdded(old(m.pages), m.pages, seg, n)
    ensures m.Explains(r)
    ensures r == Failed(PageAlreadyMapped) ==>
              exists p :: p in old(m.pages) && seg.FirstPage() <= p < seg.FirstPage() + FilePages(seg)
    ensures r == Mapped ==> n == FilePages(seg)
  {
    n := 0;
    var count := FilePages(seg);
    var i := 0;
    while i < count
      invariant n == i <= count && m.Valid() && KeepsOwners(old(m.owner), m.owner)
      invariant SameBytes(old(m.ram), m.ram, m.held) && FileAdded(old(m.pages), m.pages, seg, i)
      invariant Traced(old(m.Now()), m.Now())
    {
      ghost var v := m.Now();
      r := m.MapPage(seg.FirstPage() + i, (KERNEL_START + seg.offset) / PAGE_SIZE + i);
      if r != Mapped {
        return;
      }
      FileNext(old(m.pages), v.pages, seg, i);
      TracedOn(old(m.Now()), v, m.Now());
      i := i + 1;
      n := i;
    }
    return Mapped, n;
  }

  // ------------------------------------------------------------------
  // The tail page
  // ------------------------------------------------------------------

  /** Frame `to` holds afterwards what frame `from` held before. */
  ghost predicate SameFrame(ram: nat -> byte, from: nat, ram': nat -> byte, to: nat) {
    forall o: nat :: o < PAGE_SIZE ==> ram'(Cell(to, o)) == ram(Cell(from, o))
  }

  /** Copies one page's bytes to frame `to`, as reading the old page and writing the temporary one does. */
  method CopyFrame(m: Machine, from: nat, to: nat)
    modifies m`ram
    ensures SameBytes(old(m.ram), m.ram, m.held - {to})
    ensures SameFrame(old(m.ram), from, m.ram, to)
  {
    var before := m.ram;
    m.ram := (a: nat) => if a / PAGE_SIZE == to then before(Cell(from, a % PAGE_SIZE)) else before(a);
  }

  /** Copies a page into frame `n` and maps it there instead. */
  method Relocate(m: Machine, last: nat, n: nat) returns (r: MapResult)
    requires m.Valid() && last in m.pages && m.pages[last] in m.held && n in m.held
    modifies m`tables, m`tableFrames, m`pages, m`ram, m`owner, m.table, m.table.entries
    ensures r != Panicked ==> m.Valid()
    ensures KeepsOwners(old(m.owner), m.owner)
    ensures r == Mapped ==> Traced(old(m.Now()), m.Now())
    ensures SameBytes(old(m.ram), m.ram, m.held - {n})
    ensures m.Explains(r) && r != Failed(PageAlreadyMapped)
    ensures m.pages == if r == Mapped then old(m.pages)[last := n] else old(m.pages) - {last}
    ensures r == Mapped ==> SameFrame(old(m.ram), old(m.pages)[last], m.ram, n)
  {
    CopyFrame(m, m.pages[last], n);
    m.UnmapPage(last);
    r := m.MapPage(last, n);
  }

  /** Only the temporary page may be new, and only page `last` may have changed. */
  ghost predicate TailPages(pages: map<nat, nat>, pages': map<nat, nat>, last: nat) {
    && (forall p :: p in pages' && p !in pages ==> p == TEMP_PAGE)
    && (forall p :: p in pages && p != last ==> p in pages' && pages'[p] == pages[p])
  }

  /** The page as it is afterwards: at frame `n`, with the temporary page as an alias. */
  method MoveTail(m: Machine, last: nat, n: nat) returns (r: MapResult)
    requires m.Valid() && last in m.pages && m.pages[last] in m.held && n in m.held
    modifies m`tables, m`tableFrames, m`pages, m`ram, m`owner, m.table, m.table.entries
    ensures r != Panicked ==> m.Valid()
    ensures KeepsOwners(old(m.owner), m.owner) && SameBytes(old(m.ram), m.ram, m.held - {n})
    ensures r == Mapped ==> Traced(old(m.Now()), m.Now())
    ensures m.Explains(r) && (r == Failed(PageAlreadyMapped) ==> TEMP_PAGE in old(m.pages))
    ensures TailPages(old(m.pages), m.pages, last)
    ensures r == Mapped ==>
              && TEMP_PAGE !in old(m.pages) && m.pages == old(m.pages)[TEMP_PAGE := n][last := n]
              && SameFrame(old(m.ram), old(m.pages)[last], m.ram, n)
  {
    r := m.MapPage(TEMP_PAGE, n);
    if r == Mapped {
      ghost var v := m.Now();
      r := Relocate(m, last, n);
      if r == Mapped { TracedOn(old(m.Now()), v, m.Now()); }
    }
  }

  /** Gives the last file page a frame of its own, so that zeroing leaves the image alone. */
  method CopyTail(m: Machine, last: nat) returns (r: MapResult, ghost copy: nat)
    requires m.Valid() && last in m.pages && m.pages[last] in m.held
    modifies m, m.table, m.table.entries
    ensures r != Panicked ==> m.Valid()
    ensures KeepsOwners(old(m.owner), m.owner)
    ensures r == Mapped ==> Traced(old(m.Now()), m.Now())
    ensures old(m.held) <= m.held && SameBytes(old(m.ram), m.ram, old(m.held))
    ensures m.Explains(r) && (r == Failed(PageAlreadyMapped) ==> TEMP_PAGE in old(m.pages))
    ensures TailPages(old(m.pages), m.pages, last)
    ensures r == Mapped ==>
              && TEMP_PAGE !in old(m.pages) && m.pages == old(m.pages)[TEMP_PAGE := copy][last := copy]
              && copy !in old(m.held) && KernelFrame(m.Now(), copy)
              && SameFrame(old(m.ram), old(m.pages)[last], m.ram, copy)
  {
    var frame := m.TakeFrame(Kernel);
    match frame {
      case Panic => return Panicked, 0;
      case OutOfMemory => return Failed(FrameAllocationFailed), 0;
      case Frame(n) =>
        m.Hold(n);
        copy := n;
        r := MoveTail(m, last, n);
    }
  }

  // ------------------------------------------------------------------
  // Pages behind the file part
  // ------------------------------------------------------------------

  /** Maps one page to a frame that nobody holds yet. */
  method MapFreshPage(m: Machine, page: nat, kind: RegionType) returns (r: MapResult)
    requires m.Valid() && kind != Usable
    modifies m, m.table, m.table.entries
    ensures r != Panicked ==> m.Valid()
    ensures KeepsOwners(old(m.owner), m.owner)
    ensures r == Mapped ==> Traced(old(m.Now()), m.Now())
    ensures old(m.held) <= m.held && SameBytes(old(m.ram), m.ram, old(m.held))
    ensures m.Explains(r) && (r == Failed(PageAlreadyMapped) ==> page in old(m.pages))
    ensures r != Mapped ==> m.pages == old(m.pages)
    ensures r == Mapped ==> page !in old(m.pages) && page in m.pages && m.pages == old(m.pages)[page := m.pages[page]]
    ensures r == Mapped ==> FreshFrame(m.pages[page], old(m.held), m.Now(), kind)
  {
    var frame := m.TakeFrame(kind);
    match frame {
      case Panic => return Panicked;
      case OutOfMemory => return Failed(FrameAllocationFailed);
      case Frame(n) =>
        m.Hold(n);
        r := m.MapPage(page, n);
    }
  }

  /** A frame that was in use by nobody and now serves `kind`. */
  ghost predicate FreshFrame(f: nat, held0: set<nat>, v: Snapshot, kind: RegionType) {
    f in v.held && f !in held0 && f in v.owner && v.owner[f] == kind
  }

  /** Exactly the pages [lo, hi) were added, each with a fresh frame of its own. */
  ghost predicate FreshRange(v0: Snapshot, v: Snapshot, lo: nat, hi: nat, kind: RegionType) {
    && Extends(v0.pages, v.pages)
    && (forall p :: p in v.pages && p !in v0.pages ==> lo <= p < hi)
    && (forall p :: lo <= p < hi ==> p in v.pages && p !in v0.pages && FreshFrame(v.pages[p], v0.held, v, kind))
    && (forall p, q :: lo <= p < q < hi ==> v.pages[p] != v.pages[q])
  }

  lemma FreshRangeKept(v0: Snapshot, v: Snapshot, v': Snapshot, lo: nat, hi: nat, kind: RegionType)
    requires FreshRange(v0, v, lo, hi, kind)
    requires v'.pages == v.pages && v.held <= v'.held && KeepsOwners(v.owner, v'.owner)
    ensures FreshRange(v0, v', lo, hi, kind)
  {}

  lemma FreshRangeNext(v0: Snapshot, v: Snapshot, v': Snapshot, lo: nat, hi: nat, kind: RegionType)
    requires FreshRange(v0, v, lo, hi, kind) && lo <= hi
    requires v0.held <= v.held <= v'.held && KeepsOwners(v.owner, v'.owner)
    requires hi !in v.pages && hi in v'.pages && v'.pages == v.pages[hi := v'.pages[hi]]
    requires FreshFrame(v'.pages[hi], v.held, v', kind)
    ensures FreshRange(v0, v', lo, hi + 1, kind)
  {
    assert hi !in v0.pages;
    forall p | lo <= p < hi
      ensures v'.pages[p] != v'.pages[hi] && FreshFrame(v'.pages[p], v0.held, v', kind)
    {
      assert FreshFrame(v.pages[p], v0.held, v, kind);
    }
  }

  /** Maps fresh frames for the pages first, ..., end (none if end < first); `hi` says how far it got. */
  method MapFresh(m: Machine, first: nat, end: nat, kind: RegionType) returns (r: MapResult, ghost hi: nat)
    requires m.Valid() && kind != Usable
    modifies m, m.table, m.table.entries
    ensures r != Panicked ==> m.Valid()
    ensures KeepsOwners(old(m.owner), m.owner)
    ensures r == Mapped ==> Traced(old(m.Now()), m.Now())
    ensures old(m.held) <= m.held && SameBytes(old(m.ram), m.ram, old(m.held))
    ensures FreshRange(old(m.Now()), m.Now(), first, hi, kind)
    ensures first <= hi && (hi == first || hi <= end + 1)
    ensures r == Mapped ==> end < hi
    ensures m.Explains(r) && (r == Failed(PageAlreadyMapped) ==> hi in old(m.pages) && hi <= end)
  {
    var p := first;
    hi := first;
    while p <= end
      invariant hi == p && first <= p && (p == first || p <= end + 1) && m.Valid() && KeepsOwners(old(m.owner), m.owner)
      invariant old(m.held) <= m.held && SameBytes(old(m.ram), m.ram, old(m.held))
      invariant Traced(old(m.Now()), m.Now())
      invariant FreshRange(old(m.Now()), m.Now(), first, hi, kind)
      decreases end + 1 - p
    {
      ghost var v := m.Now();
      r := MapFreshPage(m, p, kind);
      if r != Mapped {
        FreshRangeKept(old(m.Now()), v, m.Now(), first, hi, kind);
        return;
      }
      FreshRangeNext(old(m.Now()), v, m.Now(), first, hi, kind);
      TracedOn(old(m.Now()), v, m.Now());
      p := p + 1;
      hi := p;
    }
    return Mapped, hi;
  }

  /** Some address of the range stands for physical address `a`. */
  ghost predicate Hit(pages: map<nat, nat>, start: nat, end: nat, a: nat)
    requires forall va :: start <= va < end ==> PageOf(va) in pages
  {
    exists va :: start <= va < end && Phys(pages, va) == a
  }

  /** The byte-wise zeroing loop. */
  method Zero(m: Machine, start: nat, end: nat)
    requires start <= end && forall va :: start <= va < end ==> PageOf(va) in m.pages
    modifies m`ram
    ensures forall va :: start <= va < end ==> m.ram(Phys(m.pages, va)) == 0
    ensures forall a: nat :: !Hit(m.pages, start, end, a) ==> m.ram(a) == old(m.ram)(a)
  {
    var va := start;
    while va < end
      invariant start <= va <= end
      invariant forall v :: start <= v < va ==> m.ram(Phys(m.pages, v)) == 0
      invariant forall a: nat :: !Hit(m.pages, start, end, a) ==> m.ram(a) == old(m.ram)(a)
    {
      var before, target := m.ram, Phys(m.pages, va);
      assert Hit(m.pages, start, end, target);
      m.ram := (a: nat) => if a == target then 0 else before(a);
      va := va + 1;
    }
  }

  // ------------------------------------------------------------------
  // A whole segment
  // ------------------------------------------------------------------

  /** The byte the program must find at `va`: file contents first, zeros behind. */
  ghost function Expected(seg: Segment, image: nat -> byte, va: nat): byte
    requires seg.vaddr <= va
  {
    if va < seg.vaddr + seg.fileSize then image(KERNEL_START + seg.offset + (va - seg.vaddr)) else 0
  }

  /** Reading [from, to) of the segment through the page table gives the expected bytes. */
  ghost predicate LoadedPart(v: Snapshot, seg: Segment, image: nat -> byte, from: nat, to: nat)
    requires seg.vaddr <= from
  {
    forall va :: from <= va < to ==> Reads(v, seg, image, va)
  }

  /** The byte at `va` is the expected one, in a frame of the kernel's. */
  ghost predicate Reads(v: Snapshot, seg: Segment, image: nat -> byte, va: nat)
    requires seg.vaddr <= va
  {
    && PageOf(va) in v.pages && KernelFrame(v, v.pages[PageOf(va)])
    && v.ram(Phys(v.pages, va)) == Expected(seg, image, va)
  }

  ghost predicate FileLoaded(v: Snapshot, seg: Segment, image: nat -> byte) {
    LoadedPart(v, seg, image, seg.vaddr, seg.vaddr + seg.fileSize)
  }

  ghost predicate Loaded(v: Snapshot, seg: Segment, image: nat -> byte) {
    LoadedPart(v, seg, image, seg.vaddr, seg.vaddr + seg.memSize)
  }

  /** Congruent offsets: a mapped file page shows the image byte itself. */
  lemma FileByte(pages: map<nat, nat>, seg: Segment, size: nat, va: nat)
    requires seg.WellFormed(size) && FileMapped(pages, seg, FilePages(seg))
    requires seg.vaddr <= va < seg.vaddr + seg.fileSize
    ensures seg.FirstPage() <= PageOf(va) < seg.FirstPage() + FilePages(seg)
    ensures Phys(pages, va) == KERNEL_START + seg.offset + (va - seg.vaddr)
  {}

  lemma FileFramesHeld(v: Snapshot, seg: Segment, size: nat, p: nat)
    requires seg.WellFormed(size) && FileMapped(v.pages, seg, FilePages(seg)) && ImageHeld(v, size)
    requires seg.FirstPage() <= p < seg.FirstPage() + FilePages(seg)
    ensures KernelFrame(v, v.pages[p])
  {
    var f := v.pages[p];
    assert KERNEL_START < (f + 1) * PAGE_SIZE && f * PAGE_SIZE < KERNEL_START + size;
  }

  lemma FilePartLoaded(v: Snapshot, image: nat -> byte, seg: Segment, size: nat)
    requires seg.WellFormed(size) && FileMapped(v.pages, seg, FilePages(seg)) && ImageHeld(v, size)
    requires SameBytes(image, v.ram, v.held)
    ensures FileLoaded(v, seg, image)
  {
    forall va | seg.vaddr <= va < seg.vaddr + seg.fileSize ensures Reads(v, seg, image, va) {
      FileByte(v.pages, seg, size, va);
      FileFramesHeld(v, seg, size, PageOf(va));
    }
  }

  /** The copied last page shows the same file bytes. */
  lemma TailCopied(v: Snapshot, v': Snapshot, seg: Segment, image: nat -> byte, last: nat, n: nat)
    requires FileLoaded(v, seg, image)
    requires last in v.pages && TEMP_PAGE !in v.pages && v'.pages == v.pages[TEMP_PAGE := n][last := n]
    requires Retains(v, v') && KernelFrame(v', n)
    requires SameFrame(v.ram, v.pages[last], v'.ram, n)
    ensures FileLoaded(v', seg, image)
  {
    forall va | seg.vaddr <= va < seg.vaddr + seg.fileSize ensures Reads(v', seg, image, va) {
      assert Reads(v, seg, image, va);
    }
  }

  /** In terms of page table and memory alone: byte `k` of a loaded segment. */
  lemma LoadedMeaning(v: Snapshot, seg: Segment, image: nat -> byte, k: nat)
    requires Loaded(v, seg, image) && k < seg.memSize
    ensures var va := seg.vaddr + k;
            && va / 4096 in v.pages && v.pages[va / 4096] in v.owner && v.owner[v.pages[va / 4096]] == Kernel
            && v.ram(v.pages[va / 4096] * 4096 + va % 4096) ==
               if k < seg.fileSize then image(0x40_0000 + seg.offset + k) else 0
  {
    assert Reads(v, seg, image, seg.vaddr + k);
  }

  /** New mappings and bytes in other frames do not disturb what is loaded. */
  lemma StillLoaded(v: Snapshot, v': Snapshot, seg: Segment, image: nat -> byte, from: nat, to: nat)
    requires seg.vaddr <= from && LoadedPart(v, seg, image, from, to)
    requires Extends(v.pages, v'.pages) && Retains(v, v')
    ensures LoadedPart(v', seg, image, from, to)
  {
    forall va | from <= va < to ensures Reads(v', seg, image, va) {
      assert Reads(v, seg, image, va);
    }
  }

  /** Zeroing spares frames that no zeroed page uses. */
  lemma ZeroSpares(pages: map<nat, nat>, ram: nat -> byte, ram': nat -> byte, start: nat, end: nat, spared: set<nat>)
    requires forall va :: start <= va < end ==> PageOf(va) in pages && pages[PageOf(va)] !in spared
    requires forall a: nat :: !Hit(pages, start, end, a) ==> ram'(a) == ram(a)
    ensures SameBytes(ram, ram', spared)
  {
    forall a: nat | a / PAGE_SIZE in spared ensures !Hit(pages, start, end, a) {}
  }

  lemma PhysApart(pages: map<nat, nat>, va: nat, vb: nat)
    requires PageOf(va) in pages && PageOf(vb) in pages && va != vb
    requires pages[PageOf(va)] == pages[PageOf(vb)] ==> PageOf(va) == PageOf(vb)
    ensures Phys(pages, va) != Phys(pages, vb)
  {
    assert va == PageOf(va) * PAGE_SIZE + va % PAGE_SIZE && vb == PageOf(vb) * PAGE_SIZE + vb % PAGE_SIZE;
  }

  /** Zeroing completes the segment if no zeroed page shares a frame with another file page. */
  lemma ZeroCompletes(v: Snapshot, v': Snapshot, base: set<nat>, seg: Segment, image: nat -> byte)
    requires seg.fileSize <= seg.memSize && FileLoaded(v, seg, image) && ZeroReady(v, base, seg)
    requires v' == v.(ram := v'.ram)
    requires forall va :: seg.vaddr + seg.fileSize <= va < seg.vaddr + seg.memSize ==> v'.ram(Phys(v.pages, va)) == 0
    requires forall a: nat :: !Hit(v.pages, seg.vaddr + seg.fileSize, seg.vaddr + seg.memSize, a) ==>
              v'.ram(a) == v.ram(a)
    ensures Loaded(v', seg, image)
  {
    var start, end := seg.vaddr + seg.fileSize, seg.vaddr + seg.memSize;
    forall va | seg.vaddr <= va < end ensures Reads(v', seg, image, va) {
      if va < start {
        assert Reads(v, seg, image, va);
        forall vb | start <= vb < end ensures Phys(v.pages, vb) != Phys(v.pages, va) {
          PhysApart(v.pages, va, vb);
        }
      }
    }
  }

  /** The zeroed bytes lie in the tail page and in the pages mapped behind it. */
  lemma ZeroPages(seg: Segment, va: nat)
    requires seg.vaddr + seg.fileSize <= va < seg.vaddr + seg.memSize
    ensures PageOf(va) <= seg.EndPage()
    ensures seg.ZeroPage() <= PageOf(va)
            || (seg.kind == Load ==> seg.HasTail() && PageOf(va) == PageOf(seg.vaddr + seg.fileSize - 1))
  {}

  /** The page whose rear part must be zeroed has a frame `n` of its own, outside `base`. */
  ghost predicate TailReady(v: Snapshot, base: set<nat>, seg: Segment, n: nat) {
    seg.HasTail() ==>
      && PageOf(seg.vaddr + seg.fileSize - 1) in v.pages && v.pages[PageOf(seg.vaddr + seg.fileSize - 1)] == n
      && KernelFrame(v, n) && n !in base
      && forall va :: seg.vaddr <= va < seg.vaddr + seg.fileSize && PageOf(va) in v.pages && v.pages[PageOf(va)] == n
                      ==> PageOf(va) == PageOf(seg.vaddr + seg.fileSize - 1)
  }

  /** Zeroing is safe: it meets only held frames outside `base`, and no foreign file page. */
  ghost predicate ZeroReady(v: Snapshot, base: set<nat>, seg: Segment) {
    && (forall va :: seg.vaddr + seg.fileSize <= va < seg.vaddr + seg.memSize ==>
          PageOf(va) in v.pages && KernelFrame(v, v.pages[PageOf(va)]) && v.pages[PageOf(va)] !in base)
    && (forall va, vb :: seg.vaddr <= va < seg.vaddr + seg.fileSize <= vb < seg.vaddr + seg.memSize
          && PageOf(va) in v.pages && v.pages[PageOf(va)] == v.pages[PageOf(vb)]
          ==> PageOf(va) == PageOf(vb))
  }

  /** No zeroed address falls into a frame of `base`, nor into the frame of a foreign file page. */
  lemma ZeroRange(v1: Snapshot, v: Snapshot, base: set<nat>, seg: Segment, n: nat)
    requires seg.kind == Load && seg.fileSize < seg.memSize && base <= v1.held <= v.held
    requires TailReady(v1, base, seg, n) && Extends(v1.pages, v.pages) && KeepsOwners(v1.owner, v.owner)
    requires forall va :: seg.vaddr <= va < seg.vaddr + seg.fileSize ==>
               PageOf(va) in v1.pages && v1.pages[PageOf(va)] in v1.held
    requires forall p :: seg.ZeroPage() <= p <= seg.EndPage() ==>
               p in v.pages && KernelFrame(v, v.pages[p]) && v.pages[p] !in v1.held
    ensures ZeroReady(v, base, seg)
  {
    forall vb | seg.vaddr + seg.fileSize <= vb < seg.vaddr + seg.memSize
      ensures PageOf(vb) in v.pages && KernelFrame(v, v.pages[PageOf(vb)]) && v.pages[PageOf(vb)] !in base
      ensures forall va :: seg.vaddr <= va < seg.vaddr + seg.fileSize && v.pages[PageOf(va)] == v.pages[PageOf(vb)]
                           ==> PageOf(va) == PageOf(vb)
    {
      ZeroPages(seg, vb);
    }
  }

  lemma FreshMakesReady(v1: Snapshot, v: Snapshot, hi: nat, base: set<nat>, seg: Segment, n: nat, image: nat -> byte)
    requires seg.kind == Load && seg.fileSize < seg.memSize && base <= v1.held <= v.held && TailReady(v1, base, seg, n)
    requires FileLoaded(v1, seg, image) && Retains(v1, v)
    requires FreshRange(v1, v, seg.ZeroPage(), hi, Kernel) && seg.EndPage() < hi
    ensures FileLoaded(v, seg, image) && ZeroReady(v, base, seg)
  {
    StillLoaded(v1, v, seg, image, seg.vaddr, seg.vaddr + seg.fileSize);
    forall va | seg.vaddr <= va < seg.vaddr + seg.fileSize
      ensures PageOf(va) in v1.pages && v1.pages[PageOf(va)] in v1.held
    {
      assert Reads(v1, seg, image, va);
    }
    forall p | seg.ZeroPage() <= p <= seg.EndPage()
      ensures p in v.pages && KernelFrame(v, v.pages[p]) && v.pages[p] !in v1.held
    {
      assert FreshFrame(v.pages[p], v1.held, v, Kernel);
    }
    ZeroRange(v1, v, base, seg, n);
  }

  lemma ZeroFinishes(v: Snapshot, v': Snapshot, base: set<nat>, seg: Segment, image: nat -> byte)
    requires seg.fileSize <= seg.memSize && FileLoaded(v, seg, image) && ZeroReady(v, base, seg)
    requires v' == v.(ram := v'.ram)
    requires forall va :: seg.vaddr + seg.fileSize <= va < seg.vaddr + seg.memSize ==> v'.ram(Phys(v.pages, va)) == 0
    requires forall a: nat :: !Hit(v.pages, seg.vaddr + seg.fileSize, seg.vaddr + seg.memSize, a) ==>
              v'.ram(a) == v.ram(a)
    ensures SameBytes(v.ram, v'.ram, base) && Loaded(v', seg, image)
  {
    ZeroSpares(v.pages, v.ram, v'.ram, seg.vaddr + seg.fileSize, seg.vaddr + seg.memSize, base);
    ZeroCompletes(v, v', base, seg, image);
  }

  /** All new pages lie wholly behind the file part, but in the segment's span; all old ones stay. */
  ghost predicate SpanPages(pages: map<nat, nat>, pages': map<nat, nat>, seg: Segment) {
    && Extends(pages, pages')
    && forall p :: p in pages' && p !in pages ==> seg.ZeroPage() <= p <= seg.EndPage()
  }

  /** None of the pages wholly behind the file part was mapped, and all of them are. */
  ghost predicate ZeroMapped(pages: map<nat, nat>, pages': map<nat, nat>, seg: Segment) {
    forall p :: seg.ZeroPage() <= p <= seg.EndPage() ==> p in pages' && p !in pages
  }

  lemma FreshInSpan(v0: Snapshot, v: Snapshot, hi: nat, seg: Segment)
    requires FreshRange(v0, v, seg.ZeroPage(), hi, Kernel)
    requires hi == seg.ZeroPage() || hi <= seg.EndPage() + 1
    ensures SpanPages(v0.pages, v.pages, seg)
  {}

  /** Maps fresh frames for all pages wholly behind the file part, up to the segment's end. */
  method MapZeroPages(m: Machine, seg: Segment) returns (r: MapResult, ghost hi: nat)
    requires m.Valid()
    modifies m, m.table, m.table.entries
    ensures r != Panicked ==> m.Valid()
    ensures KeepsOwners(old(m.owner), m.owner)
    ensures r == Mapped ==> Traced(old(m.Now()), m.Now())
    ensures old(m.held) <= m.held && SameBytes(old(m.ram), m.ram, old(m.held)) && SpanPages(old(m.pages), m.pages, seg)
    ensures FreshRange(old(m.Now()), m.Now(), seg.ZeroPage(), hi, Kernel)
    ensures r == Mapped ==> seg.EndPage() < hi
    ensures r == Mapped ==> ZeroMapped(old(m.pages), m.pages, seg)
    ensures m.Explains(r)
    ensures r == Failed(PageAlreadyMapped) ==> exists p :: p in old(m.pages) && seg.ZeroPage() <= p <= seg.EndPage()
  {
    r, hi := MapFresh(m, seg.ZeroPage(), seg.EndPage(), Kernel);
    FreshInSpan(old(m.Now()), m.Now(), hi, seg);
  }

  /** Maps the pages behind the file part and zeroes everything up to the segment's end. */
  method FillZeros(m: Machine, seg: Segment, ghost base: set<nat>, ghost n: nat, ghost image: nat -> byte)
    returns (r: MapResult)
    requires m.Valid() && seg.kind == Load && seg.fileSize < seg.memSize && base <= m.held
    requires FileLoaded(m.Now(), seg, image) && TailReady(m.Now(), base, seg, n)
    modifies m, m.table, m.table.entries
    ensures r != Panicked ==> m.Valid()
    ensures KeepsOwners(old(m.owner), m.owner)
    ensures r == Mapped ==> Traced(old(m.Now()), m.Now())
    ensures old(m.held) <= m.held && SameBytes(old(m.ram), m.ram, base) && SpanPages(old(m.pages), m.pages, seg)
    ensures r == Mapped ==> ZeroMapped(old(m.pages), m.pages, seg)
    ensures m.Explains(r)
    ensures r == Failed(PageAlreadyMapped) ==>
              exists p :: p in old(m.pages) && seg.ZeroPage() <= p <= seg.EndPage()
    ensures r == Mapped ==> Loaded(m.Now(), seg, image)
  {
    ghost var hi;
    r, hi := MapZeroPages(m, seg);
    if r == Mapped {
      ghost var v := m.Now();
      FreshMakesReady(old(m.Now()), v, hi, base, seg, n, image);
      Zero(m, seg.vaddr + seg.fileSize, seg.vaddr + seg.memSize);
      ZeroFinishes(v, m.Now(), base, seg, image);
    }
  }

  /** After the copy, only the tail page uses the new frame. */
  lemma TailIsReady(v: Snapshot, v': Snapshot, seg: Segment, size: nat, n: nat)
    requires seg.WellFormed(size) && FileMapped(v.pages, seg, FilePages(seg)) && ImageHeld(v, size)
    requires seg.HasTail() ==>
               && n !in v.held && KernelFrame(v', n) && TEMP_PAGE !in v.pages
               && v'.pages == v.pages[TEMP_PAGE := n][PageOf(seg.vaddr + seg.fileSize - 1) := n]
    ensures TailReady(v', v.held, seg, n)
  {
    if seg.HasTail() {
      forall va | seg.vaddr <= va < seg.vaddr + seg.fileSize && PageOf(va) != PageOf(seg.vaddr + seg.fileSize - 1)
        ensures PageOf(va) in v'.pages && v'.pages[PageOf(va)] != n
      {
        FileByte(v.pages, seg, size, va);
        FileFramesHeld(v, seg, size, PageOf(va));
      }
    }
  }

  /** What may happen to the page map behind the file part. */
  ghost predicate BssPages(pages: map<nat, nat>, pages': map<nat, nat>, seg: Segment) {
    && (forall p :: p in pages' && p !in pages ==>
         (p == TEMP_PAGE && seg.HasTail()) || seg.ZeroPage() <= p <= seg.EndPage())
    && (forall p :: p in pages && !(seg.FirstPage() <= p < seg.FirstPage() + FilePages(seg)) ==>
          p in pages' && pages'[p] == pages[p])
  }

  lemma BssPagesCompose(pages: map<nat, nat>, pages1: map<nat, nat>, pages2: map<nat, nat>, seg: Segment)
    requires BssPages(pages, pages1, seg) && SpanPages(pages1, pages2, seg)
    ensures BssPages(pages, pages2, seg)
  {}

  /** A page behind the file part is already taken, or the temporary page is in the way. */
  ghost predicate BssConflict(pages: map<nat, nat>, seg: Segment) {
    || (seg.HasTail() && (TEMP_PAGE in pages || seg.ZeroPage() <= TEMP_PAGE <= seg.EndPage()))
    || exists p :: p in pages && seg.ZeroPage() <= p <= seg.EndPage()
  }

  lemma ZeroPagesConflict(pages: map<nat, nat>, pages1: map<nat, nat>, seg: Segment)
    requires forall p :: p in pages1 && p !in pages ==> p == TEMP_PAGE && seg.HasTail()
    requires exists p :: p in pages1 && seg.ZeroPage() <= p <= seg.EndPage()
    ensures BssConflict(pages, seg)
  {}

  /** The tail page, if the file part ends inside a page. */
  method PrepareTail(m: Machine, seg: Segment, ghost size: nat, ghost image: nat -> byte)
    returns (r: MapResult, ghost n: nat)
    requires m.Valid() && seg.kind == Load && seg.WellFormed(size) && seg.fileSize < seg.memSize
    requires ImageHeld(m.Now(), size)
    requires FileMapped(m.pages, seg, FilePages(seg)) && SameBytes(image, m.ram, m.held)
    modifies m, m.table, m.table.entries
    ensures r != Panicked ==> m.Valid()
    ensures KeepsOwners(old(m.owner), m.owner)
    ensures r == Mapped ==> Traced(old(m.Now()), m.Now())
    ensures old(m.held) <= m.held && SameBytes(old(m.ram), m.ram, old(m.held)) && BssPages(old(m.pages), m.pages, seg)
    ensures forall p :: p in m.pages && p !in old(m.pages) ==> p == TEMP_PAGE && seg.HasTail()
    ensures m.Explains(r) && (r == Failed(PageAlreadyMapped) ==> seg.HasTail() && TEMP_PAGE in old(m.pages))
    ensures r == Mapped ==> FileLoaded(m.Now(), seg, image) && TailReady(m.Now(), old(m.held), seg, n)
    ensures r == Mapped && seg.HasTail() ==> TEMP_PAGE !in old(m.pages) && TEMP_PAGE in m.pages
  {
    FilePartLoaded(m.Now(), image, seg, size);
    if (seg.vaddr + seg.fileSize) % PAGE_SIZE == 0 {
      return Mapped, 0;
    }
    var last := PageOf(seg.vaddr + seg.fileSize - 1);
    LastIsFilePage(m.Now(), seg, size);
    r, n := CopyTail(m, last);
    TailToBss(old(m.pages), m.pages, seg, last);
    if r == Mapped {
      TailCopied(old(m.Now()), m.Now(), seg, image, last, n);
      TailIsReady(old(m.Now()), m.Now(), seg, size, n);
    }
  }

  /** The page whose rear part must be zeroed is the last file page. */
  lemma LastIsFilePage(v: Snapshot, seg: Segment, size: nat)
    requires seg.HasTail() && seg.WellFormed(size) && ImageHeld(v, size) && FileMapped(v.pages, seg, FilePages(seg))
    ensures seg.FirstPage() <= PageOf(seg.vaddr + seg.fileSize - 1) < seg.FirstPage() + FilePages(seg)
    ensures var last := PageOf(seg.vaddr + seg.fileSize - 1); last in v.pages && v.pages[last] in v.held
  {
    FileFramesHeld(v, seg, size, PageOf(seg.vaddr + seg.fileSize - 1));
  }

  lemma TailToBss(pages: map<nat, nat>, pages': map<nat, nat>, seg: Segment, last: nat)
    requires TailPages(pages, pages', last) && seg.HasTail()
    requires seg.FirstPage() <= last < seg.FirstPage() + FilePages(seg)
    ensures BssPages(pages, pages', seg) && forall p :: p in pages' && p !in pages ==> p == TEMP_PAGE && seg.HasTail()
  {}

  /** Everything `map_segment` does behind the file part. */
  method MapBss(m: Machine, seg: Segment, ghost size: nat, ghost image: nat -> byte) returns (r: MapResult)
    requires m.Valid() && seg.kind == Load && seg.WellFormed(size) && seg.fileSize < seg.memSize
    requires ImageHeld(m.Now(), size)
    requires FileMapped(m.pages, seg, FilePages(seg)) && SameBytes(image, m.ram, m.held)
    modifies m, m.table, m.table.entries
    ensures r != Panicked ==> m.Valid()
    ensures KeepsOwners(old(m.owner), m.owner)
    ensures r == Mapped ==> Traced(old(m.Now()), m.Now())
    ensures old(m.held) <= m.held && SameBytes(old(m.ram), m.ram, old(m.held)) && BssPages(old(m.pages), m.pages, seg)
    ensures m.Explains(r) && (r == Failed(PageAlreadyMapped) ==> BssConflict(old(m.pages), seg))
    ensures r == Mapped ==> Loaded(m.Now(), seg, image)
    ensures r == Mapped ==> ZeroMapped(old(m.pages), m.pages, seg)
    ensures r == Mapped && seg.HasTail() ==> TEMP_PAGE !in old(m.pages) && TEMP_PAGE in m.pages
    ensures r == Mapped && seg.HasTail() ==> !(seg.ZeroPage() <= TEMP_PAGE <= seg.EndPage())
  {
    ghost var n;
    r, n := PrepareTail(m, seg, size, image);
    if r == Mapped {
      ghost var v := m.Now();
      r := FillZeros(m, seg, old(m.held), n, image);
      if r == Mapped { TracedOn(old(m.Now()), v, m.Now()); }
      BssPagesCompose(old(m.pages), v.pages, m.pages, seg);
      if r == Failed(PageAlreadyMapped) { ZeroPagesConflict(old(m.pages), v.pages, seg); }
    }
  }

  /** A page the segment needs is already taken, or the temporary page is. */
  ghost predicate Conflict(pages: map<nat, nat>, seg: Segment) {
    || (exists p :: p in pages && seg.Needs(p))
    || (seg.HasTail() && (TEMP_PAGE in pages || seg.Needs(TEMP_PAGE)))
  }

  /** The pages wholly behind the file part begin where the file pages end. */
  lemma FilePagesEnd(seg: Segment, size: nat)
    requires seg.WellFormed(size)
    ensures seg.FirstPage() + FilePages(seg) == seg.ZeroPage()
  {}

  /** The pages a segment needs: those of the file part, and those wholly behind it. */
  lemma NeedsIff(seg: Segment, size: nat, p: nat)
    requires seg.WellFormed(size)
    ensures seg.Needs(p) <==>
            || seg.FirstPage() <= p < seg.FirstPage() + FilePages(seg)
            || (seg.memSize > seg.fileSize && seg.ZeroPage() <= p <= seg.EndPage())
    ensures seg.Needs(p) ==> seg.FirstPage() <= p <= seg.EndPage()
  {
    FilePagesEnd(seg, size);
    PageBounds(seg.vaddr, p);
    PageBounds(seg.vaddr + seg.fileSize, p);
    PageBounds(seg.vaddr + seg.memSize, p);
  }

  lemma PageBounds(a: nat, p: nat)
    ensures a / PAGE_SIZE <= p <==> a < (p + 1) * PAGE_SIZE
    ensures p <= a / PAGE_SIZE <==> p * PAGE_SIZE <= a
    ensures p < AlignUp(a) / PAGE_SIZE <==> p * PAGE_SIZE < a
  {}

  /** What is kept of the state on any outcome; new pages are the segment's, or the temporary page. */
  ghost predicate SegmentStep(v: Snapshot, v': Snapshot, seg: Segment) {
    && Retains(v, v') && Extends(v.pages, v'.pages)
    && forall p :: p in v'.pages && p !in v.pages ==> TouchedBy(seg, p)
  }

  ghost predicate TouchedBy(seg: Segment, p: nat) {
    seg.kind == Load && (seg.Needs(p) || (seg.HasTail() && p == TEMP_PAGE))
  }

  /** None of the segment's pages was mapped, and all of them are. */
  ghost predicate SegmentMapped(pages: map<nat, nat>, pages': map<nat, nat>, seg: Segment) {
    && (forall p :: TouchedBy(seg, p) ==> p in pages' && p !in pages)
    && (seg.HasTail() ==> !seg.Needs(TEMP_PAGE))
  }

  lemma SegmentPages(pages: map<nat, nat>, pages1: map<nat, nat>, pages2: map<nat, nat>, seg: Segment, size: nat)
    requires seg.kind == Load && seg.WellFormed(size) && seg.memSize > seg.fileSize
    requires FileAdded(pages, pages1, seg, FilePages(seg)) && BssPages(pages1, pages2, seg)
    ensures Extends(pages, pages2) && forall p :: p in pages2 && p !in pages ==> TouchedBy(seg, p)
  {
    forall p | p in pages2 && p !in pages ensures TouchedBy(seg, p) { NeedsIff(seg, size, p); }
  }

  lemma SegmentIsMapped(pages: map<nat, nat>, pages1: map<nat, nat>, pages2: map<nat, nat>, seg: Segment, size: nat)
    requires seg.kind == Load && seg.WellFormed(size) && seg.memSize > seg.fileSize
    requires FileAdded(pages, pages1, seg, FilePages(seg))
    requires ZeroMapped(pages1, pages2, seg) && pages1.Keys <= pages2.Keys
    requires seg.HasTail() ==> TEMP_PAGE !in pages1 && TEMP_PAGE in pages2
    requires seg.HasTail() ==> !(seg.ZeroPage() <= TEMP_PAGE <= seg.EndPage())
    ensures SegmentMapped(pages, pages2, seg)
  {
    forall p | TouchedBy(seg, p) ensures p in pages2 && p !in pages { NeedsIff(seg, size, p); }
    NeedsIff(seg, size, TEMP_PAGE);
  }

  lemma FileIsMapped(pages: map<nat, nat>, pages1: map<nat, nat>, seg: Segment, size: nat, n: nat)
    requires seg.kind == Load && seg.WellFormed(size) && n <= FilePages(seg) && FileAdded(pages, pages1, seg, n)
    ensures forall p :: p in pages1 && p !in pages ==> TouchedBy(seg, p)
    ensures n == FilePages(seg) && seg.memSize == seg.fileSize ==> SegmentMapped(pages, pages1, seg)
  {
    forall p: nat ensures seg.FirstPage() <= p < seg.FirstPage() + n ==> seg.Needs(p) { NeedsIff(seg, size, p); }
    forall p: nat | seg.Needs(p) && seg.memSize == seg.fileSize
      ensures seg.FirstPage() <= p < seg.FirstPage() + FilePages(seg)
    {
      NeedsIff(seg, size, p);
    }
  }

  lemma SegmentConflict(pages: map<nat, nat>, pages1: map<nat, nat>, seg: Segment, size: nat)
    requires seg.WellFormed(size) && seg.memSize > seg.fileSize && BssConflict(pages1, seg)
    requires FileAdded(pages, pages1, seg, FilePages(seg))
    ensures Conflict(pages, seg)
  {
    NeedsIff(seg, size, TEMP_PAGE);
    if p :| p in pages1 && seg.ZeroPage() <= p <= seg.EndPage() { NeedsIff(seg, size, p); }
  }

  lemma FileConflict(pages: map<nat, nat>, seg: Segment, size: nat)
    requires seg.WellFormed(size)
    requires exists p :: p in pages && seg.FirstPage() <= p < seg.FirstPage() + FilePages(seg)
    ensures Conflict(pages, seg)
  {
    var p :| p in pages && seg.FirstPage() <= p < seg.FirstPage() + FilePages(seg);
    NeedsIff(seg, size, p);
  }

  /**
   * `map_segment`.  Whatever the outcome, no byte of a frame held before changes and no
   * existing page is remapped; new pages lie in the segment's span, or are the temporary page.
   */
  method MapSegment(m: Machine, seg: Segment, ghost size: nat) returns (r: MapResult)
    requires m.Valid() && ImageHeld(m.Now(), size) && (seg.kind == Load ==> seg.WellFormed(size))
    modifies m, m.table, m.table.entries
    ensures r != Panicked ==> m.Valid()
    ensures KeepsOwners(old(m.owner), m.owner)
    ensures r == Mapped ==> Traced(old(m.Now()), m.Now())
    ensures SegmentStep(old(m.Now()), m.Now(), seg)
    ensures m.Explains(r) && (r == Failed(PageAlreadyMapped) ==> seg.kind == Load && Conflict(old(m.pages), seg))
    ensures r == Mapped && seg.kind == Load ==> Loaded(m.Now(), seg, old(m.ram))
    ensures r == Mapped ==> SegmentMapped(old(m.pages), m.pages, seg)
  {
    if seg.kind != Load {
      return Mapped;
    }
    ghost var image := m.ram;
    ghost var n;
    r, n := MapFile(m, seg);
    FileIsMapped(old(m.pages), m.pages, seg, size, n);
    ImageStays(old(m.Now()), m.Now(), size);
    if r == Mapped && seg.memSize > seg.fileSize {
      ghost var v := m.Now();
      r := MapBss(m, seg, size, image);
      SegmentPages(old(m.pages), v.pages, m.pages, seg, size);
      if r == Mapped {
        TracedOn(old(m.Now()), v, m.Now());
        SegmentIsMapped(old(m.pages), v.pages, m.pages, seg, size);
      } else if r == Failed(PageAlreadyMapped) {
        SegmentConflict(old(m.pages), v.pages, seg, size);
      }
    } else if r == Mapped {
      FilePartLoaded(m.Now(), image, seg, size);
    } else if r == Failed(PageAlreadyMapped) {
      FileConflict(old(m.pages), seg, size);
    }
  }

  // ------------------------------------------------------------------
  // The whole kernel
  // ------------------------------------------------------------------

  datatype KernelResult =
    | Ok(stackEnd: nat, tls: Option<Segment>)
    | MappingFailed(error: MapError)
    | MultipleTlsSegments
    | KernelPanicked

  /** What was loaded stays loaded, relative to the image as it was at the start. */
  lemma LoadedFrom(v: Snapshot, seg: Segment, image: nat -> byte, image': nat -> byte, size: nat, v0: Snapshot)
    requires seg.WellFormed(size) && ImageHeld(v0, size) && SameBytes(image, image', v0.held)
    requires Loaded(v, seg, image')
    ensures Loaded(v, seg, image)
  {
    forall va | seg.vaddr <= va < seg.vaddr + seg.memSize ensures Reads(v, seg, image, va) {
      var a := KERNEL_START + seg.offset + (va - seg.vaddr);
      if va < seg.vaddr + seg.fileSize {
        var f := a / PAGE_SIZE;
        assert KERNEL_START < (f + 1) * PAGE_SIZE && f * PAGE_SIZE < KERNEL_START + size;
        assert KernelFrame(v0, f);
      }
      assert Reads(v, seg, image', va);
    }
  }

  /** A page that one of the first `n` segments needs. */
  ghost predicate InSegments(segments: seq<Segment>, n: nat, p: nat)
    requires n <= |segments|
  {
    exists i :: 0 <= i < n && segments[i].kind == Load && segments[i].Needs(p)
  }

  /** A page that mapping the first `n` segments touches. */
  ghost predicate Footprint(segments: seq<Segment>, n: nat, p: nat)
    requires n <= |segments|
  {
    exists i :: 0 <= i < n && TouchedBy(segments[i], p)
  }

  /** No page is needed twice: not by two of the first `n` segments, an existing mapping, or the temporary page. */
  ghost predicate Clear(pages: map<nat, nat>, segments: seq<Segment>, n: nat)
    requires n <= |segments|
  {
    && (forall i :: 0 <= i < n && segments[i].kind == Load ==> !Conflict(pages, segments[i]))
    && (forall i, j, p {:trigger TouchedBy(segments[i], p), TouchedBy(segments[j], p)} ::
          0 <= i < j < n && TouchedBy(segments[i], p) ==> !TouchedBy(segments[j], p))
  }

  /** Then the next segment meets no conflict. */
  lemma ClearContinues(pages0: map<nat, nat>, pages: map<nat, nat>, segments: seq<Segment>, k: nat)
    requires Clear(pages0, segments, |segments|) && k < |segments| && segments[k].kind == Load
    requires forall p :: p in pages && p !in pages0 ==> Footprint(segments, k, p)
    ensures !Conflict(pages, segments[k])
  {
    assert !Conflict(pages0, segments[k]);
    forall p: nat | p in pages && p !in pages0 ensures !TouchedBy(segments[k], p) {
      var i :| 0 <= i < k && TouchedBy(segments[i], p);
    }
  }

  /** A segment that was mapped leaves things clear, if they were. */
  lemma ClearNext(pages0: map<nat, nat>, pages: map<nat, nat>, pages': map<nat, nat>, segments: seq<Segment>, k: nat)
    requires k < |segments| && Clear(pages0, segments, k) && Extends(pages0, pages)
    requires forall p :: Footprint(segments, k, p) ==> p in pages
    requires SegmentMapped(pages, pages', segments[k])
    ensures Clear(pages0, segments, k + 1)
  {
    forall i, p: nat | 0 <= i < k && TouchedBy(segments[i], p) ensures !TouchedBy(segments[k], p) {
      assert Footprint(segments, k, p);
    }
    if segments[k].kind == Load {
      forall p: nat | p in pages0 ensures !TouchedBy(segments[k], p) {}
    }
  }

  ghost predicate AllLoaded(v: Snapshot, segments: seq<Segment>, n: nat, image: nat -> byte)
    requires n <= |segments|
  {
    forall i :: 0 <= i < n && segments[i].kind == Load ==> Loaded(v, segments[i], image)
  }

  /** At most one of the first `n` segments is a TLS template, and `tls` is it. */
  ghost predicate TlsFound(segments: seq<Segment>, n: nat, tls: Option<Segment>)
    requires n <= |segments|
  {
    match tls
    case None => forall i :: 0 <= i < n ==> segments[i].kind != Tls
    case Some(seg) => exists i :: 0 <= i < n && OnlyTls(segments, n, i) && segments[i] == seg
  }

  ghost predicate OnlyTls(segments: seq<Segment>, n: nat, i: nat)
    requires i < n <= |segments|
  {
    segments[i].kind == Tls && forall j :: 0 <= j < n && j != i ==> segments[j].kind != Tls
  }

  lemma TlsNext(segments: seq<Segment>, k: nat, tls: Option<Segment>, tls': Option<Segment>)
    requires k < |segments| && TlsFound(segments, k, tls)
    requires if segments[k].kind == Tls then tls == None && tls' == Some(segments[k]) else tls' == tls
    ensures TlsFound(segments, k + 1, tls')
  {
    if segments[k].kind == Tls {
      assert OnlyTls(segments, k + 1, k);
    } else if tls.Some? {
      var i :| 0 <= i < k && OnlyTls(segments, k, i) && segments[i] == tls.value;
      assert OnlyTls(segments, k + 1, i);
    }
  }

  /** The state after `k` headers, relative to the state before the first: exactly their pages were added. */
  ghost predicate Progress(v0: Snapshot, v: Snapshot, segments: seq<Segment>, k: nat)
    requires k <= |segments|
  {
    && Retains(v0, v) && Extends(v0.pages, v.pages)
    && (forall p :: p in v.pages && p !in v0.pages <==> Footprint(segments, k, p))
    && AllLoaded(v, segments, k, v0.ram) && Clear(v0.pages, segments, k)
  }

  /** All loadable segments fit an image of `size` bytes. */
  predicate AllWellFormed(segments: seq<Segment>, size: nat) {
    forall i :: 0 <= i < |segments| && segments[i].kind == Load ==> segments[i].WellFormed(size)
  }

  lemma FootprintNext(segments: seq<Segment>, k: nat, p: nat)
    requires k < |segments|
    ensures Footprint(segments, k + 1, p) <==> Footprint(segments, k, p) || TouchedBy(segments[k], p)
  {}

  lemma LoadedNext(v0: Snapshot, v: Snapshot, v': Snapshot, segments: seq<Segment>, k: nat, size: nat, i: nat)
    requires k < |segments| && i <= k && segments[i].kind == Load && segments[i].WellFormed(size)
    requires ImageHeld(v0, size)
    requires Progress(v0, v, segments, k) && SegmentStep(v, v', segments[k])
    requires i == k ==> Loaded(v', segments[k], v.ram)
    ensures Loaded(v', segments[i], v0.ram)
  {
    if i < k {
      StillLoaded(v, v', segments[i], v0.ram, segments[i].vaddr, segments[i].vaddr + segments[i].memSize);
    } else {
      LoadedFrom(v', segments[k], v0.ram, v.ram, size, v0);
    }
  }

  /** One header. */
  method MapNext(m: Machine, segments: seq<Segment>, k: nat, ghost size: nat, ghost v0: Snapshot) returns (r: MapResult)
    requires m.Valid() && ImageHeld(v0, size) && k < |segments| && AllWellFormed(segments, size)
    requires Progress(v0, m.Now(), segments, k)
    modifies m, m.table, m.table.entries
    ensures r != Panicked ==> m.Valid()
    ensures r == Mapped ==> Traced(old(m.Now()), m.Now())
    ensures Retains(v0, m.Now()) && Extends(v0.pages, m.pages)
    ensures forall p :: p in m.pages && p !in v0.pages ==> Footprint(segments, k + 1, p)
    ensures r == Mapped ==> Progress(v0, m.Now(), segments, k + 1)
    ensures m.Explains(r) && (r == Failed(PageAlreadyMapped) ==> !Clear(v0.pages, segments, |segments|))
  {
    ghost var v := m.Now();
    ImageStays(v0, v, size);
    r := MapSegment(m, segments[k], size);
    if r == Failed(PageAlreadyMapped) && Clear(v0.pages, segments, |segments|) {
      ClearContinues(v0.pages, v.pages, segments, k);
    }
    StepProgress(v0, v, m.Now(), segments, k, size, r == Mapped);
  }

  lemma StepProgress(v0: Snapshot, v: Snapshot, v': Snapshot, segments: seq<Segment>, k: nat, size: nat, done: bool)
    requires k < |segments| && ImageHeld(v0, size) && AllWellFormed(segments, size)
    requires Progress(v0, v, segments, k) && SegmentStep(v, v', segments[k])
    requires done && segments[k].kind == Load ==> Loaded(v', segments[k], v.ram)
    requires done ==> SegmentMapped(v.pages, v'.pages, segments[k])
    ensures Retains(v0, v') && Extends(v0.pages, v'.pages)
    ensures forall p :: p in v'.pages && p !in v0.pages ==> Footprint(segments, k + 1, p)
    ensures done ==> Progress(v0, v', segments, k + 1)
  {
    forall p: nat ensures Footprint(segments, k + 1, p) <==> Footprint(segments, k, p) || TouchedBy(segments[k], p) {
      FootprintNext(segments, k, p);
    }
    if done {
      StepLoaded(v0, v, v', segments, k, size);
      ClearNext(v0.pages, v.pages, v'.pages, segments, k);
    }
  }

  lemma StepLoaded(v0: Snapshot, v: Snapshot, v': Snapshot, segments: seq<Segment>, k: nat, size: nat)
    requires k < |segments| && ImageHeld(v0, size) && AllWellFormed(segments, size)
    requires Progress(v0, v, segments, k) && SegmentStep(v, v', segments[k])
    requires segments[k].kind == Load ==> Loaded(v', segments[k], v.ram)
    ensures AllLoaded(v', segments, k + 1, v0.ram)
  {
    forall i | 0 <= i < k + 1 && segments[i].kind == Load ensures Loaded(v', segments[i], v0.ram) {
      LoadedNext(v0, v, v', segments, k, size, i);
    }
  }

  ghost predicate TwoTls(segments: seq<Segment>) {
    exists i, j :: 0 <= i < j < |segments| && segments[i].kind == Tls && segments[j].kind == Tls
  }

  /** Mapping fails only for a full memory map or for want of frames, conflicts aside. */
  ghost predicate KernelExplains(m: Machine, r: KernelResult)
    reads m, m.table, m.table.entries
  {
    && (r == KernelPanicked ==> m.Explains(Panicked))
    && (r == MappingFailed(FrameAllocationFailed) ==> m.Explains(Failed(FrameAllocationFailed)))
  }

  /** The loop over the program headers. */
  method MapSegments(m: Machine, segments: seq<Segment>, ghost size: nat) returns (r: KernelResult)
    requires m.Valid() && ImageHeld(m.Now(), size) && AllWellFormed(segments, size)
    modifies m, m.table, m.table.entries
    ensures r != KernelPanicked ==> m.Valid()
    ensures r.Ok? ==> Traced(old(m.Now()), m.Now())
    ensures Retains(old(m.Now()), m.Now()) && Extends(old(m.pages), m.pages)
    ensures forall p :: p in m.pages && p !in old(m.pages) ==> Footprint(segments, |segments|, p)
    ensures r.Ok? ==> Progress(old(m.Now()), m.Now(), segments, |segments|)
    ensures r.Ok? ==> TlsFound(segments, |segments|, r.tls)
    ensures KernelExplains(m, r)
    ensures r == MappingFailed(PageAlreadyMapped) ==> !Clear(old(m.pages), segments, |segments|)
    ensures r == MultipleTlsSegments ==> TwoTls(segments)
  {
    var tls := None;
    var k := 0;
    while k < |segments|
      invariant Traced(old(m.Now()), m.Now())
      invariant k <= |segments| && m.Valid()
      invariant Progress(old(m.Now()), m.Now(), segments, k) && TlsFound(segments, k, tls)
    {
      ghost var before, v := tls, m.Now();
      var mapped := MapNext(m, segments, k, size, old(m.Now()));
      forall p: nat | Footprint(segments, k + 1, p) ensures Footprint(segments, |segments|, p) {
        var i :| 0 <= i < k + 1 && TouchedBy(segments[i], p);
      }
      match mapped {
        case Panicked => return KernelPanicked;
        case Failed(e) => return MappingFailed(e);
        case Mapped =>
      }
      if segments[k].kind == Tls {
        if tls.Some? {
          ghost var i :| 0 <= i < k && OnlyTls(segments, k, i) && segments[i] == tls.value;
          assert segments[i].kind == Tls && i < k;
          return MultipleTlsSegments;
        }
        tls := Some(segments[k]);
      }
      TracedOn(old(m.Now()), v, m.Now());
      TlsNext(segments, k, before, tls);
      k := k + 1;
    }
    return Ok(0, tls);
  }

  /** The pages above `guard` have frames of their own, fresh ones for the stack. */
  ghost predicate StackFrames(held0: set<nat>, v: Snapshot, guard: nat, size: nat) {
    && (forall p :: guard < p <= guard + size ==> p in v.pages && FreshFrame(v.pages[p], held0, v, KernelStack))
    && (forall p, q :: guard < p < q <= guard + size && p in v.pages && q in v.pages ==> v.pages[p] != v.pages[q])
  }

  /** No segment's address shares a frame with the stack. */
  ghost predicate StackUnshared(pages: map<nat, nat>, segments: seq<Segment>, guard: nat, size: nat) {
    forall i, va, p :: 0 <= i < |segments| && segments[i].kind == Load
                       && segments[i].vaddr <= va < segments[i].vaddr + segments[i].memSize
                       && guard < p <= guard + size && PageOf(va) in pages && p in pages
                       ==> pages[PageOf(va)] != pages[p]
  }

  lemma AllStillLoaded(v: Snapshot, v': Snapshot, segments: seq<Segment>, image: nat -> byte)
    requires AllLoaded(v, segments, |segments|, image)
    requires Extends(v.pages, v'.pages) && Retains(v, v')
    ensures AllLoaded(v', segments, |segments|, image)
  {
    forall i | 0 <= i < |segments| && segments[i].kind == Load ensures Loaded(v', segments[i], image) {
      StillLoaded(v, v', segments[i], image, segments[i].vaddr, segments[i].vaddr + segments[i].memSize);
    }
  }

  /** Fresh frames for the stack leave the segments loaded and are shared with none of them. */
  lemma StackAdded(v: Snapshot, v': Snapshot, held0: set<nat>, segments: seq<Segment>, image: nat -> byte,
                   guard: nat, size: nat, hi: nat)
    requires held0 <= v.held && AllLoaded(v, segments, |segments|, image)
    requires FreshRange(v, v', guard + 1, hi, KernelStack) && guard + size < hi
    requires Retains(v, v')
    ensures AllLoaded(v', segments, |segments|, image)
    ensures StackFrames(held0, v', guard, size) && StackUnshared(v'.pages, segments, guard, size)
  {
    AllStillLoaded(v, v', segments, image);
    forall i, va, p | 0 <= i < |segments| && segments[i].kind == Load
                      && segments[i].vaddr <= va < segments[i].vaddr + segments[i].memSize
                      && guard < p <= guard + size && PageOf(va) in v'.pages && p in v'.pages
      ensures v'.pages[PageOf(va)] != v'.pages[p]
    {
      assert Loaded(v, segments[i], image) && Reads(v, segments[i], image, va);
      assert FreshFrame(v'.pages[p], v.held, v', KernelStack);
    }
  }

  /**
   * `map_kernel`.  On success every loadable segment reads, through the final page table,
   * as the file's bytes followed by zeros; the stack above the guard page has frames of
   * its own; and the image itself was never written to, on any outcome.
   */
  method MapKernel(m: Machine, stackStart: nat, stackSize: nat, segments: seq<Segment>, ghost size: nat)
    returns (r: KernelResult)
    requires m.Valid() && ImageHeld(m.Now(), size) && AllWellFormed(segments, size)
    modifies m, m.table, m.table.entries
    ensures r != KernelPanicked ==> m.Valid()
    ensures r.Ok? ==> Traced(old(m.Now()), m.Now())
    ensures Retains(old(m.Now()), m.Now()) && Extends(old(m.pages), m.pages)
    ensures forall p :: p in m.pages && p !in old(m.pages) ==>
              Footprint(segments, |segments|, p) || stackStart < p <= stackStart + stackSize
    ensures r.Ok? ==> AllLoaded(m.Now(), segments, |segments|, old(m.ram)) && TlsFound(segments, |segments|, r.tls)
    ensures r.Ok? ==> forall p: nat :: p in m.pages && p !in old(m.pages) <==>
              Footprint(segments, |segments|, p) || stackStart < p <= stackStart + stackSize
    ensures r.Ok? ==> Clear(old(m.pages), segments, |segments|)
    ensures KernelExplains(m, r) && (r == MultipleTlsSegments ==> TwoTls(segments))
    ensures r == MappingFailed(PageAlreadyMapped) && Clear(old(m.pages), segments, |segments|) ==>
              exists p :: stackStart < p <= stackStart + stackSize
                          && (p in old(m.pages) || Footprint(segments, |segments|, p))
    ensures r.Ok? ==> r.stackEnd == (stackStart + 1 + stackSize) * PAGE_SIZE
    ensures r.Ok? ==> StackFrames(old(m.held), m.Now(), stackStart, stackSize)
    ensures r.Ok? ==> StackUnshared(m.pages, segments, stackStart, stackSize)
  {
    r := MapSegments(m, segments, size);
    if !r.Ok? {
      return;
    }
    ghost var v := m.Now();
    ghost var hi;
    var mapped;
    mapped, hi := MapFresh(m, stackStart + 1, stackStart + stackSize, KernelStack);
    if mapped == Panicked {
      return KernelPanicked;
    }
    if mapped.Failed? {
      return MappingFailed(mapped.error);
    }
    TracedOn(old(m.Now()), v, m.Now());
    StackAdded(v, m.Now(), old(m.held), segments, old(m.ram), stackStart, stackSize, hi);
    r := Ok((stackStart + 1 + stackSize) * PAGE_SIZE, r.tls);
  }
}

/**
 * `src/allocator.rs`: mapping the kernel heap with frames from the kernel's own
 * allocator, from which `map_to` also draws its page-table frames.
 */
module KernelHeap {
  import opened Basics
  import opened Regions
  import opened KernelFrames
  import opened Machine

  const HEAP_START: nat := 0x4444_4444_0000
  const HEAP_SIZE: nat := 1024 * 1024
  const FIRST_PAGE: nat := HEAP_START / PAGE_SIZE
  const LAST_PAGE: nat := (HEAP_START + HEAP_SIZE - 1) / PAGE_SIZE

  const HEAP_PAGES: nat := LAST_PAGE + 1 - FIRST_PAGE

  /** The kernel allocator has returned frame `f` within its first `n` calls. */
  ghost predicate Given(s: seq<Region>, n: nat, f: nat) {
    exists k: nat :: k < n && NthFrame(s, k) == Some(f)
  }

  lemma StillGiven(s: seq<Region>, n: nat, n': nat, f: nat)
    requires Given(s, n, f) && n <= n'
    ensures Given(s, n', f)
  {
    var k: nat :| k < n && NthFrame(s, k) == Some(f);
    assert k < n';
  }

  ghost predicate Ascending(heap: set<nat>, pages: map<nat, nat>) {
    forall p, q :: p in heap && q in heap && p < q && p in pages && q in pages ==> pages[p] < pages[q]
  }

  lemma AscendingNext(heap: set<nat>, pages: map<nat, nat>, pages': map<nat, nat>, page: nat)
    requires Ascending(heap, pages) && heap <= pages.Keys && page in pages' && page !in pages
    requires pages' == pages[page := pages'[page]]
    requires forall p :: p in heap ==> p < page && pages'[p] < pages'[page]
    ensures Ascending(heap + {page}, pages')
  {}

  /** Frames come in ascending order. */
  lemma GivenBelow(s: seq<Region>, n: nat, f: nat)
    requires Handover(s) && Given(s, n, f) && NthFrame(s, n).Some?
    ensures f < NthFrame(s, n).value
  {
    SortedSoundAscends(s);
    var k: nat :| k < n && NthFrame(s, k) == Some(f);
    FramesAscend(s, k, n);
  }

  lemma NextIsNew(s: seq<Region>, n: nat)
    requires Handover(s) && NthFrame(s, n).Some?
    ensures !Given(s, n, NthFrame(s, n).value)
  {
    SortedSoundAscends(s);
    forall k: nat | k < n ensures NthFrame(s, k) != NthFrame(s, n) { FramesAscend(s, k, n); }
  }

  /** The intermediate tables that heap pages need. */
  predicate HeapTable(t: TableKey) {
    || t == TableKey(3, FIRST_PAGE / 0x800_0000)
    || t == TableKey(2, FIRST_PAGE / 0x4_0000)
    || t == TableKey(1, FIRST_PAGE / 512)
  }

  lemma HeapSize()
    ensures HEAP_PAGES == 256
  {}

  /** The heap is the mebibyte from its start on. */
  lemma HeapAddresses(va: nat)
    ensures FIRST_PAGE <= va / PAGE_SIZE <= LAST_PAGE <==> 0x4444_4444_0000 <= va < 0x4444_4444_0000 + 1024 * 1024
  {}

  /** `n` tables were added. */
  ghost predicate Added(tables: set<TableKey>, tables': set<TableKey>, n: nat) { |tables'| == |tables| + n }

  lemma OneAdded(tables: set<TableKey>, tables': set<TableKey>, n: nat, key: TableKey)
    requires Added(tables, tables', n) && key !in tables'
    ensures Added(tables, tables' + {key}, n + 1)
  {}

  lemma HeapTables(page: nat)
    requires FIRST_PAGE <= page <= LAST_PAGE
    ensures forall t :: t in TablesFor(page) ==> HeapTable(t)
  {}

  /** At most three tables are added for the heap, and at most two if one of them is missing. */
  lemma FewTables(tables: set<TableKey>, tables': set<TableKey>, n: nat)
    requires Added(tables, tables', n) && forall t :: t in tables' ==> t in tables || HeapTable(t)
    ensures n <= 3 && ((exists t :: HeapTable(t) && t !in tables') ==> n <= 2)
  {
    var all := {TableKey(3, FIRST_PAGE / 0x800_0000), TableKey(2, FIRST_PAGE / 0x4_0000),
                TableKey(1, FIRST_PAGE / 512)};
    SubsetSize(tables', tables + all);
    UnionSize(tables, all);
    if t :| HeapTable(t) && t !in tables' {
      SubsetSize(tables', tables + (all - {t}));
      UnionSize(tables, all - {t});
    }
  }

  lemma UnionSize<T>(a: set<T>, b: set<T>)
    ensures |a + b| <= |a| + |b|
  {
    assert |a + b| + |a * b| == |a| + |b|;
  }

  lemma {:induction false} SubsetSize<T>(a: set<T>, b: set<T>)
    requires a <= b
    ensures |a| <= |b|
  {
    if x :| x in a { SubsetSize(a - {x}, b - {x}); }
  }

  class Mapper {
    const frames: BootInfoFrameAllocator
    var pages: map<nat, nat>
    var tables: set<TableKey>
    /** Page-table frames drawn from the kernel allocator. */
    var drawn: set<nat>
    /** Pages mapped since the start of `InitHeap`. */
    ghost var heap: set<nat>
    /** Their number, that of the new tables, and how things stood at the start. */
    ghost var mapped: nat
    ghost var added: nat
    ghost const tables0: set<TableKey>
    ghost const next0: nat

    /** Heap frames and page-table frames were all given out, each for one purpose. */
    ghost predicate Valid()
      reads this, frames
    {
      && Handover(frames.memoryMap) && heap <= pages.Keys
      && (forall p :: p in heap ==> Given(frames.memoryMap, frames.next, pages[p]) && pages[p] !in drawn)
      && (forall f :: f in drawn ==> Given(frames.memoryMap, frames.next, f))
      && (forall p, q :: p in heap && q in heap && p != q ==> pages[p] != pages[q])
    }

    /** Each page and each new table took one frame, and `others` calls of the allocator served neither. */
    ghost predicate Balanced(others: nat)
      reads this, frames
    {
      Added(tables0, tables, added) && frames.next == next0 + mapped + added + others
    }

    /** More frames were asked for than the map has. */
    ghost predicate Exhausted()
      reads this, frames
    {
      frames.next > UsableFrameCount(frames.memoryMap)
    }

    constructor (frames: BootInfoFrameAllocator, pages: map<nat, nat>, tables: set<TableKey>)
      requires Handover(frames.memoryMap)
      ensures Valid() && this.frames == frames && this.pages == pages && this.tables == tables
      ensures heap == {} && drawn == {} && mapped == 0 && added == 0 && tables0 == tables && next0 == frames.next
      ensures Balanced(0)
    {
      this.frames, this.pages, this.tables := frames, pages, tables;
      drawn, heap, mapped, added := {}, {}, 0, 0;
      tables0, next0 := tables, frames.next;
    }

    /** A frame that was never given out before. */
    method Draw() returns (r: Option<nat>)
      requires Valid()
      modifies frames
      ensures Valid() && frames.next == old(frames.next) + 1
      ensures r == NthFrame(frames.memoryMap, old(frames.next)) && (r == None ==> Exhausted())
      ensures r.Some? ==> Given(frames.memoryMap, frames.next, r.value)
      ensures r.Some? ==> !Given(frames.memoryMap, old(frames.next), r.value)
    {
      ghost var n := frames.next;
      r := frames.AllocateFrame();
      UsableFramesLength(frames.memoryMap);
      forall f: nat | Given(frames.memoryMap, n, f) ensures Given(frames.memoryMap, n + 1, f) {
        StillGiven(frames.memoryMap, n, n + 1, f);
      }
      if r.Some? {
        NextIsNew(frames.memoryMap, n);
        assert n < n + 1 && NthFrame(frames.memoryMap, n) == Some(r.value);
      }
    }

    /** One intermediate table of `map_to`; the frame about to be mapped is not drawn again. */
    method EnsureTable(key: TableKey, ghost frame: nat) returns (ok: bool)
      requires Valid() && Given(frames.memoryMap, frames.next, frame) && frame !in drawn && Balanced(1)
      modifies frames, `tables, `drawn, `added
      ensures Valid() && Given(frames.memoryMap, frames.next, frame) && old(drawn) <= drawn && frame !in drawn
      ensures if ok then key in tables && Balanced(1) else Exhausted() && key !in tables && Balanced(2)
      ensures old(tables) <= tables && forall t :: t in tables ==> t in old(tables) || t == key
    {
      ok := true;
      if key !in tables {
        ghost var n := frames.next;
        var table := Draw();
        StillGiven(frames.memoryMap, n, frames.next, frame);
        if table == None {
          return false;
        }
        OneAdded(tables0, tables, added, key);
        tables, added := tables + {key}, added + 1;
        drawn := drawn + {table.value};
      }
    }

    method EnsureTables(keys: seq<TableKey>, ghost frame: nat) returns (ok: bool)
      requires Valid() && Given(frames.memoryMap, frames.next, frame) && frame !in drawn && Balanced(1)
      modifies frames, `tables, `drawn, `added
      ensures Valid() && Given(frames.memoryMap, frames.next, frame) && old(drawn) <= drawn && frame !in drawn
      ensures ok ==> (forall k :: 0 <= k < |keys| ==> keys[k] in tables) && Balanced(1)
      ensures !ok ==> Exhausted() && (exists k :: 0 <= k < |keys| && keys[k] !in tables) && Balanced(2)
      ensures forall t :: t in tables ==> t in old(tables) || t in keys
    {
      var i := 0;
      while i < |keys|
        invariant i <= |keys| && Valid() && Balanced(1) && old(drawn) <= drawn
        invariant Given(frames.memoryMap, frames.next, frame) && frame !in drawn
        invariant forall k :: 0 <= k < i ==> keys[k] in tables
        invariant forall t :: t in tables ==> t in old(tables) || t in keys
      {
        ok := EnsureTable(keys[i], frame);
        if !ok {
          return;
        }
        i := i + 1;
      }
      return true;
    }

    /** Every heap page has a usable frame of its own, in ascending order, which no page table uses. */
    ghost predicate HeapMapped()
      reads this, frames
    {
      && (forall p :: FIRST_PAGE <= p <= LAST_PAGE ==>
            p in pages && pages[p] !in drawn && Given(frames.memoryMap, frames.next, pages[p])
            && IsUsable(frames.memoryMap, pages[p]))
      && (forall p, q :: FIRST_PAGE <= p < q <= LAST_PAGE && p in pages && q in pages ==> pages[p] < pages[q])
    }

    lemma HeapIsMapped()
      requires Valid() && Ascending(heap, pages) && forall p :: FIRST_PAGE <= p <= LAST_PAGE ==> p in heap
      ensures HeapMapped()
    {
      KernelListsEachOnce(frames.memoryMap);
    }

    /** A table for the page could not be had. */
    ghost predicate Missing(page: nat)
      reads this
    {
      exists t :: t in TablesFor(page) && t !in tables
    }

    /** All new tables are the heap's. */
    ghost predicate HeapTablesOnly()
      reads this
    {
      forall t :: t in tables ==> t in tables0 || HeapTable(t)
    }

    /** If frames run out, the map never offered enough for the heap and its tables. */
    lemma RanOut(page: nat)
      requires Exhausted() && FIRST_PAGE <= page <= LAST_PAGE && mapped < HEAP_PAGES && HeapTablesOnly()
      requires Balanced(1) || (Balanced(2) && Missing(page))
      ensures UsableFrameCount(frames.memoryMap) < next0 + 259
    {
      HeapSize();
      HeapTables(page);
      FewTables(tables0, tables, added);
    }

    /** `map_to`, for a frame just drawn for the page. */
    method MapTo(page: nat, frame: nat) returns (r: MapResult)
      requires Valid() && page !in heap && Balanced(1)
      requires Given(frames.memoryMap, frames.next, frame) && frame !in drawn
      requires forall p :: p in heap ==> pages[p] != frame
      modifies this, frames
      ensures Valid() && old(drawn) <= drawn
      ensures r == Failed(PageAlreadyMapped) <==> page in old(pages)
      ensures pages == if r == Mapped then old(pages)[page := frame] else old(pages)
      ensures r == Mapped ==> heap == old(heap) + {page} && mapped == old(mapped) + 1 && Balanced(0)
      ensures r != Mapped ==> heap == old(heap) && mapped == old(mapped)
      ensures r == Mapped ==> forall t :: t in TablesFor(page) ==> t in tables
      ensures r == Failed(FrameAllocationFailed) ==> Exhausted() && Balanced(2) && Missing(page)
      ensures r != Panicked
      ensures forall t :: t in tables ==> t in old(tables) || t in TablesFor(page)
    {
      if page in pages {
        return Failed(PageAlreadyMapped);
      }
      var ok := EnsureTables(TablesFor(page), frame);
      if !ok {
        return Failed(FrameAllocationFailed);
      }
      pages, heap, mapped := pages[page := frame], heap + {page}, mapped + 1;
      return Mapped;
    }

    /** One round of the heap loop: the next frame of the allocator for the page, then `map_to`. */
    method MapHeapPage(page: nat) returns (r: MapResult)
      requires Valid() && page !in heap && Balanced(0) && HeapTablesOnly()
      requires FIRST_PAGE <= page <= LAST_PAGE && mapped < HEAP_PAGES
      modifies this, frames
      ensures Valid() && old(drawn) <= drawn
      ensures r == Mapped ==> page !in old(pages) && heap == old(heap) + {page} && page in pages
      ensures r == Mapped ==> NthFrame(frames.memoryMap, old(frames.next)) == Some(pages[page])
      ensures r == Mapped ==> forall p :: p in old(heap) ==> pages[p] < pages[page]
      ensures r == Mapped ==> mapped == old(mapped) + 1 && Balanced(0)
      ensures r == Failed(PageAlreadyMapped) ==> page in old(pages)
      ensures HeapTablesOnly()
      ensures r == Failed(FrameAllocationFailed) ==> UsableFrameCount(frames.memoryMap) < next0 + 259
      ensures r != Panicked
      ensures r != Mapped ==> heap == old(heap) && mapped == old(mapped)
      ensures r == Mapped ==> pages == old(pages)[page := pages[page]]
      ensures r != Mapped ==> pages == old(pages)
    {
      ghost var n := frames.next;
      var frame := Draw();
      if frame == None {
        RanOut(page);
        return Failed(FrameAllocationFailed);
      }
      forall p | p in heap ensures pages[p] < frame.value {
        GivenBelow(frames.memoryMap, n, pages[p]);
      }
      r := MapTo(page, frame.value);
      HeapTables(page);
      if r == Failed(FrameAllocationFailed) { RanOut(page); }
    }
  }

  /**
   * `init_heap`: on success every heap page has a frame of its own, which no page table
   * uses and which the bootloader's map offered as usable.
   */
  method InitHeap(m: Mapper) returns (r: MapResult)
    requires m.Valid() && m.heap == {} && m.mapped == 0 && m.tables == m.tables0 && m.Balanced(0)
    modifies m, m.frames
    ensures m.Valid()
    ensures forall p :: p in old(m.pages) ==> p in m.pages && m.pages[p] == old(m.pages)[p]
    ensures forall p :: p in m.pages ==> p in old(m.pages) || FIRST_PAGE <= p <= LAST_PAGE
    ensures r == Failed(FrameAllocationFailed) ==>
              UsableFrameCount(m.frames.memoryMap) < old(m.frames.next) + 259
    ensures r == Failed(PageAlreadyMapped) ==> exists p :: p in old(m.pages) && FIRST_PAGE <= p <= LAST_PAGE
    ensures r != Panicked
    ensures r == Mapped ==> m.HeapMapped()
  {
    var page := FIRST_PAGE;
    while page <= LAST_PAGE
      invariant FIRST_PAGE <= page <= LAST_PAGE + 1 && m.Valid()
      invariant forall p :: p in m.heap <==> FIRST_PAGE <= p < page
      invariant forall p :: p in m.pages <==> p in old(m.pages) || FIRST_PAGE <= p < page
      invariant forall p :: p in old(m.pages) ==> m.pages[p] == old(m.pages)[p]
      invariant Ascending(m.heap, m.pages)
      invariant m.Balanced(0) && m.mapped == page - FIRST_PAGE && m.HeapTablesOnly()
    {
      ghost var heap, pages := m.heap, m.pages;
      r := m.MapHeapPage(page);
      if r != Mapped {
        return;
      }
      AscendingNext(heap, pages, m.pages, page);
      page := page + 1;
    }
    m.HeapIsMapped();
    return Mapped;
  }
}

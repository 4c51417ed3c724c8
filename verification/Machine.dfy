/**
 * The state the loader works on: the page table, physical memory and the frame
 * allocator's map.  `map_to` and `unmap` of the paging library are modelled by
 * their effect: intermediate tables are created on demand from page-table frames,
 * a page that is already mapped is refused, and only the bytes of page-table
 * frames change.
 */
module Machine {
  import opened Basics
  import opened Regions
  import opened MemoryMaps
  import opened FrameAllocator

  /** An intermediate page table, by level and by the page-number prefix it serves. */
  datatype TableKey = TableKey(level: nat, prefix: nat)

  function TablesFor(page: nat): seq<TableKey> {
    [TableKey(3, page / 0x800_0000), TableKey(2, page / 0x4_0000), TableKey(1, page / 512)]
  }

  /** For a 2 MiB page: no level-1 table. */
  function HugeTablesFor(page: nat): seq<TableKey> {
    [TableKey(3, page / 0x4_0000), TableKey(2, page / 512)]
  }

  /** The indices by which the processor walks from the level-4 table to the level-1 entry of a page. */
  function WalkIndex(page: nat, level: nat): nat
    requires 1 <= level <= 4
  {
    page / (if level == 4 then 0x800_0000 else if level == 3 then 0x4_0000 else if level == 2 then 512 else 1) % 512
  }

  lemma WalkStep(a: nat, b: nat)
    ensures a == b <==> a / 512 == b / 512 && a % 512 == b % 512
  {}

  lemma Prefixes(p: nat)
    ensures p / 0x4_0000 == p / 512 / 512 && p / 0x800_0000 == p / 0x4_0000 / 512
  {}

  /** Two pages of the 48-bit space are served by the same table exactly if their walks agree down to it. */
  lemma SameTableIff(p: nat, q: nat)
    requires p < 0x10_0000_0000 && q < 0x10_0000_0000
    ensures |TablesFor(p)| == 3 && forall k :: 0 <= k < 3 ==> TablesFor(p)[k].level == 3 - k
    ensures TablesFor(p)[0] == TablesFor(q)[0] <==> WalkIndex(p, 4) == WalkIndex(q, 4)
    ensures TablesFor(p)[1] == TablesFor(q)[1] <==>
            TablesFor(p)[0] == TablesFor(q)[0] && WalkIndex(p, 3) == WalkIndex(q, 3)
    ensures TablesFor(p)[2] == TablesFor(q)[2] <==>
            TablesFor(p)[1] == TablesFor(q)[1] && WalkIndex(p, 2) == WalkIndex(q, 2)
  {
    Prefixes(p);
    Prefixes(q);
    WalkStep(p / 0x4_0000, q / 0x4_0000);
    WalkStep(p / 512, q / 512);
    assert p / 0x800_0000 < 512 && q / 0x800_0000 < 512;
  }

  /** A 2 MiB page needs the upper tables of the pages it stands for. */
  lemma HugeTablesShared(page: nat, p: nat)
    requires page * 512 <= p < (page + 1) * 512
    ensures HugeTablesFor(page) == TablesFor(p)[..2]
  {}

  /** A page inside a 2 MiB page counts as already mapped. */
  datatype MapError = FrameAllocationFailed | PageAlreadyMapped

  datatype MapResult = Mapped | Failed(error: MapError) | Panicked

  /** The physical address of byte `o` of a frame. */
  function Cell(frame: nat, o: nat): (pa: nat)
    requires o < PAGE_SIZE
    ensures pa / PAGE_SIZE == frame && pa % PAGE_SIZE == o
  {
    frame * PAGE_SIZE + o
  }

  function PageOf(va: nat): nat { va / PAGE_SIZE }

  /** The physical address a virtual address stands for. */
  function Phys(pages: map<nat, nat>, va: nat): nat
    requires PageOf(va) in pages
  {
    Cell(pages[PageOf(va)], va % PAGE_SIZE)
  }

  /** The 512 small pages that one 2 MiB page stands for. */
  function HugeMap(page: nat, frame: nat): map<nat, nat> {
    map p | page * 512 <= p < (page + 1) * 512 :: SmallFrame(page, frame, p)
  }

  /** The 4 KiB frame behind small page `p` of a 2 MiB page. */
  function SmallFrame(page: nat, frame: nat, p: nat): nat
    requires page * 512 <= p
  {
    frame * 512 + (p - page * 512)
  }

  /** The memory map gives the frame to `kind` and does not offer it. */
  ghost predicate Assigned(s: seq<Region>, f: nat, kind: RegionType) {
    !IsUsable(s, f) && Owners(s, f, kind) > 0
  }

  /** Frames in use are recorded in the memory map, each with its purpose. */
  ghost predicate Books(s: seq<Region>, held: set<nat>, tableFrames: set<nat>, owner: map<nat, RegionType>) {
    && Sound(s)
    && held !! tableFrames && held + tableFrames <= owner.Keys
    && (forall f :: f in tableFrames ==> owner[f] == PageTable)
    && (forall f {:trigger Assigned(s, f, owner[f])} :: f in owner ==> Assigned(s, f, owner[f]))
  }

  /** An allocation keeps all frames in use as they are, and adds one. */
  lemma FrameTaken(s: seq<Region>, s': seq<Region>, kind: RegionType, n: nat,
                   held: set<nat>, tableFrames: set<nat>, owner: map<nat, RegionType>)
    requires Books(s, held, tableFrames, owner) && kind != Usable && AllocStep(s, s', kind, Frame(n))
    ensures n !in owner && Books(s', held, tableFrames, owner[n := kind])
  {
    StillAssigned(s, s', kind, n, held, tableFrames, owner);
    AllocationKeepsSound(s, s', kind, n);
  }

  lemma StillAssigned(s: seq<Region>, s': seq<Region>, kind: RegionType, n: nat,
                      held: set<nat>, tableFrames: set<nat>, owner: map<nat, RegionType>)
    requires Books(s, held, tableFrames, owner) && kind != Usable && AllocStep(s, s', kind, Frame(n))
    ensures n !in owner && Assigned(s', n, kind) && forall f :: f in owner ==> Assigned(s', f, owner[f])
  {
    var claim := Region(n, n + 1, kind);
    AllocationMovesOneFrame(s, s', kind, n);
    assert n in owner ==> Assigned(s, n, owner[n]);
    TransferConsumes(s, s', claim);
    assert claim.Covers(n);
    TransferKeepsOwners(s, s', claim, n, kind);
    forall f | f in owner ensures Assigned(s', f, owner[f]) {
      assert Assigned(s, f, owner[f]);
      TransferKeepsOwners(s, s', claim, f, owner[f]);
    }
  }

  lemma WithTable(s: seq<Region>, held: set<nat>, tableFrames: set<nat>, owner: map<nat, RegionType>, n: nat)
    requires Books(s, held, tableFrames, owner) && n in owner && owner[n] == PageTable && n !in held
    ensures Books(s, held, tableFrames + {n}, owner)
  {}

  /** Frames in use keep their purpose. */
  ghost predicate KeepsOwners(owner: map<nat, RegionType>, owner': map<nat, RegionType>) {
    forall f :: f in owner ==> f in owner' && owner'[f] == owner[f]
  }

  /** Some page that a level-1 table serves is mapped. */
  ghost predicate InService(pages: map<nat, nat>, prefix: nat) {
    exists p :: p in pages && p / 512 == prefix
  }

  /** What a machine holds at one moment. */
  datatype Snapshot = Snapshot(pages: map<nat, nat>, tables: set<TableKey>, ram: nat -> byte,
                               held: set<nat>, owner: map<nat, RegionType>)

  /** Every new level-1 table serves a mapped page. */
  ghost predicate Served(tables: set<TableKey>, v: Snapshot) {
    forall t :: t in v.tables && t !in tables && t.level == 1 ==> InService(v.pages, t.prefix)
  }

  /** Besides, no page was given up. */
  ghost predicate Traced(v: Snapshot, v': Snapshot) {
    v.pages.Keys <= v'.pages.Keys && Served(v.tables, v')
  }

  lemma ServedOn(tables: set<TableKey>, v: Snapshot, v': Snapshot)
    requires Served(tables, v) && Traced(v, v')
    ensures Served(tables, v')
  {
    forall t | t in v'.tables && t !in tables && t.level == 1 ensures InService(v'.pages, t.prefix) {
      if t in v.tables {
        assert InService(v.pages, t.prefix);
        var p :| p in v.pages && p / 512 == t.prefix;
        assert p in v'.pages;
      }
    }
  }

  lemma TracedOn(v: Snapshot, v1: Snapshot, v2: Snapshot)
    requires Traced(v, v1) && Traced(v1, v2)
    ensures Traced(v, v2)
  {
    ServedOn(v.tables, v1, v2);
  }

  lemma TracedPage(v: Snapshot, v': Snapshot, page: nat)
    requires AddsOnly(v.tables, v'.tables, TablesFor(page)) && v.pages.Keys <= v'.pages.Keys && page in v'.pages
    ensures Traced(v, v')
  {
    forall t | t in v'.tables && t !in v.tables && t.level == 1 ensures InService(v'.pages, t.prefix) {
      assert t in TablesFor(page);
    }
  }

  /** Every table was given one frame. */
  ghost predicate FramePerTable(tables: set<TableKey>, frames: set<nat>, tables': set<TableKey>, frames': set<nat>) {
    |tables'| + |frames| == |tables| + |frames'|
  }

  lemma OneMore(tables: set<TableKey>, frames: set<nat>, key: TableKey, n: nat)
    requires key !in tables && n !in frames
    ensures FramePerTable(tables, frames, tables + {key}, frames + {n})
  {}

  lemma FramePerTableOn(tables: set<TableKey>, frames: set<nat>, tables1: set<TableKey>, frames1: set<nat>,
                        tables2: set<TableKey>, frames2: set<nat>)
    requires FramePerTable(tables, frames, tables1, frames1) && FramePerTable(tables1, frames1, tables2, frames2)
    ensures FramePerTable(tables, frames, tables2, frames2)
  {}

  /** Exactly the tables for a page are there besides the old ones. */
  ghost predicate Adds(tables: set<TableKey>, tables': set<TableKey>, keys: seq<TableKey>) {
    AddsOnly(tables, tables', keys) && forall k :: 0 <= k < |keys| ==> keys[k] in tables'
  }

  ghost predicate AddsOnly(tables: set<TableKey>, tables': set<TableKey>, keys: seq<TableKey>) {
    tables <= tables' && forall t :: t in tables' && t !in tables ==> t in keys
  }

  class Machine {
    const table: MemoryMap
    /** What page-table frames contain for a given mapping; deliberately arbitrary. */
    const entryBytes: (map<nat, nat>, nat) -> byte

    var pages: map<nat, nat>
    var tables: set<TableKey>
    var tableFrames: set<nat>
    var ram: nat -> byte

    /** Frames whose contents matter: the ELF image, and frames given to the kernel. */
    ghost var held: set<nat>
    /** What each frame in use is used for. */
    ghost var owner: map<nat, RegionType>

    ghost function Now(): Snapshot
      reads this
    {
      Snapshot(pages, tables, ram, held, owner)
    }

    /** No address of memory lies at or above it. */
    ghost const top: nat

    /** Frames in use are recorded as such in the memory map, and never offered again. */
    ghost predicate Valid()
      reads this, table, table.entries
    {
      table.Valid() && Books(table.Slice(), held, tableFrames, owner) && Below(table.Slice(), top)
    }

    /** The only reasons for failure: no usable frame left, or a full memory map. */
    ghost predicate Explains(r: MapResult)
      reads this, table, table.entries
    {
      && (r == Panicked ==> table.Valid() && |table.Slice()| == MAX_MEMORY_MAP_SIZE)
      && (r == Failed(FrameAllocationFailed) ==> table.Valid() && UsableFrameCount(table.Slice()) == 0)
    }

    constructor (table: MemoryMap, entryBytes: (map<nat, nat>, nat) -> byte, pages: map<nat, nat>,
                 tables: set<TableKey>, tableFrames: set<nat>, ram: nat -> byte, ghost held: set<nat>,
                 ghost owner: map<nat, RegionType>, ghost top: nat)
      requires table.Valid() && Books(table.Slice(), held, tableFrames, owner) && Below(table.Slice(), top)
      ensures Valid() && this.top == top
      ensures this.table == table && this.pages == pages && this.tables == tables && this.owner == owner
      ensures this.tableFrames == tableFrames && this.ram == ram && this.held == held
    {
      this.table, this.entryBytes, this.pages, this.tables := table, entryBytes, pages, tables;
      this.tableFrames, this.ram, this.held, this.owner, this.top := tableFrames, ram, held, owner, top;
    }

    /** A frame from the allocator was nobody's, and now belongs to `kind`. */
    method TakeFrame(kind: RegionType) returns (r: Allocation)
      requires Valid() && kind != Usable
      modifies this`owner, table, table.entries
      ensures r != Panic ==> Valid()
      ensures r.Frame? ==> r.number !in old(owner) && owner == old(owner)[r.number := kind]
      ensures r.Frame? ==> r.number !in held && r.number !in tableFrames
      ensures !r.Frame? ==> owner == old(owner)
      ensures r == Panic ==> Explains(Panicked)
      ensures r == OutOfMemory ==> Explains(Failed(FrameAllocationFailed))
    {
      ghost var s := table.Slice();
      r := AllocateFrame(table, kind);
      OutOfMemoryIffExhausted(s, table.Slice(), kind, r);
      if r.Frame? {
        FrameTaken(s, table.Slice(), kind, r.number, held, tableFrames, owner);
        AllocationKeepsBelow(s, table.Slice(), kind, r.number, top);
        owner := owner[r.number := kind];
      }
    }

    /** From now on the contents of frame `n` matter. */
    ghost method Hold(n: nat)
      requires Valid() && n in owner && n !in tableFrames
      modifies this`held
      ensures Valid() && held == old(held) + {n}
    {
      held := held + {n};
    }

    /** The library writes entries; every page-table frame may now hold anything. */
    method WriteTables()
      modifies `ram
      ensures forall a: nat :: a / PAGE_SIZE !in tableFrames ==> ram(a) == old(ram)(a)
    {
      var before, mapping, frames, bytes := ram, pages, tableFrames, entryBytes;
      ram := (a: nat) => if a / PAGE_SIZE in frames then bytes(mapping, a) else before(a);
    }

    /** The frame becomes a table. */
    method AddTable(key: TableKey, n: nat)
      requires Valid() && key !in tables && n !in held && n !in tableFrames && n in owner && owner[n] == PageTable
      modifies this`tables, this`tableFrames
      ensures Valid() && key in tables && old(tableFrames) <= tableFrames
      ensures AddsOnly(old(tables), tables, [key])
      ensures FramePerTable(old(tables), old(tableFrames), tables, tableFrames)
    {
      OneMore(tables, tableFrames, key, n);
      WithTable(table.Slice(), held, tableFrames, owner, n);
      tables := tables + {key};
      tableFrames := tableFrames + {n};
    }

    /** Makes sure one intermediate table exists. */
    method EnsureTable(key: TableKey) returns (r: MapResult)
      requires Valid()
      modifies this`tables, this`tableFrames, this`owner, table, table.entries
      ensures r != Panicked ==> Valid()
      ensures r == Mapped ==> key in tables
      ensures AddsOnly(old(tables), tables, [key])
      ensures FramePerTable(old(tables), old(tableFrames), tables, tableFrames)
      ensures old(tableFrames) <= tableFrames && held !! tableFrames
      ensures r != Failed(PageAlreadyMapped) && Explains(r)
      ensures KeepsOwners(old(owner), owner)
    {
      if key in tables {
        return Mapped;
      }
      var frame := TakeFrame(PageTable);
      match frame {
        case Panic => return Panicked;
        case OutOfMemory => return Failed(FrameAllocationFailed);
        case Frame(n) =>
          AddTable(key, n);
          return Mapped;
      }
    }

    /** `map_to`: missing tables get a frame each, and the page its entry. */
    method MapTo(page: nat, frame: nat) returns (r: MapResult)
      requires Valid()
      modifies this`tables, this`tableFrames, this`pages, this`ram, this`owner, table, table.entries
      ensures r != Panicked ==> Valid()
      ensures pages == if r == Mapped then old(pages)[page := frame] else old(pages)
      ensures r == Failed(PageAlreadyMapped) <==> page in old(pages)
      ensures r == Mapped ==> Adds(old(tables), tables, TablesFor(page))
      ensures FramePerTable(old(tables), old(tableFrames), tables, tableFrames)
      ensures Explains(r) && KeepsOwners(old(owner), owner)
      ensures forall a: nat :: a / PAGE_SIZE in held ==> ram(a) == old(ram)(a)
    {
      if page in pages {
        return Failed(PageAlreadyMapped);
      }
      r := EnsureTables(TablesFor(page));
      if r == Mapped {
        pages := pages[page := frame];
      }
      WriteTables();
    }

    /** `map_page`: `map_to` with page-table frames from the bootloader's allocator. */
    method MapPage(page: nat, frame: nat) returns (r: MapResult)
      requires Valid()
      modifies this`tables, this`tableFrames, this`pages, this`ram, this`owner, table, table.entries
      ensures r != Panicked ==> Valid()
      ensures pages == if r == Mapped then old(pages)[page := frame] else old(pages)
      ensures r == Failed(PageAlreadyMapped) <==> page in old(pages)
      ensures r == Mapped ==> Traced(old(Now()), Now())
      ensures Explains(r)
      ensures forall a: nat :: a / PAGE_SIZE in held ==> ram(a) == old(ram)(a)
      ensures KeepsOwners(old(owner), owner)
    {
      r := MapTo(page, frame);
      if r == Mapped { TracedPage(old(Now()), Now(), page); }
    }

    method EnsureTables(keys: seq<TableKey>) returns (r: MapResult)
      requires Valid()
      modifies this`tables, this`tableFrames, this`owner, table, table.entries
      ensures r != Panicked ==> Valid()
      ensures held !! tableFrames && AddsOnly(old(tables), tables, keys)
      ensures KeepsOwners(old(owner), owner)
      ensures r != Failed(PageAlreadyMapped) && Explains(r)
      ensures r == Mapped ==> Adds(old(tables), tables, keys)
      ensures FramePerTable(old(tables), old(tableFrames), tables, tableFrames)
    {
      var i := 0;
      while i < |keys|
        invariant i <= |keys| && Valid()
        invariant KeepsOwners(old(owner), owner) && AddsOnly(old(tables), tables, keys)
        invariant forall k :: 0 <= k < i ==> keys[k] in tables
        invariant FramePerTable(old(tables), old(tableFrames), tables, tableFrames)
      {
        ghost var before, frames := tables, tableFrames;
        r := EnsureTable(keys[i]);
        FramePerTableOn(old(tables), old(tableFrames), before, frames, tables, tableFrames);
        if r != Mapped {
          return;
        }
        i := i + 1;
      }
      return Mapped;
    }

    /** `map_to` for a 2 MiB page: all its 4 KiB pages at once, and no level-1 table. */
    method MapHugeTo(page: nat, frame: nat) returns (r: MapResult)
      requires Valid() && TableKey(1, page) !in tables && HugeMap(page, frame).Keys !! pages.Keys
      modifies this`tables, this`tableFrames, this`pages, this`ram, this`owner, table, table.entries
      ensures r != Panicked ==> Valid()
      ensures pages == if r == Mapped then old(pages) + HugeMap(page, frame) else old(pages)
      ensures r != Failed(PageAlreadyMapped) && AddsOnly(old(tables), tables, HugeTablesFor(page))
      ensures r == Mapped ==> Adds(old(tables), tables, HugeTablesFor(page))
      ensures FramePerTable(old(tables), old(tableFrames), tables, tableFrames)
      ensures Explains(r) && KeepsOwners(old(owner), owner)
      ensures forall a: nat :: a / PAGE_SIZE in held ==> ram(a) == old(ram)(a)
    {
      r := EnsureTables(HugeTablesFor(page));
      if r == Mapped {
        pages := pages + HugeMap(page, frame);
      }
      WriteTables();
    }

    /** `map_page` for a 2 MiB page. */
    method MapHuge(page: nat, frame: nat) returns (r: MapResult)
      requires Valid()
      modifies this`tables, this`tableFrames, this`pages, this`ram, this`owner, table, table.entries
      ensures r != Panicked ==> Valid()
      ensures forall t :: t in tables && t !in old(tables) ==> t.level > 1
      ensures pages == if r == Mapped then old(pages) + HugeMap(page, frame) else old(pages)
      ensures r == Failed(PageAlreadyMapped) <==>
                TableKey(1, page) in old(tables) || !(HugeMap(page, frame).Keys !! old(pages).Keys)
      ensures Explains(r)
      ensures forall a: nat :: a / PAGE_SIZE in held ==> ram(a) == old(ram)(a)
      ensures KeepsOwners(old(owner), owner)
    {
      if TableKey(1, page) in tables || !(HugeMap(page, frame).Keys !! pages.Keys) {
        return Failed(PageAlreadyMapped);
      }
      r := MapHugeTo(page, frame);
    }

    /** `unmap`, for a page that is mapped. */
    method UnmapPage(page: nat)
      requires Valid() && page in pages
      modifies this`pages, this`ram
      ensures Valid() && pages == old(pages) - {page}
      ensures forall a: nat :: a / PAGE_SIZE in held ==> ram(a) == old(ram)(a)
    {
      pages := pages - {page};
      WriteTables();
    }
  }
}

/**
 * `level4_entries.rs`: reserving virtual address space in units of level-4 page
 * table entries (512 GiB each), and the arithmetic of the physical-memory window.
 */
module Level4 {
  import opened Regions
  import opened Loader

  const ENTRIES: nat := 512
  const LEVEL_4_SIZE: nat := 4096 * 512 * 512 * 512

  /** The number of virtual addresses: 48 bits are translated. */
  const SPACE: nat := 0x1_0000_0000_0000

  /**
   * `VirtAddr::new` takes an address that fits 48 bits, and repeats bit 47 above it, or one
   * that is sign-extended already.  It panics on all others.
   */
  predicate Accepted(a: nat) {
    a < SPACE || 0xffff_8000_0000_0000 <= a < 0x1_0000_0000_0000_0000
  }

  /** In bits: 47 to 63 are all zero, only bit 47 is set, or all are one. */
  lemma AcceptedIff(a: nat)
    requires a < 0x1_0000_0000_0000_0000
    ensures Accepted(a) <==> a / 0x8000_0000_0000 in {0, 1, 0x1_ffff}
  {}

  /** The bits that are translated; pages and segments are named by them. */
  function Low(a: nat): (l: nat)
    ensures l < SPACE
  {
    a % SPACE
  }

  /** The sign-extended form of a 48-bit address. */
  function Extended(a: nat): nat
    requires a < SPACE
  {
    if a < 0x8000_0000_0000 then a else a + 0xffff_0000_0000_0000
  }

  /** Bits 47 to 63 of the extended address are all the same, and the lower ones are unchanged. */
  lemma ExtendedIff(a: nat)
    requires a < SPACE
    ensures Extended(a) / 0x8000_0000_0000 == (if a / 0x8000_0000_0000 == 1 then 0x1_ffff else 0)
    ensures Low(Extended(a)) == a
  {}

  /** A sum with a sign-extended address is accepted, and means the sum of the low bits, as long as that fits. */
  lemma SumAccepted(a: nat, d: nat)
    requires a < SPACE && a + d <= SPACE
    ensures Accepted(Extended(a) + d) <==> a + d < SPACE
    ensures a + d < SPACE ==> Low(Extended(a) + d) == a + d
  {}

  /** The level-4 entry that translates an address. */
  function Index(va: nat): (i: nat)
    ensures i < ENTRIES
  {
    va / LEVEL_4_SIZE % ENTRIES
  }

  /** The lowest address of an entry. */
  function BaseOf(i: nat): nat { i * LEVEL_4_SIZE }

  /** An address lies in an entry exactly if its low bits lie between the entry's bounds. */
  lemma IndexIff(va: nat, i: nat)
    requires i < ENTRIES
    ensures Index(va) == i <==> BaseOf(i) <= Low(va) < BaseOf(i) + LEVEL_4_SIZE
  {
    IndexOfLow(va);
  }

  lemma IndexOfLow(va: nat)
    ensures Index(va) == Low(va) / LEVEL_4_SIZE
  {
    var k := va / SPACE;
    assert va == k * ENTRIES * LEVEL_4_SIZE + Low(va);
    assert va / LEVEL_4_SIZE == k * ENTRIES + Low(va) / LEVEL_4_SIZE;
  }

  lemma IndexMonotone(va: nat, vb: nat)
    requires va <= vb < SPACE
    ensures Index(va) <= Index(vb)
  {
    IndexOfLow(va);
    IndexOfLow(vb);
  }

  /** The addresses `UsedLevel4Entries::new` looks at are accepted. */
  predicate AcceptedHeader(seg: Segment) { Accepted(seg.vaddr) && Accepted(seg.vaddr + seg.memSize) }

  /** The sum leads from the lower half into sign-extended addresses. */
  predicate CrossesGap(seg: Segment) { seg.vaddr < SPACE <= seg.vaddr + seg.memSize }

  predicate InSpace(seg: Segment) { seg.vaddr + seg.memSize < SPACE }

  /** A header as the loader sees it, by its low address bits. */
  function Seen(seg: Segment): Segment { seg.(vaddr := Low(seg.vaddr)) }

  lemma SeenInSpace(seg: Segment)
    requires AcceptedHeader(seg) && !CrossesGap(seg)
    ensures InSpace(Seen(seg))
  {}

  /** It spans the same entries. */
  lemma SeenSpans(seg: Segment, i: nat)
    ensures Spans(Seen(seg), i) <==> Spans(seg, i)
  {
    IndexOfLow(seg.vaddr);
    IndexOfLow(Low(seg.vaddr));
    IndexOfLow(seg.vaddr + seg.memSize);
    IndexOfLow(Low(seg.vaddr) + seg.memSize);
    LowOfSum(seg.vaddr, seg.memSize);
  }

  lemma LowOfSum(a: nat, d: nat)
    ensures Low(Low(a) + d) == Low(a + d)
  {}

  /** The entries a segment spans, up to and including the byte behind it. */
  predicate Spans(seg: Segment, i: nat) {
    Index(seg.vaddr) <= i <= Index(seg.vaddr + seg.memSize)
  }

  /** An entry is spanned exactly if it translates an address of the segment, or the one behind its end. */
  lemma SpansIff(seg: Segment, i: nat)
    requires InSpace(seg) && i < ENTRIES
    ensures Spans(seg, i) <==> exists va :: seg.vaddr <= va <= seg.vaddr + seg.memSize && Index(va) == i
  {
    var end := seg.vaddr + seg.memSize;
    IndexBounds(seg.vaddr, i);
    IndexBounds(end, i);
    if Spans(seg, i) {
      var va := if seg.vaddr < BaseOf(i) then BaseOf(i) else seg.vaddr;
      IndexBounds(va, i);
      assert seg.vaddr <= va <= end && Index(va) == i;
    } else {
      forall va | seg.vaddr <= va <= end ensures Index(va) != i { IndexBounds(va, i); }
    }
  }

  lemma IndexBounds(va: nat, i: nat)
    requires va < SPACE
    ensures Index(va) <= i <==> va < BaseOf(i + 1)
    ensures i <= Index(va) <==> BaseOf(i) <= va
  {
    IndexOfLow(va);
  }

  ghost predicate FreeWindow(s: seq<bool>, i: nat, num: nat) {
    i + num <= |s| && forall k :: i <= k < i + num ==> !s[k]
  }

  /** `num` entries from `idx` on are taken; it is the lowest place where they were free. */
  ghost predicate Reserves(s: seq<bool>, s': seq<bool>, num: nat, idx: nat) {
    && FreeWindow(s, idx, num)
    && (forall j :: 0 <= j < idx ==> !FreeWindow(s, j, num))
    && |s'| == |s| && forall k :: 0 <= k < |s| ==> s'[k] == (s[k] || idx <= k < idx + num)
  }

  class UsedLevel4Entries {
    const entryState: array<bool>

    ghost predicate Valid()
      reads this
    {
      entryState.Length == ENTRIES
    }

    ghost function State(): seq<bool>
      reads this, entryState
    {
      entryState[..]
    }

    /** Entry 0 and every entry spanned by a segment are in use, and no others. */
    constructor (segments: seq<Segment>)
      ensures Valid() && fresh(entryState)
      ensures forall i :: 0 <= i < ENTRIES ==>
                (State()[i] <==> i == 0 || exists k :: 0 <= k < |segments| && Spans(segments[k], i))
    {
      entryState := new bool[ENTRIES](_ => false);
      new;
      entryState[0] := true;
      var n := 0;
      while n < |segments|
        invariant n <= |segments|
        invariant forall i :: 0 <= i < ENTRIES ==>
                    (entryState[i] <==> i == 0 || exists k :: 0 <= k < n && Spans(segments[k], i))
      {
        var first, last := Index(segments[n].vaddr), Index(segments[n].vaddr + segments[n].memSize);
        MarkSpan(first, last);
        n := n + 1;
      }
    }

    method MarkSpan(first: nat, last: nat)
      requires Valid() && last < ENTRIES
      modifies entryState
      ensures forall i :: 0 <= i < ENTRIES ==> entryState[i] == (old(entryState[i]) || first <= i <= last)
    {
      var i := first;
      while i <= last
        invariant first <= i && (first <= last ==> i <= last + 1)
        invariant forall k :: 0 <= k < ENTRIES ==>
                  entryState[k] == (old(entryState[k]) || (first <= k < i && k <= last))
        decreases last + 1 - i
      {
        entryState[i] := true;
        i := i + 1;
      }
    }

    method IsFree(start: nat, num: nat) returns (free: bool)
      requires Valid() && start + num <= ENTRIES
      ensures free <==> FreeWindow(State(), start, num)
    {
      var k := start;
      while k < start + num
        invariant start <= k <= start + num
        invariant forall j :: start <= j < k ==> !entryState[j]
      {
        if entryState[k] {
          return false;
        }
        k := k + 1;
      }
      return true;
    }

    /** `ok` is false where the source panics: no window of that length, or length zero. */
    method GetFreeEntries(num: nat) returns (ok: bool, idx: nat)
      requires Valid()
      modifies entryState
      ensures ok <==> num > 0 && exists i: nat :: FreeWindow(old(State()), i, num)
      ensures ok ==> Reserves(old(State()), State(), num, idx)
      ensures !ok ==> State() == old(State())
    {
      if num == 0 {
        return false, 0;
      }
      idx := 0;
      while idx + num <= ENTRIES
        invariant State() == old(State())
        invariant forall j :: 0 <= j < idx ==> !FreeWindow(State(), j, num)
        decreases ENTRIES - idx
      {
        var free := IsFree(idx, num);
        if free {
          MarkSpan(idx, idx + num - 1);
          return true, idx;
        }
        idx := idx + 1;
      }
      return false, 0;
    }
  }

  // ------------------------------------------------------------------
  // Runs of reservations
  // ------------------------------------------------------------------

  datatype Window = Window(start: nat, num: nat) {
    predicate Holds(k: nat) { start <= k < start + num }
  }

  ghost predicate ReservationRun(views: seq<seq<bool>>, windows: seq<Window>) {
    && |views| == |windows| + 1
    && forall n {:trigger windows[n]} :: 0 <= n < |windows| ==>
         windows[n].num > 0 && Reserves(views[n], views[n + 1], windows[n].num, windows[n].start)
  }

  /** An entry, once used, stays used. */
  lemma {:induction false} UsedStaysUsed(views: seq<seq<bool>>, windows: seq<Window>, m: nat, n: nat, k: nat)
    requires ReservationRun(views, windows) && m <= n <= |windows|
    requires k < |views[m]| && views[m][k]
    ensures k < |views[n]| && views[n][k]
    decreases n
  {
    if m < n {
      UsedStaysUsed(views, windows, m, n - 1, k);
      assert Reserves(views[n - 1], views[n], windows[n - 1].num, windows[n - 1].start);
    }
  }

  /** No reserved window touches an entry that was in use at the start. */
  lemma WindowAvoidsUsed(views: seq<seq<bool>>, windows: seq<Window>, n: nat, k: nat)
    requires ReservationRun(views, windows) && n < |windows| && k < |views[0]| && views[0][k]
    ensures !windows[n].Holds(k)
  {
    UsedStaysUsed(views, windows, 0, n, k);
    assert Reserves(views[n], views[n + 1], windows[n].num, windows[n].start);
  }

  /** Windows reserved at different times are disjoint. */
  lemma WindowsDisjoint(views: seq<seq<bool>>, windows: seq<Window>, m: nat, n: nat, k: nat)
    requires ReservationRun(views, windows) && m < n < |windows| && windows[m].Holds(k)
    ensures !windows[n].Holds(k)
  {
    assert Reserves(views[m], views[m + 1], windows[m].num, windows[m].start);
    UsedStaysUsed(views, windows, m + 1, n, k);
    assert Reserves(views[n], views[n + 1], windows[n].num, windows[n].start);
  }

  /** After a single entry was reserved, every later window lies above it. */
  lemma LaterWindowsAreHigher(s: seq<bool>, s': seq<bool>, s'': seq<bool>, one: nat, num: nat, idx: nat)
    requires Reserves(s, s', 1, one) && num > 0 && Reserves(s', s'', num, idx)
    ensures one < idx
  {
    if idx <= one {
      assert !s'[idx];
      assert idx < one && FreeWindow(s, idx, 1);
    }
  }

  /** Somewhere above two free entries `num` more are free in a row. */
  ghost predicate Room(s: seq<bool>, num: nat) {
    num > 0 && exists r: nat, e: nat, idx: nat {:trigger s[r], s[e], FreeWindow(s, idx, num)} ::
      r < e < idx && idx + num <= |s| && !s[r] && !s[e] && FreeWindow(s, idx, num)
  }

  /** What `get_free_entries` panics on. */
  ghost predicate Stuck(s: seq<bool>, num: nat) {
    num == 0 || forall i: nat :: !FreeWindow(s, i, num)
  }

  lemma StuckAtFirst(s: seq<bool>, num: nat)
    requires Stuck(s, 1)
    ensures !Room(s, num)
  {
    forall r: nat | r < |s| ensures s[r] {
      assert !FreeWindow(s, r, 1);
    }
  }

  lemma StuckAtSecond(s: seq<bool>, s': seq<bool>, one: nat, num: nat)
    requires Reserves(s, s', 1, one) && Stuck(s', 1)
    ensures !Room(s, num)
  {
    forall r: nat, e: nat | r < e < |s| && !s[r] ensures s[e] {
      assert FreeWindow(s, r, 1);
      assert !FreeWindow(s', e, 1);
    }
  }

  lemma StuckAtWindow(s: seq<bool>, s': seq<bool>, s'': seq<bool>, one: nat, two: nat, num: nat)
    requires Reserves(s, s', 1, one) && Reserves(s', s'', 1, two) && Stuck(s'', num)
    ensures !Room(s, num)
  {
    if num > 0 {
      forall r: nat, e: nat, idx: nat | r < e < idx && idx + num <= |s| && !s[r] && !s[e]
        ensures !FreeWindow(s, idx, num)
      {
        assert FreeWindow(s, r, 1);
        assert FreeWindow(s', e, 1);
        assert one <= r && two <= e;
        assert !FreeWindow(s'', idx, num);
      }
    }
  }

  /** Conversely, three reservations found room. */
  lemma RoomFound(s: seq<bool>, s': seq<bool>, s'': seq<bool>, s3: seq<bool>, one: nat, two: nat, num: nat, idx: nat)
    requires Reserves(s, s', 1, one) && Reserves(s', s'', 1, two) && num > 0 && Reserves(s'', s3, num, idx)
    ensures Room(s, num) && one < two < idx
    ensures FreeWindow(s, two, 1) && FreeWindow(s, idx, num)
  {
    LaterWindowsAreHigher(s, s', s'', one, 1, two);
    LaterWindowsAreHigher(s', s'', s3, two, num, idx);
    assert !s[one] && !s'[two] && !s[two];
    forall k | idx <= k < idx + num ensures !s[k] {
      assert !s''[k];
    }
    assert FreeWindow(s, idx, num);
  }

  // ------------------------------------------------------------------
  // Pages and entries
  // ------------------------------------------------------------------

  /** Every page `map_kernel` may map for a segment lies in an entry the segment spans. */
  lemma SegmentPageSpanned(seg: Segment, p: nat, i: nat)
    requires InSpace(seg) && seg.fileSize <= seg.memSize && seg.Needs(p) && i < ENTRIES
    requires BaseOf(i) / PAGE_SIZE <= p < BaseOf(i + 1) / PAGE_SIZE
    ensures Spans(seg, i)
  {
    var va := if p * PAGE_SIZE < seg.vaddr then seg.vaddr else p * PAGE_SIZE;
    assert seg.vaddr <= va <= seg.vaddr + seg.memSize;
    assert p * PAGE_SIZE <= va < (p + 1) * PAGE_SIZE;
    PageInEntry(i, p, va);
    IndexMonotone(seg.vaddr, va);
    IndexMonotone(va, seg.vaddr + seg.memSize);
  }

  lemma PageInEntry(i: nat, p: nat, va: nat)
    requires i < ENTRIES && BaseOf(i) / PAGE_SIZE <= p < BaseOf(i + 1) / PAGE_SIZE
    requires p * PAGE_SIZE <= va < (p + 1) * PAGE_SIZE && va < SPACE
    ensures Index(va) == i
  {
    BasePages(i);
    BasePages(i + 1);
    IndexIff(va, i);
  }

  lemma BasePages(i: nat)
    ensures BaseOf(i) / PAGE_SIZE == i * 0x800_0000 && BaseOf(i) == i * 0x800_0000 * PAGE_SIZE
    ensures BaseOf(i) / HUGE_SIZE == i * 0x4_0000 && BaseOf(i) == i * 0x4_0000 * HUGE_SIZE
  {}

  // ------------------------------------------------------------------
  // The physical-memory window
  // ------------------------------------------------------------------

  const HUGE_SIZE: nat := 0x20_0000

  /** Entries needed for `maxPhys` bytes. */
  function WindowEntries(maxPhys: nat): nat { (maxPhys + (LEVEL_4_SIZE - 1)) / LEVEL_4_SIZE }

  /** The 2 MiB frames 0, ..., LastHuge are mapped into the window. */
  function LastHuge(maxPhys: nat): nat { maxPhys / HUGE_SIZE }

  /** The 4 KiB pages at which those frames are mapped, if the window starts with entry `idx`. */
  predicate InWindow(idx: nat, maxPhys: nat, p: nat) {
    BaseOf(idx) / PAGE_SIZE <= p < BaseOf(idx) / PAGE_SIZE + (LastHuge(maxPhys) + 1) * 512
  }

  /** Page `p` lies in one of the entries reserved for the window. */
  predicate InReserved(idx: nat, maxPhys: nat, p: nat) {
    idx <= Index(p * PAGE_SIZE) < idx + WindowEntries(maxPhys)
  }

  /** All pages of the window lie in the reserved entries. */
  ghost predicate WindowFits(idx: nat, maxPhys: nat) {
    forall p: nat :: InWindow(idx, maxPhys, p) ==> InReserved(idx, maxPhys, p)
  }

  lemma WindowSize(maxPhys: nat)
    ensures var n := WindowEntries(maxPhys) * LEVEL_4_SIZE;
            if maxPhys % LEVEL_4_SIZE == 0 then n == maxPhys == LastHuge(maxPhys) * HUGE_SIZE
            else (LastHuge(maxPhys) + 1) * HUGE_SIZE <= n
  {}

  /** Page `d` behind an entry's base. */
  lemma PageIndex(idx: nat, d: nat)
    ensures Index((BaseOf(idx) / PAGE_SIZE + d) * PAGE_SIZE) == (idx + d / 0x800_0000) % ENTRIES
  {
    BasePages(idx);
    var p := idx * 0x800_0000 + d;
    assert p * PAGE_SIZE / LEVEL_4_SIZE == p / 0x800_0000;
    assert p / 0x800_0000 == idx + d / 0x800_0000;
  }

  lemma PageReserved(idx: nat, n: nat, d: nat)
    requires idx + n <= ENTRIES && d < n * 0x800_0000
    ensures idx <= Index((BaseOf(idx) / PAGE_SIZE + d) * PAGE_SIZE) < idx + n
  {
    PageIndex(idx, d);
    assert d / 0x800_0000 < n;
  }

  lemma PageBehind(idx: nat, n: nat)
    requires 0 < idx && idx + n <= ENTRIES
    ensures !(idx <= Index((BaseOf(idx) / PAGE_SIZE + n * 0x800_0000) * PAGE_SIZE) < idx + n)
  {
    PageIndex(idx, n * 0x800_0000);
    assert n * 0x800_0000 / 0x800_0000 == n;
  }

  lemma WindowPages(maxPhys: nat)
    ensures var n, pages := WindowEntries(maxPhys), (LastHuge(maxPhys) + 1) * 512;
            if maxPhys % LEVEL_4_SIZE == 0 then n * 0x800_0000 < pages else pages <= n * 0x800_0000
  {
    WindowSize(maxPhys);
  }

  /**
   * All pages of the window lie in the reserved entries unless memory ends on a 512 GiB
   * boundary; then the last 2 MiB page is mapped behind them.
   */
  lemma WindowFitsIff(idx: nat, maxPhys: nat)
    requires 0 < idx < ENTRIES && idx + WindowEntries(maxPhys) <= ENTRIES
    ensures WindowFits(idx, maxPhys) <==> maxPhys % LEVEL_4_SIZE != 0
  {
    WindowPages(maxPhys);
    var base, n := BaseOf(idx) / PAGE_SIZE, WindowEntries(maxPhys);
    if maxPhys % LEVEL_4_SIZE == 0 {
      var p := base + n * 0x800_0000;
      PageBehind(idx, n);
      assert InWindow(idx, maxPhys, p) && !InReserved(idx, maxPhys, p);
    } else {
      forall p: nat | InWindow(idx, maxPhys, p) ensures InReserved(idx, maxPhys, p) {
        PageReserved(idx, n, p - base);
      }
    }
  }

  /** For example, 512 GiB of memory reserve one entry and map a page in the next. */
  lemma WindowSpills(idx: nat)
    requires idx + 1 < ENTRIES
    ensures WindowEntries(LEVEL_4_SIZE) == 1 && InWindow(idx, LEVEL_4_SIZE, BaseOf(idx) / PAGE_SIZE + 0x800_0000)
    ensures Index((BaseOf(idx) / PAGE_SIZE + 0x800_0000) * PAGE_SIZE) == idx + 1
  {
    PageIndex(idx, 0x800_0000);
  }
}

/**
 * Memory regions as values: the records of `bootinfo/memory_map.rs`, the
 * comparator its sort uses, and the counting view of "who owns a frame".
 */
module Regions {

  const PAGE_SIZE: nat := 4096
  const MAX_MEMORY_MAP_SIZE: nat := 64

  datatype RegionType =
    | Usable | InUse | Reserved | AcpiReclaimable | AcpiNvs | BadMemory
    | Kernel | KernelStack | PageTable | Bootloader | FrameZero | Empty
    | BootInfo | Package | NonExhaustive

  /** A range of frames with an exclusive end, and the type of its owner. */
  datatype Region = Region(start: nat, end: nat, kind: RegionType) {
    /** As in the source, an inverted range does not count as empty. */
    predicate IsEmpty() { start == end }

    predicate Inverted() { end < start }

    predicate Covers(f: nat) { start <= f < end }
  }

  const EMPTY_REGION := Region(0, 0, Empty)

  /** `FrameRange::new`: the frames touched by the bytes [startAddr, endAddr). */
  function FromAddresses(startAddr: nat, endAddr: nat, kind: RegionType): Region
    requires 0 < endAddr
  {
    Region(startAddr / PAGE_SIZE, (endAddr - 1) / PAGE_SIZE + 1, kind)
  }

  /** A frame belongs to the range exactly if it shares a byte with it. */
  lemma FromAddressesCovers(startAddr: nat, endAddr: nat, kind: RegionType, f: nat)
    requires startAddr < endAddr
    ensures FromAddresses(startAddr, endAddr, kind).Covers(f) <==>
            startAddr < (f + 1) * PAGE_SIZE && f * PAGE_SIZE < endAddr
  {}

  /** Converting frame numbers to addresses and back (`phys_frame_range`, `frame_range`). */
  lemma FrameRangeRoundTrip(start: nat, end: nat, kind: RegionType)
    requires 0 < end
    ensures FromAddresses(start * PAGE_SIZE, end * PAGE_SIZE, kind) == Region(start, end, kind)
  {}

  // ------------------------------------------------------------------
  // The comparator of `MemoryMap::sort`
  // ------------------------------------------------------------------

  datatype Ordering = Less | Equal | Greater

  function CompareNat(a: nat, b: nat): Ordering {
    if a < b then Less else if a == b then Equal else Greater
  }

  function Compare(a: Region, b: Region): Ordering {
    if a.IsEmpty() then Greater
    else if b.IsEmpty() then Less
    else
      var byStart := CompareNat(a.start, b.start);
      if byStart == Equal then CompareNat(a.end, b.end) else byStart
  }

  predicate Before(a: Region, b: Region) { Compare(a, b) == Less }

  /** The comparator is not antisymmetric: of any two empty regions each is "greater". */
  lemma CompareNotAntisymmetric(a: Region, b: Region)
    ensures Compare(a, b) == Greater && Compare(b, a) == Greater <==>
            (a.IsEmpty() && b.IsEmpty())
  {}

  /** Nevertheless its Less relation is a strict weak order, which is what a sort needs. */
  lemma BeforeIsStrictWeakOrder(a: Region, b: Region, c: Region)
    ensures !Before(a, a)
    ensures Before(a, b) && Before(b, c) ==> Before(a, c)
    ensures !Before(a, b) && !Before(b, c) ==> !Before(a, c)
  {}

  ghost predicate Sorted(s: seq<Region>) {
    forall i, j :: 0 <= i < j < |s| ==> !Before(s[j], s[i])
  }

  // ------------------------------------------------------------------
  // Packing: what one `sort` does to the visible slice
  // ------------------------------------------------------------------

  /** The regions that are not empty, in order. */
  ghost function Live(s: seq<Region>): (r: seq<Region>)
  {
    if s == [] then []
    else if s[0].IsEmpty() then Live(s[1..])
    else [s[0]] + Live(s[1..])
  }

  /** `after` is a sorted rearrangement of exactly the non-empty regions of `before`. */
  ghost predicate Packed(before: seq<Region>, after: seq<Region>) {
    && Sorted(after)
    && (forall i :: 0 <= i < |after| ==> !after[i].IsEmpty())
    && multiset(after) == multiset(Live(before))
  }

  lemma {:induction false} LiveCount(s: seq<Region>, r: Region)
    ensures multiset(Live(s))[r] == if r.IsEmpty() then 0 else multiset(s)[r]
  {
    if s != [] {
      LiveCount(s[1..], r);
      assert s == [s[0]] + s[1..];
    }
  }

  lemma {:induction false} LiveMember(s: seq<Region>, i: nat)
    requires i < |Live(s)|
    ensures Live(s)[i] in s
  {
    if s[0].IsEmpty() {
      LiveMember(s[1..], i);
    } else if i > 0 {
      LiveMember(s[1..], i - 1);
    }
  }

  lemma {:induction false} LiveNonEmpty(s: seq<Region>, i: nat)
    requires i < |Live(s)|
    ensures !Live(s)[i].IsEmpty()
  {
    if s[0].IsEmpty() {
      LiveNonEmpty(s[1..], i);
    } else if i > 0 {
      LiveNonEmpty(s[1..], i - 1);
    }
  }

  lemma LiveLength(s: seq<Region>)
    ensures |Live(s)| <= |s|
  {}

  lemma LiveCons(x: Region, rest: seq<Region>)
    ensures Live([x] + rest) == if x.IsEmpty() then Live(rest) else [x] + Live(rest)
  {
    assert ([x] + rest)[1..] == rest;
  }

  lemma {:induction false} LiveAppend(a: seq<Region>, b: seq<Region>)
    ensures Live(a + b) == Live(a) + Live(b)
  {
    if a == [] {
      assert a + b == b;
    } else {
      var x, t := a[0], a[1..];
      LiveAppend(t, b);
      assert a + b == [x] + (t + b);
      LiveCons(x, t + b);
      if !x.IsEmpty() {
        assert [x] + (Live(t) + Live(b)) == ([x] + Live(t)) + Live(b);
      }
    }
  }

  lemma LiveAt(s: seq<Region>, i: nat)
    requires i < |s|
    ensures |Live(s)| == |Live(s[..i])| + (if s[i].IsEmpty() then 0 else 1) + |Live(s[i + 1..])|
  {
    assert s == s[..i] + ([s[i]] + s[i + 1..]);
    LiveAppend(s[..i], [s[i]] + s[i + 1..]);
  }

  lemma LiveReplace(s: seq<Region>, i: nat, x: Region)
    requires i < |s| && !s[i].IsEmpty()
    ensures |Live(s[i := x])| == |Live(s)| - (if x.IsEmpty() then 1 else 0)
  {
    LiveAt(s, i);
    LiveAt(s[i := x], i);
    assert s[i := x][..i] == s[..i] && s[i := x][i + 1..] == s[i + 1..];
  }

  lemma {:induction false} LiveOfNonEmpty(s: seq<Region>)
    requires forall i :: 0 <= i < |s| ==> !s[i].IsEmpty()
    ensures Live(s) == s
  {
    if s != [] { LiveOfNonEmpty(s[1..]); }
  }

  /** A sorted rearrangement is all there is to packing where nothing is empty. */
  lemma PackedFull(before: seq<Region>, after: seq<Region>)
    requires Sorted(after) && multiset(after) == multiset(before)
    requires forall i :: 0 <= i < |before| ==> !before[i].IsEmpty()
    ensures Packed(before, after)
  {
    LiveOfNonEmpty(before);
    forall i | 0 <= i < |after| ensures !after[i].IsEmpty() {
      assert after[i] in multiset(before);
    }
  }

  lemma SwapMembers(s: seq<Region>, x: Region, y: Region)
    ensures multiset(s + [x, y]) == multiset(s + [y, x])
  {
    assert s + [x, y] == s + [x] + [y] && s + [y, x] == s + [y] + [x];
  }

  /** Two regions come out in whatever order the sort admits. */
  lemma PairPacked(a: Region, b: Region)
    requires !a.IsEmpty() && !b.IsEmpty() && !Before(b, a)
    ensures Packed([a, b], [a, b]) && Packed([b, a], [a, b])
  {
    var s := [a, b];
    assert multiset([b, a]) == multiset(s) by {
      SwapMembers([], a, b);
      assert [] + [a, b] == s && [] + [b, a] == [b, a];
    }
    forall i, j | 0 <= i < j < 2 ensures !Before(s[j], s[i]) {
      assert s[i] == a && s[j] == b;
    }
    PackedFull(s, s);
    PackedFull([b, a], s);
  }

  lemma {:induction false} LiveOfEmpties(s: seq<Region>)
    requires forall i :: 0 <= i < |s| ==> s[i].IsEmpty()
    ensures Live(s) == []
  {
    if s != [] { LiveOfEmpties(s[1..]); }
  }

  /** Live depends on the multiset alone. */
  lemma LivePermutation(a: seq<Region>, b: seq<Region>)
    requires multiset(a) == multiset(b)
    ensures multiset(Live(a)) == multiset(Live(b))
  {
    forall r: Region ensures multiset(Live(a))[r] == multiset(Live(b))[r] {
      LiveCount(a, r);
      LiveCount(b, r);
    }
  }

  /** Two insertions with a re-pack in between amount to one re-pack at the end. */
  lemma PackedTwice(a: seq<Region>, mid: seq<Region>, more: seq<Region>, after: seq<Region>)
    requires Packed(a, mid) && Packed(mid + more, after)
    ensures Packed(a + more, after)
  {
    LiveAppend(a, more);
    LiveAppend(mid, more);
    LiveOfNonEmpty(mid);
    assert multiset(Live(mid + more)) == multiset(mid) + multiset(Live(more));
    assert multiset(Live(a + more)) == multiset(Live(a)) + multiset(Live(more));
  }

  lemma PackedElements(before: seq<Region>, after: seq<Region>, i: nat)
    requires Packed(before, after) && i < |after|
    ensures after[i] in before && !after[i].IsEmpty()
  {
    assert multiset(after)[after[i]] > 0;
    LiveCount(before, after[i]);
    assert after[i] in multiset(before);
  }

  // ------------------------------------------------------------------
  // Every map can be packed, with ties broken at will
  // ------------------------------------------------------------------

  /** By start, then by end, and behind all equals if it is `last`. */
  predicate KeyLess(last: Region, x: Region, y: Region) {
    || x.start < y.start
    || (x.start == y.start && x.end < y.end)
    || (x.start == y.start && x.end == y.end && x != last && y == last)
  }

  ghost predicate KeySorted(last: Region, s: seq<Region>) {
    forall i, j :: 0 <= i < j < |s| ==> !KeyLess(last, s[j], s[i])
  }

  ghost function InsertByKey(last: Region, x: Region, s: seq<Region>): seq<Region> {
    if s != [] && KeyLess(last, s[0], x) then [s[0]] + InsertByKey(last, x, s[1..]) else [x] + s
  }

  ghost function SortByKey(last: Region, s: seq<Region>): seq<Region> {
    if s == [] then [] else InsertByKey(last, s[0], SortByKey(last, s[1..]))
  }

  lemma {:induction false} InsertByKeyMembers(last: Region, x: Region, s: seq<Region>)
    ensures multiset(InsertByKey(last, x, s)) == multiset(s) + multiset{x}
  {
    if s != [] && KeyLess(last, s[0], x) {
      InsertByKeyMembers(last, x, s[1..]);
      assert s == [s[0]] + s[1..];
    }
  }

  lemma KeySortedCons(last: Region, x: Region, s: seq<Region>)
    requires KeySorted(last, s) && forall i :: 0 <= i < |s| ==> !KeyLess(last, s[i], x)
    ensures KeySorted(last, [x] + s)
  {
    var t := [x] + s;
    forall i, j | 0 <= i < j < |t| ensures !KeyLess(last, t[j], t[i]) {
      assert t[j] == s[j - 1] && (i > 0 ==> t[i] == s[i - 1]);
    }
  }

  lemma {:induction false} InsertByKeySorted(last: Region, x: Region, s: seq<Region>)
    requires KeySorted(last, s)
    ensures KeySorted(last, InsertByKey(last, x, s))
  {
    if s != [] && KeyLess(last, s[0], x) {
      var t := s[1..];
      InsertByKeySorted(last, x, t);
      InsertByKeyMembers(last, x, t);
      var r := InsertByKey(last, x, t);
      forall i | 0 <= i < |r| ensures !KeyLess(last, r[i], s[0]) {
        assert r[i] in multiset(r);
        if r[i] != x {
          var k :| 0 <= k < |t| && t[k] == r[i];
          assert s[k + 1] == t[k];
        }
      }
      KeySortedCons(last, s[0], r);
    } else {
      forall i | 0 <= i < |s| ensures !KeyLess(last, s[i], x) {
        assert i > 0 ==> !KeyLess(last, s[i], s[0]);
      }
      KeySortedCons(last, x, s);
    }
  }

  lemma {:induction false} SortByKeyProper(last: Region, s: seq<Region>)
    ensures KeySorted(last, SortByKey(last, s)) && multiset(SortByKey(last, s)) == multiset(s)
  {
    if s != [] {
      SortByKeyProper(last, s[1..]);
      InsertByKeySorted(last, s[0], SortByKey(last, s[1..]));
      InsertByKeyMembers(last, s[0], SortByKey(last, s[1..]));
      assert s == [s[0]] + s[1..];
    }
  }

  /** Every map has a packed form in which `last` stands behind all regions of equal range. */
  lemma PackedExists(s: seq<Region>, last: Region) returns (t: seq<Region>)
    ensures Packed(s, t) && KeySorted(last, t)
  {
    t := SortByKey(last, Live(s));
    SortByKeyProper(last, Live(s));
    forall i | 0 <= i < |t| ensures !t[i].IsEmpty() {
      assert t[i] in multiset(Live(s));
      var k :| 0 <= k < |Live(s)| && Live(s)[k] == t[i];
      LiveNonEmpty(s, k);
    }
    assert Sorted(t) by {
      forall i, j | 0 <= i < j < |t| ensures !Before(t[j], t[i]) {
        assert !KeyLess(last, t[j], t[i]);
      }
    }
  }

  // ------------------------------------------------------------------
  // Totals: quantities that no rearrangement changes
  // ------------------------------------------------------------------

  /** The sum of a weight over all regions of a map. */
  ghost function Total(s: seq<Region>, w: Region -> nat): nat {
    if s == [] then 0 else w(s[0]) + Total(s[1..], w)
  }

  ghost predicate IgnoresEmpty(w: Region -> nat) {
    forall r: Region :: r.IsEmpty() ==> w(r) == 0
  }

  lemma {:induction false} TotalAppend(a: seq<Region>, b: seq<Region>, w: Region -> nat)
    ensures Total(a + b, w) == Total(a, w) + Total(b, w)
  {
    if a == [] {
      assert a + b == b;
    } else {
      TotalAppend(a[1..], b, w);
      assert (a + b)[1..] == a[1..] + b;
    }
  }

  lemma TotalCons(x: Region, rest: seq<Region>, w: Region -> nat)
    ensures Total([x] + rest, w) == w(x) + Total(rest, w)
  {
    assert ([x] + rest)[1..] == rest;
  }

  lemma TotalSplit(s: seq<Region>, i: nat, w: Region -> nat)
    requires i < |s|
    ensures Total(s, w) == Total(s[..i], w) + w(s[i]) + Total(s[i + 1..], w)
  {
    assert s == s[..i] + s[i..] && s[i..] == [s[i]] + s[i + 1..];
    TotalAppend(s[..i], s[i..], w);
    TotalCons(s[i], s[i + 1..], w);
  }

  lemma TotalUpdate(s: seq<Region>, i: nat, x: Region, w: Region -> nat)
    requires i < |s|
    ensures Total(s[i := x], w) + w(s[i]) == Total(s, w) + w(x)
  {
    TotalSplit(s, i, w);
    TotalSplit(s[i := x], i, w);
    assert s[i := x][..i] == s[..i] && s[i := x][i + 1..] == s[i + 1..];
  }

  lemma TotalSnoc(s: seq<Region>, x: Region, w: Region -> nat)
    ensures Total(s + [x], w) == Total(s, w) + w(x)
  {
    TotalAppend(s, [x], w);
  }

  /** Taking one occurrence out of a sequence takes one out of its multiset. */
  lemma MultisetWithout(s: seq<Region>, k: nat)
    requires k < |s|
    ensures multiset(s[..k] + s[k + 1..]) == multiset(s) - multiset{s[k]}
  {
    assert s == s[..k] + [s[k]] + s[k + 1..];
  }

  lemma MultisetTail(s: seq<Region>)
    requires s != []
    ensures multiset(s[1..]) == multiset(s) - multiset{s[0]}
  {
    assert s == [s[0]] + s[1..];
  }

  /** Taking out element `k` takes out its weight. */
  lemma TotalWithout(s: seq<Region>, k: nat, w: Region -> nat)
    requires k < |s|
    ensures Total(s, w) == w(s[k]) + Total(s[..k] + s[k + 1..], w)
  {
    TotalSplit(s, k, w);
    TotalAppend(s[..k], s[k + 1..], w);
  }

  lemma {:induction false} TotalPermutation(a: seq<Region>, b: seq<Region>, w: Region -> nat)
    requires multiset(a) == multiset(b)
    ensures Total(a, w) == Total(b, w)
    decreases |a|
  {
    if a == [] {
      assert |b| == |multiset(b)| == 0;
    } else {
      assert a[0] in multiset(b);
      var k :| 0 <= k < |b| && b[k] == a[0];
      TotalWithout(b, k, w);
      MultisetTail(a);
      MultisetWithout(b, k);
      TotalPermutation(a[1..], b[..k] + b[k + 1..], w);
    }
  }

  lemma {:induction false} TotalLive(s: seq<Region>, w: Region -> nat)
    requires IgnoresEmpty(w)
    ensures Total(Live(s), w) == Total(s, w)
  {
    if s != [] {
      TotalLive(s[1..], w);
      TotalCons(s[0], Live(s[1..]), w);
    }
  }

  lemma TotalPacked(before: seq<Region>, after: seq<Region>, w: Region -> nat)
    requires Packed(before, after) && IgnoresEmpty(w)
    ensures Total(after, w) == Total(before, w)
  {
    TotalPermutation(after, Live(before), w);
    TotalLive(before, w);
  }

  lemma {:induction false} TotalZero(s: seq<Region>, w: Region -> nat)
    ensures Total(s, w) == 0 <==> forall i :: 0 <= i < |s| ==> w(s[i]) == 0
  {
    if s != [] {
      TotalZero(s[1..], w);
      assert forall i :: 1 <= i < |s| ==> s[i] == s[1..][i - 1];
    }
  }

  lemma TotalAtLeastOne(s: seq<Region>, i: nat, w: Region -> nat)
    requires i < |s|
    ensures Total(s, w) >= w(s[i])
  {
    TotalSplit(s, i, w);
  }

  lemma TotalAtLeastTwo(s: seq<Region>, i: nat, j: nat, w: Region -> nat)
    requires i < j < |s|
    ensures Total(s, w) >= w(s[i]) + w(s[j])
  {
    TotalSplit(s, i, w);
    assert s[i + 1..][j - i - 1] == s[j];
    TotalAtLeastOne(s[i + 1..], j - i - 1, w);
  }

  /** If at most one region weighs anything, and it weighs one, the total is at most one. */
  lemma {:induction false} TotalAtMostOne(s: seq<Region>, w: Region -> nat)
    requires forall i :: 0 <= i < |s| ==> w(s[i]) <= 1
    requires forall i, j :: 0 <= i < j < |s| ==> w(s[i]) == 0 || w(s[j]) == 0
    ensures Total(s, w) <= 1
  {
    if s != [] {
      if w(s[0]) == 0 {
        TotalAtMostOne(s[1..], w);
      } else {
        TotalZero(s[1..], w);
      }
    }
  }

  // ------------------------------------------------------------------
  // Ownership
  // ------------------------------------------------------------------

  function OwnerWeight(f: nat, kind: RegionType): Region -> nat {
    (r: Region) => if r.kind == kind && r.Covers(f) then 1 else 0
  }

  function CoverWeight(f: nat): Region -> nat {
    (r: Region) => if r.Covers(f) then 1 else 0
  }

  function UsableSizeWeight(): Region -> nat {
    (r: Region) => if r.kind == Usable && r.start < r.end then r.end - r.start else 0
  }

  /** How many regions of type `kind` claim frame `f`. */
  ghost function Owners(s: seq<Region>, f: nat, kind: RegionType): nat {
    Total(s, OwnerWeight(f, kind))
  }

  /** How many regions of any type claim frame `f`. */
  ghost function Claims(s: seq<Region>, f: nat): nat {
    Total(s, CoverWeight(f))
  }

  ghost predicate IsUsable(s: seq<Region>, f: nat) { Owners(s, f, Usable) > 0 }

  /** The number of frames that can still be handed out. */
  ghost function UsableFrameCount(s: seq<Region>): nat {
    Total(s, UsableSizeWeight())
  }

  ghost predicate NoInverted(s: seq<Region>) {
    forall i :: 0 <= i < |s| ==> !s[i].Inverted()
  }

  /** No frame belongs to two usable regions. */
  ghost predicate UsableOnce(s: seq<Region>) {
    forall f: nat :: Owners(s, f, Usable) <= 1
  }

  /** No frame belongs to two regions of any type. */
  ghost predicate Disjoint(s: seq<Region>) {
    forall f: nat :: Claims(s, f) <= 1
  }

  /** An exhausted entry never sits in the interior of a usable region. */
  ghost predicate EmptiesAtEdges(s: seq<Region>) {
    forall i, j :: 0 <= i < |s| && 0 <= j < |s| && s[i].IsEmpty() && s[j].kind == Usable
                   ==> s[i].start <= s[j].start || s[j].end <= s[i].start
  }

  /** What the frame allocator relies on: a frame is offered at most once. */
  ghost predicate Sound(s: seq<Region>) {
    NoInverted(s) && UsableOnce(s) && EmptiesAtEdges(s)
  }

  lemma OwnersPositive(s: seq<Region>, f: nat, kind: RegionType)
    ensures Owners(s, f, kind) > 0 <==> exists i :: 0 <= i < |s| && s[i].kind == kind && s[i].Covers(f)
  {
    TotalZero(s, OwnerWeight(f, kind));
  }

  /** In a sound map, two different usable regions share no frame. */
  lemma UsableApart(s: seq<Region>, i: nat, j: nat, f: nat)
    requires UsableOnce(s) && i < |s| && j < |s| && i != j
    requires s[i].kind == Usable && s[j].kind == Usable && s[i].Covers(f)
    ensures !s[j].Covers(f)
  {
    TotalAtLeastTwo(s, if i < j then i else j, if i < j then j else i, OwnerWeight(f, Usable));
    assert Owners(s, f, Usable) <= 1;
  }

  lemma RegionsApart(s: seq<Region>, i: nat, j: nat, f: nat)
    requires Disjoint(s) && i < |s| && j < |s| && i != j && s[i].Covers(f)
    ensures !s[j].Covers(f)
  {
    TotalAtLeastTwo(s, if i < j then i else j, if i < j then j else i, CoverWeight(f));
    assert Claims(s, f) <= 1;
  }

  /** No region ends above address `top`. */
  ghost predicate Below(s: seq<Region>, top: nat) {
    forall i :: 0 <= i < |s| ==> s[i].end * PAGE_SIZE <= top
  }

  lemma BelowPacked(before: seq<Region>, after: seq<Region>, top: nat)
    requires Packed(before, after) && Below(before, top)
    ensures Below(after, top)
  {
    forall i | 0 <= i < |after| ensures after[i].end * PAGE_SIZE <= top {
      PackedElements(before, after, i);
    }
  }

  /** Then the same holds of all frames that the regions own. */
  lemma OwnedBelow(s: seq<Region>, f: nat, kind: RegionType, top: nat)
    requires Below(s, top) && Owners(s, f, kind) > 0
    ensures (f + 1) * PAGE_SIZE <= top
  {
    OwnersPositive(s, f, kind);
  }

  /** Ascending, non-inverted and pairwise disjoint, empty entries allowed in between. */
  ghost predicate Chain(s: seq<Region>) {
    && NoInverted(s)
    && forall i, j :: 0 <= i < j < |s| ==> s[i].end <= s[j].start
  }

  lemma ChainIsDisjoint(s: seq<Region>)
    requires Chain(s)
    ensures Disjoint(s)
  {
    forall f: nat ensures Claims(s, f) <= 1 {
      TotalAtMostOne(s, CoverWeight(f));
    }
  }

  lemma ChainIsSound(s: seq<Region>)
    requires Chain(s)
    ensures Sound(s)
  {
    forall f: nat ensures Owners(s, f, Usable) <= 1 {
      TotalAtMostOne(s, OwnerWeight(f, Usable));
    }
    forall i, j | 0 <= i < |s| && 0 <= j < |s| && s[i].IsEmpty() && s[j].kind == Usable
      ensures s[i].start <= s[j].start || s[j].end <= s[i].start
    {
      if i < j { assert s[i].end <= s[j].start; }
      if j < i { assert s[j].end <= s[i].start; }
    }
  }

  /** Sorting a disjoint, non-inverted map yields a chain. */
  lemma SortedDisjointIsChain(s: seq<Region>)
    requires Sorted(s) && NoInverted(s) && Disjoint(s)
    requires forall i :: 0 <= i < |s| ==> !s[i].IsEmpty()
    ensures Chain(s)
  {
    forall i, j | 0 <= i < j < |s| ensures s[i].end <= s[j].start {
      if s[j].start < s[i].end {
        assert !Before(s[j], s[i]);
        assert s[j].Covers(s[j].start);
        RegionsApart(s, j, i, s[j].start);
      }
    }
  }

  lemma NoInvertedPacked(before: seq<Region>, after: seq<Region>)
    requires Packed(before, after) && NoInverted(before)
    ensures NoInverted(after)
  {
    forall i | 0 <= i < |after| ensures !after[i].Inverted() {
      PackedElements(before, after, i);
    }
  }

  /** Re-packing changes nobody's ownership. */
  lemma OwnershipPacked(before: seq<Region>, after: seq<Region>)
    requires Packed(before, after)
    ensures forall f: nat, kind :: Owners(after, f, kind) == Owners(before, f, kind)
    ensures forall f: nat :: Claims(after, f) == Claims(before, f)
    ensures UsableFrameCount(after) == UsableFrameCount(before)
  {
    forall f: nat, kind ensures Owners(after, f, kind) == Owners(before, f, kind) {
      TotalPacked(before, after, OwnerWeight(f, kind));
    }
    forall f: nat ensures Claims(after, f) == Claims(before, f) {
      TotalPacked(before, after, CoverWeight(f));
    }
    TotalPacked(before, after, UsableSizeWeight());
  }

  lemma ChainTail(s: seq<Region>)
    requires Chain(s) && s != []
    ensures Chain(s[1..])
  {
    var t := s[1..];
    assert forall i :: 0 <= i < |t| ==> t[i] == s[i + 1];
  }

  ghost predicate StartsAscend(s: seq<Region>) {
    forall i, j :: 0 <= i < j < |s| ==> s[i].start < s[j].start
  }

  lemma AscendingHeads(a: seq<Region>, b: seq<Region>)
    requires StartsAscend(a) && StartsAscend(b) && a != [] && b != [] && multiset(a) == multiset(b)
    ensures a[0] == b[0]
  {
    assert a[0] in multiset(b) && b[0] in multiset(a);
    var k :| 0 <= k < |b| && b[k] == a[0];
    var l :| 0 <= l < |a| && a[l] == b[0];
  }

  lemma {:induction false} AscendingUnique(a: seq<Region>, b: seq<Region>)
    requires StartsAscend(a) && StartsAscend(b) && multiset(a) == multiset(b)
    ensures a == b
  {
    assert |multiset(a)| == |a| && |multiset(b)| == |b|;
    if a != [] {
      AscendingHeads(a, b);
      MultisetTail(a);
      MultisetTail(b);
      AscendingUnique(a[1..], b[1..]);
      assert a == [a[0]] + a[1..] && b == [b[0]] + b[1..];
    }
  }

  /** Chains of non-empty regions are determined by their members: the sort has no freedom. */
  lemma ChainUnique(a: seq<Region>, b: seq<Region>)
    requires Chain(a) && Chain(b) && multiset(a) == multiset(b)
    requires forall i :: 0 <= i < |a| ==> !a[i].IsEmpty()
    requires forall i :: 0 <= i < |b| ==> !b[i].IsEmpty()
    ensures a == b
  {
    assert StartsAscend(a) && StartsAscend(b);
    AscendingUnique(a, b);
  }
}

/**
 * `frame_allocator.rs`: handing out single frames and carving out regions that
 * are already in use, both by editing the memory map in place.
 *
 * Each method is tied to a relation between the slice before and after
 * (`AllocStep`, `MarkStep`); the relations leave open how the unstable sort
 * breaks ties.  What they mean for frame ownership is stated by the lemmas.
 */
module FrameAllocator {
  import opened Regions
  import opened MemoryMaps

  datatype Allocation = Frame(number: nat) | OutOfMemory | Panic

  // ------------------------------------------------------------------
  // allocate_frame
  // ------------------------------------------------------------------

  /** Region `i` has the wanted type and can be enlarged into its right neighbour. */
  predicate Grows(s: seq<Region>, i: int, kind: RegionType) {
    && 0 <= i && i + 1 < |s|
    && s[i].kind == kind
    && s[i + 1].start == s[i].end
    && s[i + 1].kind == Usable
    && !s[i + 1].IsEmpty()
  }

  predicate Splittable(s: seq<Region>, u: int) {
    0 <= u < |s| && s[u].kind == Usable && !s[u].IsEmpty()
  }

  /** Page tables are taken from the last usable region, everything else from the first. */
  ghost predicate Chosen(s: seq<Region>, u: int, kind: RegionType) {
    && Splittable(s, u)
    && (kind == PageTable ==> forall v :: u < v < |s| ==> !Splittable(s, v))
    && (kind != PageTable ==> forall v :: 0 <= v < u ==> !Splittable(s, v))
  }

  function Grown(s: seq<Region>, g: nat): seq<Region>
    requires g + 1 < |s|
  {
    s[g := s[g].(end := s[g].end + 1)][g + 1 := s[g + 1].(start := s[g + 1].start + 1)]
  }

  function Shrunk(s: seq<Region>, u: nat): seq<Region>
    requires u < |s|
  {
    s[u := s[u].(start := s[u].start + 1)]
  }

  ghost predicate GrowStep(s: seq<Region>, s': seq<Region>, kind: RegionType, frame: nat, g: nat) {
    && Grows(s, g, kind)
    && (forall i :: 0 <= i < g ==> !Grows(s, i, kind))
    && frame == s[g].end
    && s' == Grown(s, g)
  }

  ghost predicate SplitStep(s: seq<Region>, s': seq<Region>, kind: RegionType, frame: nat, u: nat) {
    && (forall i :: 0 <= i < |s| ==> !Grows(s, i, kind))
    && Chosen(s, u, kind)
    && |s| < MAX_MEMORY_MAP_SIZE
    && frame == s[u].start
    && Packed(Shrunk(s, u) + [Region(frame, frame + 1, kind)], s')
  }

  ghost predicate AllocStep(s: seq<Region>, s': seq<Region>, kind: RegionType, r: Allocation) {
    match r
    case Frame(frame) =>
      || (exists g: nat :: GrowStep(s, s', kind, frame, g))
      || (exists u: nat :: SplitStep(s, s', kind, frame, u))
    case OutOfMemory =>
      && s' == s
      && (forall u :: 0 <= u < |s| ==> !Splittable(s, u))
    case Panic =>
      && |s| == MAX_MEMORY_MAP_SIZE
      && (forall i :: 0 <= i < |s| ==> !Grows(s, i, kind))
      && (exists u: nat :: Chosen(s, u, kind) && s' == Shrunk(s, u))
  }

  /** Takes the first frame of the first (or last) usable region. */
  method SplitUsableRegion(table: MemoryMap, fromTheEnd: bool) returns (found: bool, frame: nat, ghost u: nat)
    requires table.Valid()
    modifies table.entries
    ensures table.Valid() && table.next == old(table.next)
    ensures !found ==> table.Slice() == old(table.Slice())
    ensures !found ==> forall v :: 0 <= v < table.next ==> !Splittable(table.Slice(), v)
    ensures found ==> Chosen(old(table.Slice()), u, if fromTheEnd then PageTable else Kernel)
    ensures found ==> frame == old(table.Slice())[u].start && table.Slice() == Shrunk(old(table.Slice()), u)
  {
    var n := 0;
    while n < table.next
      invariant n <= table.next && table.Slice() == old(table.Slice())
      invariant fromTheEnd ==> forall v :: table.next - n <= v < table.next ==> !Splittable(table.Slice(), v)
      invariant !fromTheEnd ==> forall v :: 0 <= v < n ==> !Splittable(table.Slice(), v)
    {
      var i := if fromTheEnd then table.next - 1 - n else n;
      var region := table.entries[i];
      if region.kind == Usable && !region.IsEmpty() {
        assert Splittable(table.Slice(), i);
        table.entries[i] := region.(start := region.start + 1);
        return true, region.start, i;
      }
      assert !Splittable(table.Slice(), i);
      n := n + 1;
    }
    return false, 0, 0;
  }

  /** Enlarges the first region of the wanted type that has a usable right neighbour. */
  method GrowRegion(table: MemoryMap, kind: RegionType) returns (found: bool, frame: nat, ghost g: nat)
    requires table.Valid()
    modifies table.entries
    ensures table.Valid() && table.next == old(table.next)
    ensures !found ==> table.Slice() == old(table.Slice())
    ensures !found ==> forall i :: 0 <= i < table.next ==> !Grows(table.Slice(), i, kind)
    ensures found ==> GrowStep(old(table.Slice()), table.Slice(), kind, frame, g)
  {
    ghost var s := table.Slice();
    var i := 0;
    while i < table.next
      invariant i <= table.next && table.Slice() == s
      invariant forall k :: 0 <= k < i ==> !Grows(s, k, kind)
    {
      var region := table.entries[i];
      if region.kind == kind && i + 1 < table.next {
        var neighbour := table.entries[i + 1];
        if neighbour.start == region.end && neighbour.kind == Usable && !neighbour.IsEmpty() {
          assert Grows(s, i, kind);
          table.entries[i] := region.(end := region.end + 1);
          table.entries[i + 1] := neighbour.(start := neighbour.start + 1);
          assert table.Slice() == Grown(s, i);
          return true, region.end, i;
        }
      }
      assert !Grows(s, i, kind);
      i := i + 1;
    }
    return false, 0, 0;
  }

  method AllocateFrame(table: MemoryMap, kind: RegionType) returns (r: Allocation)
    requires table.Valid()
    modifies table, table.entries
    ensures table.Valid()
    ensures AllocStep(old(table.Slice()), table.Slice(), kind, r)
  {
    ghost var s := table.Slice();
    var grown, frame, g := GrowRegion(table, kind);
    if grown {
      return Frame(frame);
    }
    var found, start, u := SplitUsableRegion(table, kind == PageTable);
    if !found {
      return OutOfMemory;
    }
    assert Chosen(s, u, kind);
    FrameRangeRoundTrip(start, start + 1, kind);
    var ok := table.AddRegion(FromAddresses(start * PAGE_SIZE, (start + 1) * PAGE_SIZE, kind));
    if !ok {
      assert Chosen(s, u, kind) && table.Slice() == Shrunk(s, u);
      return Panic;
    }
    assert SplitStep(s, table.Slice(), kind, start, u);
    return Frame(start);
  }

  // ------------------------------------------------------------------
  // mark_allocated_region
  // ------------------------------------------------------------------

  /** The loop's two `continue` tests, negated. */
  predicate Overlaps(m: Region, r: Region) {
    m.start < r.end && r.start < m.end
  }

  /** Region `i` is the one `mark_allocated_region` stops at. */
  ghost predicate FirstHit(s: seq<Region>, m: Region, i: int) {
    && 0 <= i < |s|
    && Overlaps(m, s[i])
    && forall k :: 0 <= k < i ==> !Overlaps(m, s[k])
  }

  predicate Replaces(m: Region, r: Region) { m.start == r.start && r.end <= m.end }

  predicate Middle(m: Region, r: Region) { r.start < m.start && m.end < r.end }

  /** What is left of `r` after the five-way case split; for `Middle`, its lower part. */
  function Remainder(m: Region, r: Region): Region {
    if m.start == r.start then
      if m.end < r.end then r.(start := m.end) else m
    else if m.start > r.start then
      r.(end := m.start)
    else
      r.(start := m.end)
  }

  /** The entries added to the table by each case, in order. */
  function Added(m: Region, r: Region): seq<Region> {
    if Replaces(m, r) then []
    else if Middle(m, r) then [r.(start := m.end), m]
    else [m]
  }

  /** The table has room for the entries that marking `m` inside `r` adds. */
  ghost predicate HasRoom(s: seq<Region>, m: Region, r: Region) {
    && (!Replaces(m, r) ==> |s| < MAX_MEMORY_MAP_SIZE)
    && (Middle(m, r) ==> |Live(s)| + 1 < MAX_MEMORY_MAP_SIZE)
  }

  /** Marking succeeds exactly under this condition. */
  ghost predicate Markable(s: seq<Region>, m: Region) {
    exists i :: FirstHit(s, m, i) && s[i].kind == Usable && HasRoom(s, m, s[i])
  }

  ghost predicate MarkStep(s: seq<Region>, s': seq<Region>, m: Region, i: nat) {
    && FirstHit(s, m, i) && s[i].kind == Usable && HasRoom(s, m, s[i])
    && var carved := s[i := Remainder(m, s[i])] + Added(m, s[i]);
       if Replaces(m, s[i]) then s' == carved else Packed(carved, s')
  }

  lemma FirstHitUnique(s: seq<Region>, m: Region, i: nat, j: nat)
    requires FirstHit(s, m, i) && FirstHit(s, m, j)
    ensures i == j
  {}

  /** Two insertions in a row. */
  method AddTwo(table: MemoryMap, a: Region, b: Region) returns (ok: bool)
    requires table.Valid() && !a.IsEmpty()
    modifies table, table.entries
    ensures table.Valid()
    ensures ok <==> |old(table.Slice())| < MAX_MEMORY_MAP_SIZE && |Live(old(table.Slice()))| + 1 < MAX_MEMORY_MAP_SIZE
    ensures ok ==> Packed(old(table.Slice()) + [a, b], table.Slice())
  {
    ghost var s := table.Slice();
    ok := table.AddRegion(a);
    if ok {
      ghost var mid := table.Slice();
      assert |mid| == |Live(s)| + 1 by { LengthAfterInsert(s, a, mid); }
      ok := table.AddRegion(b);
      if ok {
        PackedTwice(s + [a], mid, [b], table.Slice());
        assert s + [a] + [b] == s + [a, b];
      }
    }
  }

  lemma LengthAfterInsert(s: seq<Region>, a: Region, mid: seq<Region>)
    requires Packed(s + [a], mid) && !a.IsEmpty()
    ensures |mid| == |Live(s)| + 1
  {
    LiveAppend(s, [a]);
    LiveOfNonEmpty([a]);
    assert |multiset(mid)| == |mid| && |multiset(Live(s + [a]))| == |Live(s + [a])|;
  }

  /** The five-way case split, at the region found by the search. */
  method Carve(table: MemoryMap, m: Region, i: nat) returns (ok: bool)
    requires table.Valid() && i < table.next
    requires FirstHit(table.Slice(), m, i) && table.Slice()[i].kind == Usable
    modifies table, table.entries
    ensures table.Valid()
    ensures ok <==> HasRoom(old(table.Slice()), m, old(table.Slice())[i])
    ensures ok ==> MarkStep(old(table.Slice()), table.Slice(), m, i)
  {
    ghost var s := table.Slice();
    var r := table.entries[i];
    table.entries[i] := Remainder(m, r);
    ghost var cut := s[i := Remainder(m, r)];
    assert table.Slice() == cut;
    if Replaces(m, r) {
      assert cut == cut + Added(m, r);
      ok := true;
    } else if Middle(m, r) {
      assert |Live(cut)| == |Live(s)| by { LiveReplace(s, i, Remainder(m, r)); }
      ok := AddTwo(table, r.(start := m.end), m);
    } else {
      ok := table.AddRegion(m);
    }
  }

  /** A region that is not usable overlaps the mark. */
  ghost predicate MeetsOther(s: seq<Region>, m: Region) {
    exists j :: 0 <= j < |s| && s[j].kind != Usable && Overlaps(m, s[j])
  }

  /** The first overlapping region is usable and has room, but a later one is not usable. */
  ghost predicate OtherBehindHit(s: seq<Region>, m: Region) {
    exists i, j :: 0 <= i < j < |s| && FirstHit(s, m, i) && s[i].kind == Usable && HasRoom(s, m, s[i])
                   && s[j].kind != Usable && Overlaps(m, s[j])
  }

  /** `ok` is false where the source panics. */
  method MarkAllocatedRegion(table: MemoryMap, m: Region) returns (ok: bool, ghost hit: nat)
    requires table.Valid()
    modifies table, table.entries
    ensures table.Valid()
    ensures ok <==> Markable(old(table.Slice()), m)
    ensures ok ==> MarkStep(old(table.Slice()), table.Slice(), m, hit)
    ensures ok && MeetsOther(old(table.Slice()), m) <==> OtherBehindHit(old(table.Slice()), m)
  {
    ghost var s := table.Slice();
    OverlookedIff(s, m);
    var i := 0;
    while i < table.next && (m.start >= table.entries[i].end || m.end <= table.entries[i].start)
      invariant i <= table.next && table.Slice() == s && table.next == old(table.next)
      invariant forall k :: 0 <= k < i ==> !Overlaps(m, s[k])
    {
      i := i + 1;
    }
    if i == table.next {
      return false, 0;
    }
    assert FirstHit(s, m, i);
    forall j: nat | FirstHit(s, m, j) ensures i == j { FirstHitUnique(s, m, i, j); }
    if table.entries[i].kind != Usable {
      return false, 0;
    }
    ok := Carve(table, m, i);
    hit := i;
  }

  // ------------------------------------------------------------------
  // What the steps mean for ownership
  // ------------------------------------------------------------------

  /**
   * The frames of `m` change hands, from usable to `m.kind`, and no other frame
   * gains or loses an owner.
   */
  ghost predicate Transfer(s: seq<Region>, s': seq<Region>, m: Region) {
    forall f: nat, kind ::
      Owners(s', f, kind) + (if m.Covers(f) && kind == Usable then 1 else 0) ==
      Owners(s, f, kind) + (if m.Covers(f) && kind == m.kind then 1 else 0)
  }

  lemma GrownTotal(s: seq<Region>, g: nat, w: Region -> nat)
    requires g + 1 < |s|
    ensures Total(Grown(s, g), w) + w(s[g]) + w(s[g + 1]) == Total(s, w) + w(Grown(s, g)[g]) + w(Grown(s, g)[g + 1])
  {
    var a := s[g].(end := s[g].end + 1);
    TotalUpdate(s, g, a, w);
    TotalUpdate(s[g := a], g + 1, s[g + 1].(start := s[g + 1].start + 1), w);
  }

  lemma SplitTotal(s: seq<Region>, u: nat, x: Region, w: Region -> nat)
    requires u < |s|
    ensures Total(Shrunk(s, u) + [x], w) + w(s[u]) == Total(s, w) + w(Shrunk(s, u)[u]) + w(x)
  {
    TotalUpdate(s, u, Shrunk(s, u)[u], w);
    TotalSnoc(Shrunk(s, u), x, w);
  }

  lemma CarvedTotal(s: seq<Region>, i: nat, x: Region, more: seq<Region>, w: Region -> nat)
    requires i < |s|
    ensures Total(s[i := x] + more, w) + w(s[i]) == Total(s, w) + w(x) + Total(more, w)
  {
    TotalUpdate(s, i, x, w);
    TotalAppend(s[i := x], more, w);
  }

  lemma GrowTransfers(s: seq<Region>, s': seq<Region>, kind: RegionType, frame: nat, g: nat)
    requires NoInverted(s) && GrowStep(s, s', kind, frame, g)
    ensures Transfer(s, s', Region(frame, frame + 1, kind)) && NoInverted(s')
    ensures forall f: nat :: Claims(s', f) == Claims(s, f)
    ensures kind != Usable ==> UsableFrameCount(s') + 1 == UsableFrameCount(s)
  {
    forall f: nat, k ensures Owners(s', f, k) + (if f == frame && k == Usable then 1 else 0) ==
                             Owners(s, f, k) + (if f == frame && k == kind then 1 else 0)
    {
      GrownTotal(s, g, OwnerWeight(f, k));
    }
    forall f: nat ensures Claims(s', f) == Claims(s, f) {
      GrownTotal(s, g, CoverWeight(f));
    }
    GrownTotal(s, g, UsableSizeWeight());
  }

  /** Before the re-pack: one usable region shrunk, one entry appended. */
  lemma ShrinkTransfers(s: seq<Region>, pre: seq<Region>, kind: RegionType, u: nat)
    requires NoInverted(s) && Splittable(s, u)
    requires pre == Shrunk(s, u) + [Region(s[u].start, s[u].start + 1, kind)]
    ensures Transfer(s, pre, Region(s[u].start, s[u].start + 1, kind)) && NoInverted(pre)
    ensures forall f: nat :: Claims(pre, f) == Claims(s, f)
    ensures kind != Usable ==> UsableFrameCount(pre) + 1 == UsableFrameCount(s)
  {
    var frame := s[u].start;
    var x := Region(frame, frame + 1, kind);
    forall f: nat, k ensures Owners(pre, f, k) + (if f == frame && k == Usable then 1 else 0) ==
                             Owners(s, f, k) + (if f == frame && k == kind then 1 else 0)
    {
      SplitTotal(s, u, x, OwnerWeight(f, k));
    }
    forall f: nat ensures Claims(pre, f) == Claims(s, f) {
      SplitTotal(s, u, x, CoverWeight(f));
    }
    SplitTotal(s, u, x, UsableSizeWeight());
  }

  lemma SplitTransfers(s: seq<Region>, s': seq<Region>, kind: RegionType, frame: nat, u: nat)
    requires NoInverted(s) && SplitStep(s, s', kind, frame, u)
    ensures Transfer(s, s', Region(frame, frame + 1, kind)) && NoInverted(s')
    ensures forall f: nat :: Claims(s', f) == Claims(s, f)
    ensures kind != Usable ==> UsableFrameCount(s') + 1 == UsableFrameCount(s)
  {
    var pre := Shrunk(s, u) + [Region(frame, frame + 1, kind)];
    ShrinkTransfers(s, pre, kind, u);
    OwnershipPacked(pre, s');
    NoInvertedPacked(pre, s');
  }

  /**
   * A successful allocation hands over exactly the returned frame, keeps all other
   * owners, and uses up exactly one usable frame.
   */
  lemma AllocationMovesOneFrame(s: seq<Region>, s': seq<Region>, kind: RegionType, frame: nat)
    requires NoInverted(s) && AllocStep(s, s', kind, Frame(frame))
    ensures IsUsable(s, frame)
    ensures Transfer(s, s', Region(frame, frame + 1, kind))
    ensures NoInverted(s') && (Disjoint(s) ==> Disjoint(s'))
    ensures kind != Usable ==> UsableFrameCount(s') + 1 == UsableFrameCount(s)
  {
    OwnersPositive(s, frame, Usable);
    if g: nat :| GrowStep(s, s', kind, frame, g) {
      GrowTransfers(s, s', kind, frame, g);
      assert s[g + 1].Covers(frame);
    } else {
      var u: nat :| SplitStep(s, s', kind, frame, u);
      SplitTransfers(s, s', kind, frame, u);
      assert s[u].Covers(frame);
    }
  }

  /** Allocation fails for lack of memory exactly when no usable frame is left. */
  lemma OutOfMemoryIffExhausted(s: seq<Region>, s': seq<Region>, kind: RegionType, r: Allocation)
    requires NoInverted(s) && AllocStep(s, s', kind, r)
    ensures r == OutOfMemory <==> UsableFrameCount(s) == 0
    ensures r == OutOfMemory <==> forall f: nat :: !IsUsable(s, f)
  {
    TotalZero(s, UsableSizeWeight());
    if r == OutOfMemory {
      forall i | 0 <= i < |s| ensures UsableSizeWeight()(s[i]) == 0 { assert !Splittable(s, i); }
      forall f: nat ensures !IsUsable(s, f) {
        OwnersPositive(s, f, Usable);
        assert forall i :: 0 <= i < |s| && s[i].kind == Usable ==> !s[i].Covers(f);
      }
    } else {
      assert exists u :: Splittable(s, u) by {
        if r != Panic {
          if g: nat :| GrowStep(s, s', kind, r.number, g) {
            assert Splittable(s, g + 1);
          } else {
            var v: nat :| SplitStep(s, s', kind, r.number, v);
            assert Splittable(s, v);
          }
        }
      }
      var u :| Splittable(s, u);
      assert UsableSizeWeight()(s[u]) > 0;
      OwnersPositive(s, s[u].start, Usable);
      assert s[u].Covers(s[u].start);
      assert IsUsable(s, s[u].start);
    }
  }

  /** A disjoint map stays in ascending order, empty entries included. */
  lemma AllocationKeepsChain(s: seq<Region>, s': seq<Region>, kind: RegionType, frame: nat)
    requires Chain(s) && AllocStep(s, s', kind, Frame(frame))
    ensures Chain(s')
  {
    if g: nat :| GrowStep(s, s', kind, frame, g) {
    } else {
      var u: nat :| SplitStep(s, s', kind, frame, u);
      ChainIsDisjoint(s);
      SplitTransfers(s, s', kind, frame, u);
      SortedDisjointIsChain(s');
    }
  }

  /** The marked frames lie inside one region. */
  predicate Inside(m: Region, r: Region) {
    r.start <= m.start && m.start <= m.end && m.end <= r.end
  }

  ghost predicate InsideUsable(s: seq<Region>, m: Region) {
    exists i :: 0 <= i < |s| && s[i].kind == Usable && Inside(m, s[i])
  }

  /** In a sound map, if the search stops at a usable region, that is the one that contains the mark. */
  lemma HitsItsHost(s: seq<Region>, m: Region, i: nat, host: nat)
    requires Sound(s) && m.start < m.end
    requires FirstHit(s, m, i) && s[i].kind == Usable
    requires host < |s| && s[host].kind == Usable && Inside(m, s[host])
    ensures i == host
  {
    if i != host {
      var f := if m.start < s[i].start then s[i].start else m.start;
      UsableApart(s, host, i, f);
    }
  }

  /** Before the re-pack: the hit region cut back, the mark (and an upper remainder) appended. */
  lemma CarveTransfers(s: seq<Region>, m: Region, i: nat, carved: seq<Region>)
    requires NoInverted(s) && i < |s| && s[i].kind == Usable && Inside(m, s[i]) && Overlaps(m, s[i])
    requires carved == s[i := Remainder(m, s[i])] + Added(m, s[i])
    ensures Transfer(s, carved, m) && NoInverted(carved)
    ensures forall f: nat :: Claims(carved, f) == Claims(s, f)
    ensures m.kind != Usable ==> UsableFrameCount(carved) + (m.end - m.start) == UsableFrameCount(s)
  {
    var x, more := Remainder(m, s[i]), Added(m, s[i]);
    forall f: nat, k ensures Owners(carved, f, k) + (if m.Covers(f) && k == Usable then 1 else 0) ==
                             Owners(s, f, k) + (if m.Covers(f) && k == m.kind then 1 else 0)
    {
      CarvedTotal(s, i, x, more, OwnerWeight(f, k));
      AddedTotal(m, s[i], OwnerWeight(f, k));
    }
    forall f: nat ensures Claims(carved, f) == Claims(s, f) {
      CarvedTotal(s, i, x, more, CoverWeight(f));
      AddedTotal(m, s[i], CoverWeight(f));
    }
    CarvedTotal(s, i, x, more, UsableSizeWeight());
    AddedTotal(m, s[i], UsableSizeWeight());
  }

  /** Marking inside one usable region hands over exactly the marked frames. */
  lemma MarkTransfers(s: seq<Region>, s': seq<Region>, m: Region, i: nat)
    requires NoInverted(s) && MarkStep(s, s', m, i) && Inside(m, s[i])
    ensures Transfer(s, s', m) && NoInverted(s')
    ensures forall f: nat :: Claims(s', f) == Claims(s, f)
    ensures m.kind != Usable ==> UsableFrameCount(s') + (m.end - m.start) == UsableFrameCount(s)
  {
    var carved := s[i := Remainder(m, s[i])] + Added(m, s[i]);
    CarveTransfers(s, m, i, carved);
    if !Replaces(m, s[i]) {
      OwnershipPacked(carved, s');
      NoInvertedPacked(carved, s');
    }
  }

  lemma AddedTotal(m: Region, r: Region, w: Region -> nat)
    ensures Total(Added(m, r), w) ==
            if Replaces(m, r) then 0
            else if Middle(m, r) then w(r.(start := m.end)) + w(m)
            else w(m)
  {
    if Middle(m, r) {
      assert Added(m, r) == [r.(start := m.end)] + [m];
      TotalAppend([r.(start := m.end)], [m], w);
    }
  }

  lemma PackedContains(before: seq<Region>, after: seq<Region>, k: nat)
    requires Packed(before, after) && k < |before| && !before[k].IsEmpty()
    ensures before[k] in after
  {
    LiveCount(before, before[k]);
    assert before[k] in multiset(before);
    assert before[k] in multiset(after);
  }

  /** A transfer to a non-usable type leaves no transferred frame usable, and offers no new one. */
  lemma TransferConsumes(s: seq<Region>, s': seq<Region>, m: Region)
    requires UsableOnce(s) && Transfer(s, s', m) && m.kind != Usable
    ensures UsableOnce(s')
    ensures forall f: nat :: IsUsable(s', f) <==> IsUsable(s, f) && !m.Covers(f)
    ensures forall f: nat :: m.Covers(f) ==> IsUsable(s, f)
  {
    forall f: nat
      ensures Owners(s', f, Usable) + (if m.Covers(f) then 1 else 0) == Owners(s, f, Usable) <= 1
    {
      assert Owners(s', f, Usable) + (if m.Covers(f) && Usable == Usable then 1 else 0) ==
             Owners(s, f, Usable) + (if m.Covers(f) && Usable == m.kind then 1 else 0);
    }
  }

  /** Owners of any type but usable never lose a frame. */
  lemma TransferKeepsOwners(s: seq<Region>, s': seq<Region>, m: Region, f: nat, kind: RegionType)
    requires Transfer(s, s', m) && kind != Usable
    ensures Owners(s, f, kind) <= Owners(s', f, kind)
    ensures m.Covers(f) && kind == m.kind ==> Owners(s', f, kind) > 0
  {
    assert Owners(s', f, kind) + (if m.Covers(f) && kind == Usable then 1 else 0) ==
           Owners(s, f, kind) + (if m.Covers(f) && kind == m.kind then 1 else 0);
  }

  lemma AllocationKeepsSound(s: seq<Region>, s': seq<Region>, kind: RegionType, frame: nat)
    requires Sound(s) && kind != Usable && AllocStep(s, s', kind, Frame(frame))
    ensures Sound(s')
  {
    AllocationMovesOneFrame(s, s', kind, frame);
    TransferConsumes(s, s', Region(frame, frame + 1, kind));
    if g: nat :| GrowStep(s, s', kind, frame, g) {
      GrowKeepsEdges(s, s', kind, frame, g);
    }
  }

  // ------------------------------------------------------------------
  // Which frame an allocation takes
  // ------------------------------------------------------------------

  /** Entry `i` is followed in the table by a usable region that begins where it ends. */
  predicate MeetsUsable(s: seq<Region>, i: int) {
    0 <= i < i + 1 < |s| && s[i + 1].kind == Usable && s[i].end == s[i + 1].start < s[i + 1].end
  }

  /** The first entry of the type that meets a usable region grows, if there is one. */
  lemma GrowingPicks(s: seq<Region>, s': seq<Region>, kind: RegionType, f: nat, i: nat)
    requires NoInverted(s) && AllocStep(s, s', kind, Frame(f))
    requires MeetsUsable(s, i) && s[i].kind == kind
    requires forall j :: 0 <= j < i && MeetsUsable(s, j) ==> s[j].kind != kind
    ensures f == s[i].end
  {
    assert Grows(s, i, kind);
    forall u: nat ensures !SplitStep(s, s', kind, f, u) {}
    var g: nat :| GrowStep(s, s', kind, f, g);
    assert MeetsUsable(s, g);
  }

  /** Otherwise, frames for page tables come from the highest usable region, all others from the bottom. */
  lemma SplittingPicks(s: seq<Region>, s': seq<Region>, kind: RegionType, f: nat)
    requires Chain(s) && AllocStep(s, s', kind, Frame(f))
    requires forall i :: MeetsUsable(s, i) ==> s[i].kind != kind
    ensures kind != PageTable ==> IsUsable(s, f) && forall g: nat :: IsUsable(s, g) ==> f <= g
    ensures kind == PageTable ==> StartsHighest(s, f)
  {
    var u: nat :| SplitStep(s, s', kind, f, u);
    OwnersPositive(s, f, Usable);
    assert s[u].kind == Usable && s[u].start == f < s[u].end && s[u].Covers(f);
    forall g: nat | IsUsable(s, g) ensures if kind == PageTable then g < s[u].end else f <= g {
      OwnersPositive(s, g, Usable);
      var v :| 0 <= v < |s| && s[v].kind == Usable && s[v].Covers(g);
      assert Splittable(s, v);
    }
  }

  /** Frame `f` is the first of a usable region, behind which no frame is usable. */
  ghost predicate StartsHighest(s: seq<Region>, f: nat) {
    exists i :: 0 <= i < |s| && s[i].kind == Usable && s[i].start == f < s[i].end
                && forall g: nat :: IsUsable(s, g) ==> g < s[i].end
  }

  /** A usable frame right behind one of the type. */
  ghost predicate Continues(s: seq<Region>, kind: RegionType, f: nat) {
    f > 0 && Owners(s, f - 1, kind) > 0 && IsUsable(s, f)
  }

  /** Between two entries that are not neighbours there is room for a frame. */
  lemma ApartInChain(s: seq<Region>, i: nat, j: nat)
    requires Chain(s) && i < j < |s| && (forall k :: 0 <= k < |s| ==> !s[k].IsEmpty())
    ensures i + 1 < j ==> s[i].end < s[j].start
  {
    assert s[i + 1].start < s[i + 1].end;
  }

  lemma ContinuesIff(s: seq<Region>, kind: RegionType, f: nat)
    requires Chain(s) && kind != Usable && forall i :: 0 <= i < |s| ==> !s[i].IsEmpty()
    ensures Continues(s, kind, f) <==> exists i :: MeetsUsable(s, i) && s[i].kind == kind && s[i].end == f
  {
    OwnersPositive(s, f, Usable);
    if Continues(s, kind, f) {
      OwnersPositive(s, f - 1, kind);
      var i :| 0 <= i < |s| && s[i].kind == kind && s[i].Covers(f - 1);
      var j :| 0 <= j < |s| && s[j].kind == Usable && s[j].Covers(f);
      ApartInChain(s, i, j);
      assert MeetsUsable(s, i) && s[i].end == f;
    } else {
      forall i | MeetsUsable(s, i) && s[i].kind == kind ensures s[i].end != f {
        OwnersPositive(s, s[i].end - 1, kind);
        assert s[i].Covers(s[i].end - 1) && s[i + 1].Covers(s[i].end);
      }
    }
  }

  lemma LeastAmong(s: seq<Region>, kind: RegionType, k: nat) returns (i: nat)
    requires MeetsUsable(s, k) && s[k].kind == kind
    ensures i <= k && MeetsUsable(s, i) && s[i].kind == kind
    ensures forall j :: 0 <= j < i && MeetsUsable(s, j) ==> s[j].kind != kind
  {
    i := 0;
    while !(MeetsUsable(s, i) && s[i].kind == kind)
      invariant i <= k && forall j :: 0 <= j < i && MeetsUsable(s, j) ==> s[j].kind != kind
      decreases k - i
    {
      i := i + 1;
    }
  }

  /**
   * On a disjoint map the frame is determined by who owns what: the lowest usable one right
   * behind a frame of the type; failing that, the lowest of all, but for a page table the
   * first of the highest region.
   */
  lemma AllocationPicks(s: seq<Region>, s': seq<Region>, kind: RegionType, f: nat)
    requires Chain(s) && (forall i :: 0 <= i < |s| ==> !s[i].IsEmpty())
    requires kind != Usable && AllocStep(s, s', kind, Frame(f))
    ensures if exists g: nat :: Continues(s, kind, g)
            then Continues(s, kind, f) && forall g: nat :: Continues(s, kind, g) ==> f <= g
            else if kind == PageTable then StartsHighest(s, f)
            else IsUsable(s, f) && forall g: nat :: IsUsable(s, g) ==> f <= g
  {
    if g: nat :| Continues(s, kind, g) {
      ContinuesIff(s, kind, g);
      var k: nat :| MeetsUsable(s, k) && s[k].kind == kind && s[k].end == g;
      var i := LeastAmong(s, kind, k);
      GrowingPicks(s, s', kind, f, i);
      ContinuesIff(s, kind, f);
      forall h: nat | Continues(s, kind, h) ensures f <= h {
        ContinuesIff(s, kind, h);
        var j :| MeetsUsable(s, j) && s[j].kind == kind && s[j].end == h;
        assert i <= j;
      }
    } else {
      forall i | MeetsUsable(s, i) ensures s[i].kind != kind {
        ContinuesIff(s, kind, s[i].end);
      }
      SplittingPicks(s, s', kind, f);
    }
  }

  /** With [0, 5) and [10, 15) usable, a stack begins with frame 0 and page tables with frame 10. */
  lemma TwoEnds(s: seq<Region>, s': seq<Region>, kind: RegionType, f: nat)
    requires s == [Region(0, 5, Usable), Region(10, 15, Usable)] && (kind == KernelStack || kind == PageTable)
    requires AllocStep(s, s', kind, Frame(f))
    ensures f == if kind == PageTable then 10 else 0
  {
    assert forall i :: !MeetsUsable(s, i);
    SplittingPicks(s, s', kind, f);
    assert IsUsable(s, 0) && IsUsable(s, 14) by {
      OwnersPositive(s, 0, Usable);
      OwnersPositive(s, 14, Usable);
      assert s[0].Covers(0) && s[1].Covers(14);
    }
  }

  /** An allocation leaves everything below the highest address. */
  lemma AllocationKeepsBelow(s: seq<Region>, s': seq<Region>, kind: RegionType, frame: nat, top: nat)
    requires NoInverted(s) && Below(s, top) && AllocStep(s, s', kind, Frame(frame))
    ensures Below(s', top)
  {
    if g: nat :| GrowStep(s, s', kind, frame, g) {
      GrowKeepsBelow(s, g, kind, top);
    } else {
      var u: nat :| SplitStep(s, s', kind, frame, u);
      assert Below(Shrunk(s, u) + [Region(frame, frame + 1, kind)], top);
      BelowPacked(Shrunk(s, u) + [Region(frame, frame + 1, kind)], s', top);
    }
  }

  lemma GrowKeepsBelow(s: seq<Region>, g: nat, kind: RegionType, top: nat)
    requires NoInverted(s) && Below(s, top) && Grows(s, g, kind)
    ensures Below(Grown(s, g), top)
  {
    assert s[g].end < s[g + 1].end;
  }

  /** And so does a mark inside the region it hits. */
  lemma MarkKeepsBelow(s: seq<Region>, s': seq<Region>, m: Region, i: nat, top: nat)
    requires Below(s, top) && MarkStep(s, s', m, i) && Inside(m, s[i])
    ensures Below(s', top)
  {
    var carved := s[i := Remainder(m, s[i])] + Added(m, s[i]);
    assert Below(carved, top);
    if !Replaces(m, s[i]) { BelowPacked(carved, s', top); }
  }

  lemma GrowKeepsEdges(s: seq<Region>, s': seq<Region>, kind: RegionType, frame: nat, g: nat)
    requires Sound(s) && kind != Usable && GrowStep(s, s', kind, frame, g)
    ensures EmptiesAtEdges(s')
  {
    forall i, j | 0 <= i < |s'| && 0 <= j < |s'| && s'[i].IsEmpty() && s'[j].kind == Usable
      ensures s'[i].start <= s'[j].start || s'[j].end <= s'[i].start
    {
      if i == g + 1 && j != g + 1 {
        // the neighbour is exhausted: its last frame was `frame`
        if s[j].Covers(frame) { UsableApart(s, j, g + 1, frame); }
      }
    }
  }

  lemma TransferKeepsOnce(s: seq<Region>, s': seq<Region>, m: Region)
    requires UsableOnce(s) && Transfer(s, s', m)
    ensures UsableOnce(s')
  {
    forall f: nat ensures Owners(s', f, Usable) <= 1 {
      assert Owners(s', f, Usable) + (if m.Covers(f) && Usable == Usable then 1 else 0) ==
             Owners(s, f, Usable) + (if m.Covers(f) && Usable == m.kind then 1 else 0);
      assert Owners(s, f, Usable) <= 1;
    }
  }

  lemma MarkKeepsSound(s: seq<Region>, s': seq<Region>, m: Region, i: nat)
    requires Sound(s) && MarkStep(s, s', m, i) && Inside(m, s[i]) && m.start < m.end
    ensures Sound(s')
  {
    MarkTransfers(s, s', m, i);
    TransferKeepsOnce(s, s', m);
  }

  lemma MarkKeepsChain(s: seq<Region>, s': seq<Region>, m: Region, i: nat)
    requires Chain(s) && MarkStep(s, s', m, i) && Inside(m, s[i])
    ensures Chain(s')
  {
    MarkTransfers(s, s', m, i);
    if !Replaces(m, s[i]) {
      ChainIsDisjoint(s);
      SortedDisjointIsChain(s');
    }
  }

  // ------------------------------------------------------------------
  // When marking is safe
  // ------------------------------------------------------------------

  /** Nothing usable is left on the marked frames, and no region was turned inside out. */
  ghost predicate CleanlyMarked(s': seq<Region>, m: Region) {
    && NoInverted(s')
    && forall f: nat :: m.Covers(f) ==> !IsUsable(s', f)
  }

  /** The mark does not stick out of the region it hits on both sides, and meets no other usable one. */
  predicate SafeMark(s: seq<Region>, m: Region, i: nat)
    requires i < |s|
  {
    && (s[i].start <= m.start || m.end <= s[i].end)
    && forall j :: 0 <= j < |s| && j != i && s[j].kind == Usable && !s[j].IsEmpty() ==> !Overlaps(m, s[j])
  }

  lemma MarkSafeIff(s: seq<Region>, s': seq<Region>, m: Region, i: nat)
    requires NoInverted(s) && MarkStep(s, s', m, i) && m.start < m.end && m.kind != Usable
    ensures CleanlyMarked(s', m) <==> SafeMark(s, m, i)
  {
    if SafeMark(s, m, i) {
      SafeMarkIsClean(s, s', m, i);
    } else {
      UnsafeMarkIsNotClean(s, s', m, i);
    }
  }

  lemma SafeMarkIsClean(s: seq<Region>, s': seq<Region>, m: Region, i: nat)
    requires NoInverted(s) && MarkStep(s, s', m, i) && m.start < m.end && m.kind != Usable
    requires SafeMark(s, m, i)
    ensures CleanlyMarked(s', m)
  {
    var carved := s[i := Remainder(m, s[i])] + Added(m, s[i]);
    assert NoInverted(carved);
    forall f: nat | m.Covers(f) ensures Owners(carved, f, Usable) == 0 {
      OwnersPositive(carved, f, Usable);
    }
    if !Replaces(m, s[i]) {
      NoInvertedPacked(carved, s');
      OwnershipPacked(carved, s');
    }
  }

  lemma UnsafeMarkIsNotClean(s: seq<Region>, s': seq<Region>, m: Region, i: nat)
    requires NoInverted(s) && MarkStep(s, s', m, i) && m.start < m.end && m.kind != Usable
    requires !SafeMark(s, m, i)
    ensures !CleanlyMarked(s', m)
  {
    var carved := s[i := Remainder(m, s[i])] + Added(m, s[i]);
    if m.start < s[i].start && s[i].end < m.end {
      PackedContains(carved, s', i);
      var k :| 0 <= k < |s'| && s'[k] == carved[i];
      assert s'[k].Inverted();
    } else {
      var j :| 0 <= j < |s| && j != i && s[j].kind == Usable && !s[j].IsEmpty() && Overlaps(m, s[j]);
      assert carved[j] == s[j];
      if !Replaces(m, s[i]) { PackedContains(carved, s', j); }
      var k :| 0 <= k < |s'| && s'[k] == s[j];
      var f := if m.start < s[j].start then s[j].start else m.start;
      assert m.Covers(f) && s'[k].Covers(f);
      OwnersPositive(s', f, Usable);
    }
  }

  /**
   * Marking [3, 10) over the only usable region [5, 7) turns that region inside out, and
   * the next kernel allocation returns frame 10, which was never usable.
   */
  lemma StraddlingMarkLeaks(s: seq<Region>, m: Region, s': seq<Region>)
    requires s == [Region(5, 7, Usable)] && m == Region(3, 10, Kernel)
    requires s' == [m, Region(10, 7, Usable)]
    ensures Chain(s) && !IsUsable(s, 10)
    ensures MarkStep(s, s', m, 0)
    ensures AllocStep(s', Grown(s', 0), Kernel, Frame(10))
  {
    OwnersPositive(s, 10, Usable);
    assert MarkStep(s, s', m, 0) by {
      PairPacked(m, Region(10, 7, Usable));
      assert s[0 := Region(10, 7, Usable)] + [m] == [Region(10, 7, Usable), m];
    }
    assert GrowStep(s', Grown(s', 0), Kernel, 10, 0);
  }

  // ------------------------------------------------------------------
  // When marking creates no second owner
  // ------------------------------------------------------------------

  /** Like `SafeMark`, but the mark may meet no other region of any type. */
  predicate SoleOverlap(s: seq<Region>, m: Region, i: nat)
    requires i < |s|
  {
    && (s[i].start <= m.start || m.end <= s[i].end)
    && forall j :: 0 <= j < |s| && j != i && !s[j].IsEmpty() ==> !Overlaps(m, s[j])
  }

  /**
   * On a disjoint map, marking leaves every frame with at most one owner exactly if the
   * region it hits is the only one it meets and does not lie strictly inside the mark.
   */
  lemma MarkDisjointIff(s: seq<Region>, s': seq<Region>, m: Region, i: nat)
    requires NoInverted(s) && Disjoint(s) && MarkStep(s, s', m, i) && m.start < m.end
    ensures Disjoint(s') && NoInverted(s') <==> SoleOverlap(s, m, i)
  {
    if SoleOverlap(s, m, i) {
      SoleOverlapIsDisjoint(s, s', m, i);
    } else {
      SecondOverlapIsNot(s, s', m, i);
    }
  }

  lemma SoleOverlapIsDisjoint(s: seq<Region>, s': seq<Region>, m: Region, i: nat)
    requires NoInverted(s) && Disjoint(s) && MarkStep(s, s', m, i) && m.start < m.end && SoleOverlap(s, m, i)
    ensures Disjoint(s') && NoInverted(s')
  {
    var x, more := Remainder(m, s[i]), Added(m, s[i]);
    var carved := s[i := x] + more;
    assert NoInverted(carved);
    forall f: nat ensures Claims(carved, f) <= 1 {
      CarvedTotal(s, i, x, more, CoverWeight(f));
      AddedTotal(m, s[i], CoverWeight(f));
      assert Claims(s, f) <= 1;
      if m.Covers(f) && !s[i].Covers(f) {
        assert Claims(s, f) == 0 by { TotalZero(s, CoverWeight(f)); }
      }
    }
    if !Replaces(m, s[i]) {
      NoInvertedPacked(carved, s');
      OwnershipPacked(carved, s');
    }
  }

  lemma SecondOverlapIsNot(s: seq<Region>, s': seq<Region>, m: Region, i: nat)
    requires NoInverted(s) && Disjoint(s) && MarkStep(s, s', m, i) && m.start < m.end && !SoleOverlap(s, m, i)
    ensures !(Disjoint(s') && NoInverted(s'))
  {
    var carved := s[i := Remainder(m, s[i])] + Added(m, s[i]);
    if m.start < s[i].start && s[i].end < m.end {
      PackedContains(carved, s', i);
      var k :| 0 <= k < |s'| && s'[k] == carved[i];
      assert s'[k].Inverted();
    } else {
      var j :| 0 <= j < |s| && j != i && !s[j].IsEmpty() && Overlaps(m, s[j]);
      var f := if m.start < s[j].start then s[j].start else m.start;
      var l: nat := if Replaces(m, s[i]) then i else |carved| - 1;
      assert carved[l] == m && carved[j] == s[j] && l != j;
      TotalAtLeastTwo(carved, if l < j then l else j, if l < j then j else l, CoverWeight(f));
      assert Claims(s', f) >= 2 by {
        if !Replaces(m, s[i]) { OwnershipPacked(carved, s'); }
      }
    }
  }

  /**
   * The documentation promises a panic whenever a region that is not usable overlaps the
   * mark; the search looks only at the first overlapping region.
   */
  lemma OverlookedIff(s: seq<Region>, m: Region)
    ensures Markable(s, m) && MeetsOther(s, m) <==> OtherBehindHit(s, m)
  {
    if i :| FirstHit(s, m, i) && s[i].kind == Usable && HasRoom(s, m, s[i]) {
      forall j | 0 <= j < |s| && s[j].kind != Usable && Overlaps(m, s[j]) ensures i < j {}
    }
  }

  /** For example, marking [3, 7) over usable [0, 5) and reserved [5, 10) gives frames 5 and 6 two owners. */
  lemma ReservedOverlapAccepted(s: seq<Region>, m: Region, s': seq<Region>)
    requires s == [Region(0, 5, Usable), Region(5, 10, Reserved)] && m == Region(3, 7, Kernel)
    requires s' == [Region(0, 3, Usable), m, Region(5, 10, Reserved)]
    ensures Chain(s) && MarkStep(s, s', m, 0)
    ensures Owners(s', 5, Kernel) > 0 && Owners(s', 5, Reserved) > 0
  {
    OwnersPositive(s', 5, Kernel);
    OwnersPositive(s', 5, Reserved);
    assert s'[1].Covers(5) && s'[2].Covers(5);
    assert MarkStep(s, s', m, 0) by {
      PackedTriple(Region(0, 3, Usable), m, Region(5, 10, Reserved));
      assert s[0 := Region(0, 3, Usable)] + [m] == [Region(0, 3, Usable), Region(5, 10, Reserved), m];
    }
  }

  lemma PackedTriple(a: Region, b: Region, c: Region)
    requires a.start < b.start < c.start && !a.IsEmpty() && !b.IsEmpty() && !c.IsEmpty()
    ensures Packed([a, c, b], [a, b, c])
  {
    SwapMembers([a], c, b);
    assert [a, c, b] == [a] + [c, b] && [a, b, c] == [a] + [b, c];
    forall i, j | 0 <= i < j < 3 ensures !Before([a, b, c][j], [a, b, c][i]) {
      assert [a, b, c][i].start < [a, b, c][j].start;
    }
    PackedFull([a, c, b], [a, b, c]);
  }

  // ------------------------------------------------------------------
  // Lists of marks
  // ------------------------------------------------------------------

  ghost predicate Marked(s: seq<Region>, s': seq<Region>, m: Region) {
    exists i: nat :: MarkStep(s, s', m, i)
  }

  /** `views` are the slices before, between and after the marks. */
  ghost predicate MarkRun(views: seq<seq<Region>>, marks: seq<Region>) {
    && |views| == |marks| + 1
    && forall k {:trigger marks[k]} :: 0 <= k < |marks| ==> Marked(views[k], views[k + 1], marks[k])
  }

  /** The marks are non-empty and pairwise disjoint, each inside a usable region. */
  ghost predicate Placed(s: seq<Region>, marks: seq<Region>) {
    && Disjoint(marks)
    && forall k :: 0 <= k < |marks| ==> marks[k].start < marks[k].end && InsideUsable(s, marks[k])
  }

  /** Besides, the map is disjoint and the table has room for two entries per mark. */
  ghost predicate Plan(s: seq<Region>, marks: seq<Region>) {
    Chain(s) && Placed(s, marks) && |s| + 2 * |marks| <= MAX_MEMORY_MAP_SIZE
  }

  /** On a disjoint map the search stops at the region that contains the mark. */
  lemma ChainHitsHost(s: seq<Region>, m: Region, host: nat)
    requires Chain(s) && m.start < m.end && host < |s| && Inside(m, s[host])
    ensures FirstHit(s, m, host)
  {}

  lemma PlannedMarkSucceeds(s: seq<Region>, marks: seq<Region>)
    requires Plan(s, marks) && marks != []
    ensures Markable(s, marks[0])
  {
    assert InsideUsable(s, marks[0]);
    var host :| 0 <= host < |s| && s[host].kind == Usable && Inside(marks[0], s[host]);
    ChainHitsHost(s, marks[0], host);
    LiveLength(s);
  }

  lemma MarkLength(s: seq<Region>, s': seq<Region>, m: Region, i: nat)
    requires MarkStep(s, s', m, i)
    ensures |s'| <= |s| + 2
  {
    var carved := s[i := Remainder(m, s[i])] + Added(m, s[i]);
    LiveLength(carved);
    assert |multiset(s')| == |s'| && |multiset(Live(carved))| == |Live(carved)|;
  }

  /** A mark disjoint from the one just made still has a usable host. */
  lemma OtherMarkStillHosted(s: seq<Region>, s': seq<Region>, m: Region, i: nat, other: Region)
    requires MarkStep(s, s', m, i) && Inside(m, s[i]) && m.start < m.end && other.start < other.end
    requires other.end <= m.start || m.end <= other.start
    requires InsideUsable(s, other)
    ensures InsideUsable(s', other)
  {
    var r := s[i];
    var carved := s[i := Remainder(m, r)] + Added(m, r);
    var host :| 0 <= host < |s| && s[host].kind == Usable && Inside(other, s[host]);
    var k: nat := if host == i && other.start >= m.end && Middle(m, r) then |s| else host;
    assert carved[k].kind == Usable && Inside(other, carved[k]);
    if !Replaces(m, r) { PackedContains(carved, s', k); }
    var l :| 0 <= l < |s'| && s'[l] == carved[k];
  }

  lemma DisjointTail(marks: seq<Region>)
    requires Disjoint(marks) && marks != []
    ensures Disjoint(marks[1..])
  {
    forall f: nat ensures Claims(marks[1..], f) <= 1 {
      assert Claims(marks, f) <= 1;
    }
  }

  /** One mark hands over exactly its frames, and the others stay placed. */
  lemma PlacedContinues(s: seq<Region>, s': seq<Region>, marks: seq<Region>, i: nat)
    requires Sound(s) && Placed(s, marks) && marks != [] && MarkStep(s, s', marks[0], i)
    ensures Inside(marks[0], s[i]) && Transfer(s, s', marks[0])
    ensures Sound(s') && Placed(s', marks[1..])
  {
    var m := marks[0];
    assert InsideUsable(s, m);
    var host :| 0 <= host < |s| && s[host].kind == Usable && Inside(m, s[host]);
    HitsItsHost(s, m, i, host);
    MarkTransfers(s, s', m, i);
    MarkKeepsSound(s, s', m, i);
    DisjointTail(marks);
    forall k | 0 <= k < |marks[1..]| ensures InsideUsable(s', marks[1..][k]) {
      var other := marks[k + 1];
      if other.start < m.end && m.start < other.end {
        RegionsApart(marks, 0, k + 1, if m.start < other.start then other.start else m.start);
      }
      assert InsideUsable(s, other);
      OtherMarkStillHosted(s, s', m, i, other);
    }
  }

  lemma PlanContinues(s: seq<Region>, s': seq<Region>, marks: seq<Region>, i: nat)
    requires Plan(s, marks) && marks != [] && MarkStep(s, s', marks[0], i)
    ensures Plan(s', marks[1..])
  {
    ChainIsSound(s);
    PlacedContinues(s, s', marks, i);
    MarkKeepsChain(s, s', marks[0], i);
    MarkLength(s, s', marks[0], i);
  }

  lemma MarkRunTail(views: seq<seq<Region>>, marks: seq<Region>)
    requires MarkRun(views, marks) && marks != []
    ensures MarkRun(views[1..], marks[1..])
  {
    forall k | 0 <= k < |marks[1..]| ensures Marked(views[1..][k], views[1..][k + 1], marks[1..][k]) {
      assert Marked(views[k + 1], views[k + 2], marks[k + 1]);
    }
  }

  /**
   * Marks planned on a disjoint map never get stuck: however far a run has come, the next
   * mark succeeds.
   */
  lemma {:induction false} MarksSucceed(views: seq<seq<Region>>, marks: seq<Region>, k: nat)
    requires k <= |marks| && MarkRun(views, marks[..k]) && Plan(views[0], marks)
    ensures Chain(views[k]) && (k < |marks| ==> Markable(views[k], marks[k]))
    decreases k
  {
    if k == 0 {
      if marks != [] { PlannedMarkSucceeds(views[0], marks); }
    } else {
      assert marks[..k][0] == marks[0] && Marked(views[0], views[0 + 1], marks[0]);
      var i: nat :| MarkStep(views[0], views[1], marks[0], i);
      PlanContinues(views[0], views[1], marks, i);
      MarkRunTail(views, marks[..k]);
      assert marks[..k][1..] == marks[1..][..k - 1];
      MarksSucceed(views[1..], marks[1..], k - 1);
    }
  }

  lemma FirstMark(s: seq<Region>, s': seq<Region>, marks: seq<Region>, f: nat, kind: RegionType)
    requires Sound(s) && Placed(s, marks) && marks != [] && Marked(s, s', marks[0])
    ensures Sound(s') && Placed(s', marks[1..])
    ensures Owners(s', f, kind) + (if marks[0].Covers(f) && kind == Usable then 1 else 0) ==
            Owners(s, f, kind) + (if marks[0].Covers(f) && kind == marks[0].kind then 1 else 0)
  {
    var i: nat :| MarkStep(s, s', marks[0], i);
    PlacedContinues(s, s', marks, i);
  }

  /** Completed marks give exactly the marked frames their new types and leave all other owners alone. */
  lemma {:induction false} MarksTransfer(views: seq<seq<Region>>, marks: seq<Region>, f: nat, kind: RegionType)
    requires MarkRun(views, marks) && Sound(views[0]) && Placed(views[0], marks)
    ensures Sound(views[|marks|])
    ensures Owners(views[|marks|], f, kind) + (if kind == Usable then Claims(marks, f) else 0) ==
            Owners(views[0], f, kind) + Owners(marks, f, kind)
    decreases |marks|
  {
    if marks != [] {
      FirstMark(views[0], views[1], marks, f, kind);
      MarkRunTail(views, marks);
      MarksTransfer(views[1..], marks[1..], f, kind);
    }
  }

  /** Completed marks leave everything below the highest address. */
  lemma {:induction false} MarksKeepBelow(views: seq<seq<Region>>, marks: seq<Region>, top: nat)
    requires MarkRun(views, marks) && Sound(views[0]) && Placed(views[0], marks) && Below(views[0], top)
    ensures Below(views[|marks|], top)
    decreases |marks|
  {
    if marks != [] {
      assert Marked(views[0], views[0 + 1], marks[0]);
      var i: nat :| MarkStep(views[0], views[1], marks[0], i);
      PlacedContinues(views[0], views[1], marks, i);
      MarkKeepsBelow(views[0], views[1], marks[0], i, top);
      MarkRunTail(views, marks);
      MarksKeepBelow(views[1..], marks[1..], top);
    }
  }

  /**
   * Marks every region in order.  `views` are the slices reached; if a mark fails, it is
   * one the last slice does not admit.
   */
  method MarkAll(table: MemoryMap, marks: seq<Region>) returns (ok: bool, ghost views: seq<seq<Region>>)
    requires table.Valid()
    modifies table, table.entries
    ensures table.Valid()
    ensures 0 < |views| <= |marks| + 1 && views[0] == old(table.Slice()) && MarkRun(views, marks[..|views| - 1])
    ensures ok <==> |views| == |marks| + 1
    ensures ok ==> table.Slice() == views[|marks|]
    ensures !ok ==> !Markable(views[|views| - 1], marks[|views| - 1])
    ensures Plan(old(table.Slice()), marks) ==> ok && Chain(table.Slice())
  {
    var n := 0;
    views := [table.Slice()];
    while n < |marks|
      invariant n <= |marks| && table.Valid() && |views| == n + 1
      invariant views[0] == old(table.Slice()) && table.Slice() == views[n] && MarkRun(views, marks[..n])
    {
      ghost var hit;
      ok, hit := MarkAllocatedRegion(table, marks[n]);
      if !ok {
        if Plan(views[0], marks) { MarksSucceed(views, marks, n); }
        return;
      }
      RunExtended(views, table.Slice(), marks, n, hit);
      views := views + [table.Slice()];
      n := n + 1;
    }
    assert marks[..n] == marks;
    if Plan(views[0], marks) { MarksSucceed(views, marks, n); }
    return true, views;
  }

  lemma RunExtended(views: seq<seq<Region>>, s: seq<Region>, marks: seq<Region>, n: nat, hit: nat)
    requires n < |marks| && MarkRun(views, marks[..n]) && MarkStep(views[n], s, marks[n], hit)
    ensures MarkRun(views + [s], marks[..n + 1])
  {
    var vs := views + [s];
    forall k | 0 <= k < n + 1 ensures Marked(vs[k], vs[k + 1], marks[..n + 1][k]) {
      if k < n { assert Marked(views[k], views[k + 1], marks[..n][k]); }
    }
  }

  /** Whatever can be marked, some sort carries the mark out. */
  lemma MarkStepExists(s: seq<Region>, m: Region) returns (s': seq<Region>)
    requires Markable(s, m)
    ensures Marked(s, s', m)
  {
    var i :| FirstHit(s, m, i) && s[i].kind == Usable && HasRoom(s, m, s[i]);
    var carved := s[i := Remainder(m, s[i])] + Added(m, s[i]);
    if Replaces(m, s[i]) {
      s' := carved;
    } else {
      s' := PackedExists(carved, EMPTY_REGION);
    }
    assert MarkStep(s, s', m, i);
  }

  /** A plan can be carried out from start to end. */
  lemma {:induction false} PlannedRunExists(s: seq<Region>, marks: seq<Region>, k: nat)
    returns (views: seq<seq<Region>>)
    requires Plan(s, marks) && k <= |marks|
    ensures MarkRun(views, marks[..k]) && views[0] == s
    decreases k
  {
    if k == 0 {
      views := [s];
    } else {
      views := PlannedRunExists(s, marks, k - 1);
      MarksSucceed(views, marks, k - 1);
      var s' := MarkStepExists(views[k - 1], marks[k - 1]);
      var hit: nat :| MarkStep(views[k - 1], s', marks[k - 1], hit);
      RunExtended(views, s', marks, k - 1, hit);
      views := views + [s'];
    }
  }

  /** Some run makes the marks in this order. */
  ghost predicate Completes(s: seq<Region>, marks: seq<Region>) {
    exists views :: MarkRun(views, marks) && views[0] == s
  }

  /** Every run that makes the marks in this order ends with these owners. */
  ghost predicate EndsWith(s: seq<Region>, marks: seq<Region>, final: seq<Region>) {
    forall views :: MarkRun(views, marks) && views[0] == s ==>
      forall f: nat, kind :: Owners(views[|marks|], f, kind) == Owners(final, f, kind)
  }

  /** Planned marks can be made in any order, and the order does not matter. */
  lemma MarkOrderIrrelevant(views: seq<seq<Region>>, marks: seq<Region>, marks': seq<Region>)
    requires MarkRun(views, marks) && multiset(marks) == multiset(marks') && Plan(views[0], marks)
    ensures Completes(views[0], marks') && EndsWith(views[0], marks', views[|marks|])
  {
    PlanPermutes(views[0], marks, marks');
    ChainIsSound(views[0]);
    var some := PlannedRunExists(views[0], marks', |marks'|);
    assert marks'[..|marks'|] == marks';
    forall views' | MarkRun(views', marks') && views'[0] == views[0]
      ensures forall f: nat, kind :: Owners(views'[|marks'|], f, kind) == Owners(views[|marks|], f, kind)
    {
      forall f: nat, kind ensures Owners(views'[|marks'|], f, kind) == Owners(views[|marks|], f, kind) {
        MarksTransfer(views, marks, f, kind);
        MarksTransfer(views', marks', f, kind);
        TotalPermutation(marks, marks', OwnerWeight(f, kind));
        TotalPermutation(marks, marks', CoverWeight(f));
      }
    }
  }

  lemma PlanPermutes(s: seq<Region>, marks: seq<Region>, marks': seq<Region>)
    requires Plan(s, marks) && multiset(marks) == multiset(marks')
    ensures Plan(s, marks')
  {
    forall k | 0 <= k < |marks'| ensures InsideUsable(s, marks'[k]) && marks'[k].start < marks'[k].end {
      assert marks'[k] in multiset(marks);
    }
    forall f: nat ensures Claims(marks', f) <= 1 {
      TotalPermutation(marks, marks', CoverWeight(f));
      assert Claims(marks, f) <= 1;
    }
    assert |marks| == |multiset(marks)| == |multiset(marks')| == |marks'|;
  }
}

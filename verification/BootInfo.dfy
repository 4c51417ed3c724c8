/**
 * `boot_info.rs`: building the memory map from the firmware's E820 list, sorting
 * it, and cutting usable regions back where the next region begins.
 */
module BootInfo {
  import opened Regions
  import opened MemoryMaps

  /** One 24-byte firmware record (the ACPI attributes are never read). */
  datatype E820Entry = E820Entry(startAddr: nat, len: nat, regionType: nat) {
    /** `e820.s` drops empty records; an address range fits 64 bits. */
    predicate Valid() { 0 < len && startAddr + len < 0x1_0000_0000_0000_0000 }

    predicate KnownType() { 1 <= regionType <= 5 }

    /** Some byte of frame `f` belongs to the record. */
    predicate Touches(f: nat) {
      startAddr < (f + 1) * PAGE_SIZE && f * PAGE_SIZE < startAddr + len
    }
  }

  /** `From<E820MemoryRegion>`. */
  function Convert(e: E820Entry): (r: Region)
    requires e.Valid() && e.KnownType()
    ensures r.start < r.end && (r.kind == Usable <==> e.regionType == 1)
  {
    var kind := match e.regionType
      case 1 => Usable
      case 2 => Reserved
      case 3 => AcpiReclaimable
      case 4 => AcpiNvs
      case _ => BadMemory;
    FromAddresses(e.startAddr, e.startAddr + e.len, kind)
  }

  /** The five types, and exactly the frames the record touches. */
  lemma ConvertMeaning(e: E820Entry, f: nat)
    requires e.Valid() && e.KnownType()
    ensures Convert(e).Covers(f) <==> e.Touches(f)
    ensures Convert(e).kind == [Usable, Reserved, AcpiReclaimable, AcpiNvs, BadMemory][e.regionType - 1]
  {
    FromAddressesCovers(e.startAddr, e.startAddr + e.len, Usable, f);
  }

  ghost predicate AllValid(e820: seq<E820Entry>) {
    forall i :: 0 <= i < |e820| ==> e820[i].Valid()
  }

  ghost predicate AllKnown(e820: seq<E820Entry>) {
    forall i :: 0 <= i < |e820| ==> e820[i].KnownType()
  }

  ghost function Converted(e820: seq<E820Entry>): (s: seq<Region>)
    requires AllValid(e820) && AllKnown(e820)
    ensures |s| == |e820| && forall i :: 0 <= i < |s| ==> s[i] == Convert(e820[i])
  {
    seq(|e820|, i requires 0 <= i < |e820| => Convert(e820[i]))
  }

  /** Region `i` after the trim loop: later starts are not changed by it. */
  function TrimmedAt(s: seq<Region>, i: nat): Region
    requires i < |s|
  {
    if i + 1 < |s| && s[i].end > s[i + 1].start && s[i].kind == Usable
    then s[i].(end := s[i + 1].start) else s[i]
  }

  ghost function Trimmed(s: seq<Region>): (t: seq<Region>)
    ensures |t| == |s| && forall i :: 0 <= i < |s| ==> t[i] == TrimmedAt(s, i)
  {
    seq(|s|, i requires 0 <= i < |s| => TrimmedAt(s, i))
  }

  /** The maps `create_from` can return: some sorted order of the records, trimmed. */
  ghost predicate CreatedVia(e820: seq<E820Entry>, sorted: seq<Region>, s: seq<Region>) {
    && AllValid(e820) && AllKnown(e820)
    && Packed(Converted(e820), sorted)
    && s == Trimmed(sorted)
  }

  ghost predicate Created(e820: seq<E820Entry>, s: seq<Region>) {
    exists sorted :: CreatedVia(e820, sorted, s)
  }

  lemma ConvertedAllLive(e820: seq<E820Entry>, sorted: seq<Region>)
    requires AllValid(e820) && AllKnown(e820) && Packed(Converted(e820), sorted)
    ensures |sorted| == |e820|
  {
    LiveOfNonEmpty(Converted(e820));
    assert |multiset(sorted)| == |sorted| && |multiset(Converted(e820))| == |e820|;
  }

  lemma RecordAdded(e820: seq<E820Entry>, i: nat, before: seq<Region>, after: seq<Region>)
    requires AllValid(e820) && i < |e820| && AllKnown(e820[..i]) && e820[i].KnownType()
    requires AllValid(e820[..i]) && Packed(Converted(e820[..i]), before)
    requires Packed(before + [Convert(e820[i])], after)
    ensures AllValid(e820[..i + 1]) && AllKnown(e820[..i + 1])
    ensures Packed(Converted(e820[..i + 1]), after) && |after| == i + 1
  {
    PackedTwice(Converted(e820[..i]), before, [Convert(e820[i])], after);
    assert Converted(e820[..i]) + [Convert(e820[i])] == Converted(e820[..i + 1]);
    ConvertedAllLive(e820[..i + 1], after);
  }

  lemma PackedAgain(a: seq<Region>, mid: seq<Region>, after: seq<Region>)
    requires Packed(a, mid) && Packed(mid, after)
    ensures Packed(a, after)
  {
    LiveOfNonEmpty(mid);
  }

  /** The trim loop. */
  method Trim(table: MemoryMap)
    requires table.Valid()
    modifies table.entries
    ensures table.Valid() && table.next == old(table.next)
    ensures table.Slice() == Trimmed(old(table.Slice()))
  {
    ghost var s := table.Slice();
    var i := 0;
    while i < table.next
      invariant i <= table.next && table.Valid() && |s| == table.next == old(table.next)
      invariant forall k :: 0 <= k < i ==> table.entries[k] == TrimmedAt(s, k)
      invariant forall k :: i <= k < table.next ==> table.entries[k] == s[k]
    {
      var region := table.entries[i];
      if i + 1 < table.next {
        var following := table.entries[i + 1];
        if region.end > following.start && region.kind == Usable {
          table.entries[i] := region.(end := following.start);
        }
      }
      assert table.entries[i] == TrimmedAt(s, i);
      i := i + 1;
    }
  }

  /** The first `i` records have been inserted. */
  ghost predicate Inserted(e820: seq<E820Entry>, i: nat, s: seq<Region>)
    requires i <= |e820|
  {
    && AllKnown(e820[..i]) && AllValid(e820[..i]) && |s| == i
    && Packed(Converted(e820[..i]), s)
  }

  /** One round of the insertion loop; `ok` is false where the source panics. */
  method AddRecord(table: MemoryMap, e820: seq<E820Entry>, i: nat) returns (ok: bool)
    requires table.Valid() && AllValid(e820) && i < |e820| && Inserted(e820, i, table.Slice())
    modifies table, table.entries
    ensures table.Valid()
    ensures ok <==> e820[i].KnownType() && i < MAX_MEMORY_MAP_SIZE
    ensures ok ==> Inserted(e820, i + 1, table.Slice())
  {
    if !e820[i].KnownType() {
      return false;
    }
    ghost var before := table.Slice();
    ok := table.AddRegion(Convert(e820[i]));
    if ok {
      RecordAdded(e820, i, before, table.Slice());
    }
  }

  /** The insertion loop. */
  method AddRecords(table: MemoryMap, e820: seq<E820Entry>) returns (ok: bool)
    requires table.Valid() && table.Slice() == [] && AllValid(e820)
    modifies table, table.entries
    ensures table.Valid()
    ensures ok <==> AllKnown(e820) && |e820| <= MAX_MEMORY_MAP_SIZE
    ensures ok ==> Packed(Converted(e820), table.Slice())
  {
    var i := 0;
    while i < |e820|
      invariant i <= |e820| && table.Valid() && Inserted(e820, i, table.Slice())
    {
      ok := AddRecord(table, e820, i);
      if !ok {
        return;
      }
      i := i + 1;
    }
    assert e820[..i] == e820;
    return true;
  }

  /** `ok` is false where the source panics: an unknown type or a full table. */
  method CreateFrom(e820: seq<E820Entry>) returns (table: MemoryMap, ok: bool)
    requires AllValid(e820)
    ensures table.Valid() && fresh(table) && fresh(table.entries)
    ensures ok <==> AllKnown(e820) && |e820| <= MAX_MEMORY_MAP_SIZE
    ensures ok ==> Created(e820, table.Slice())
  {
    table := new MemoryMap();
    ok := AddRecords(table, e820);
    if ok {
      ghost var unsorted := table.Slice();
      table.Sort();
      ghost var sorted := table.Slice();
      PackedAgain(Converted(e820), unsorted, sorted);
      Trim(table);
      assert CreatedVia(e820, sorted, table.Slice());
    }
  }

  // ------------------------------------------------------------------
  // What the created map promises
  // ------------------------------------------------------------------

  /** Ascending starts, and no usable region reaches into any later region. */
  ghost predicate Tidy(s: seq<Region>) {
    && NoInverted(s)
    && (forall i, j :: 0 <= i < j < |s| ==> s[i].start <= s[j].start)
    && (forall i, j :: 0 <= i < j < |s| && s[i].kind == Usable ==> s[i].end <= s[j].start)
  }

  lemma TrimmedIsTidy(s: seq<Region>)
    requires Sorted(s) && NoInverted(s) && forall i :: 0 <= i < |s| ==> !s[i].IsEmpty()
    ensures Tidy(Trimmed(s))
  {
    forall i, j | 0 <= i < j < |s| ensures s[i].start <= s[j].start {
      assert !Before(s[j], s[i]);
    }
  }

  lemma TidyIsSound(s: seq<Region>)
    requires Tidy(s)
    ensures Sound(s)
  {
    forall f: nat ensures Owners(s, f, Usable) <= 1 {
      TotalAtMostOne(s, OwnerWeight(f, Usable));
    }
  }

  lemma CreatedIsTidy(e820: seq<E820Entry>, sorted: seq<Region>, s: seq<Region>)
    requires CreatedVia(e820, sorted, s)
    ensures Tidy(s) && Sound(s)
  {
    NoInvertedPacked(Converted(e820), sorted);
    TrimmedIsTidy(sorted);
    TidyIsSound(s);
  }

  lemma CreatedIsSound(e820: seq<E820Entry>, s: seq<Region>)
    requires Created(e820, s)
    ensures Sound(s)
  {
    var sorted: seq<Region> :| CreatedVia(e820, sorted, s);
    CreatedIsTidy(e820, sorted, s);
  }

  /** A frame ends up usable exactly if a usable record has it and no later record starts at or before it. */
  lemma CreatedUsableIff(e820: seq<E820Entry>, sorted: seq<Region>, s: seq<Region>, f: nat)
    requires CreatedVia(e820, sorted, s)
    ensures IsUsable(s, f) <==>
            exists i :: 0 <= i < |sorted| && sorted[i].kind == Usable && sorted[i].Covers(f)
                        && forall j :: i < j < |sorted| ==> f < sorted[j].start
  {
    OwnersPositive(s, f, Usable);
    CreatedIsTidy(e820, sorted, s);
    if IsUsable(s, f) {
      var i :| 0 <= i < |s| && s[i].kind == Usable && s[i].Covers(f);
      assert sorted[i].kind == Usable && sorted[i].Covers(f);
      forall j | i < j < |sorted| ensures f < sorted[j].start { assert s[i].end <= s[j].start; }
    } else if i :| 0 <= i < |sorted| && sorted[i].kind == Usable && sorted[i].Covers(f)
                   && forall j :: i < j < |sorted| ==> f < sorted[j].start {
      assert s[i].kind == Usable && s[i].Covers(f);
    }
  }

  /** Every usable frame is touched by a usable firmware record. */
  lemma CreatedProvenance(e820: seq<E820Entry>, s: seq<Region>, f: nat)
    requires Created(e820, s) && IsUsable(s, f)
    ensures exists k :: 0 <= k < |e820| && e820[k].regionType == 1 && e820[k].Touches(f)
  {
    var sorted: seq<Region> :| CreatedVia(e820, sorted, s);
    CreatedUsableIff(e820, sorted, s, f);
    var i :| 0 <= i < |sorted| && sorted[i].kind == Usable && sorted[i].Covers(f);
    PackedElements(Converted(e820), sorted, i);
    var k :| 0 <= k < |e820| && Converted(e820)[k] == sorted[i];
    assert Converted(e820)[k] == Convert(e820[k]);
    ConvertMeaning(e820[k], f);
  }

  /** Regions of other types are taken over unchanged. */
  lemma CreatedKeepsOthers(e820: seq<E820Entry>, sorted: seq<Region>, s: seq<Region>, f: nat, kind: RegionType)
    requires CreatedVia(e820, sorted, s) && kind != Usable
    ensures Owners(s, f, kind) == Owners(Converted(e820), f, kind)
  {
    OwnershipPacked(Converted(e820), sorted);
    TotalPointwise(s, sorted, OwnerWeight(f, kind));
  }

  lemma {:induction false} TotalPointwise(a: seq<Region>, b: seq<Region>, w: Region -> nat)
    requires |a| == |b| && forall i :: 0 <= i < |a| ==> w(a[i]) == w(b[i])
    ensures Total(a, w) == Total(b, w)
  {
    if a != [] { TotalPointwise(a[1..], b[1..], w); }
  }

  // ------------------------------------------------------------------
  // The trim is one-sided
  // ------------------------------------------------------------------

  /** No frame is offered as usable while a region of another type claims it. */
  ghost predicate NothingShared(s: seq<Region>) {
    forall i, j, f: nat :: 0 <= i < |s| && 0 <= j < |s| && s[i].kind != Usable && s[j].kind == Usable
                           && s[i].Covers(f)
                           ==> !s[j].Covers(f)
  }

  /** A usable record that the trim does not cut to nothing. */
  predicate Survives(sorted: seq<Region>, j: nat)
    requires j < |sorted|
  {
    sorted[j].kind == Usable && (j + 1 < |sorted| ==> sorted[j].start < sorted[j + 1].start)
  }

  /** In the sorted records no surviving usable one starts inside an earlier one of another type. */
  predicate NoUsableStartsInside(sorted: seq<Region>) {
    forall i, j {:trigger sorted[i], Survives(sorted, j)} ::
      0 <= i < j < |sorted| && sorted[i].kind != Usable && Survives(sorted, j)
      ==> sorted[i].end <= sorted[j].start
  }

  lemma NothingSharedSorted(e820: seq<E820Entry>, sorted: seq<Region>, s: seq<Region>)
    requires CreatedVia(e820, sorted, s)
    ensures NothingShared(s) <==> NoUsableStartsInside(sorted)
  {
    CreatedIsTidy(e820, sorted, s);
    NoInvertedPacked(Converted(e820), sorted);
    if NoUsableStartsInside(sorted) {
      forall i, j, f: nat | 0 <= i < |s| && 0 <= j < |s| && s[i].kind != Usable && s[j].kind == Usable && s[i].Covers(f)
        ensures !s[j].Covers(f)
      {
        UsableMissesOther(sorted, s, i, j, f);
      }
    } else {
      SharedFrame(sorted, s);
    }
  }

  // The condition on the records themselves

  /** No record starts with `u` and reaches further, so the trim need not cut `u` to nothing. */
  predicate Outlasts(records: seq<Region>, u: Region) {
    u in records && u.kind == Usable && forall x :: x in records && x.start == u.start ==> x.end <= u.end
  }

  /** Some sort puts `r` before `u`. */
  predicate MayPrecede(r: Region, u: Region) {
    r.start < u.start || (r.start == u.start && r.end <= u.end)
  }

  /** No record of another type that may be sorted before a lasting usable one reaches into it. */
  ghost predicate NoRecordReachesIn(records: seq<Region>) {
    forall u, r {:trigger Outlasts(records, u), MayPrecede(r, u)} ::
      u in records && Outlasts(records, u) && r in records && r.kind != Usable && MayPrecede(r, u) ==> r.end <= u.start
  }

  /** Whatever the sort does, no usable frame of the result is claimed by another type. */
  ghost predicate NeverShared(e820: seq<E820Entry>) {
    forall sorted, s :: CreatedVia(e820, sorted, s) ==> NothingShared(s)
  }

  /** The trim keeps usable frames apart from all others exactly for record lists of this kind. */
  lemma NothingSharedIff(e820: seq<E820Entry>)
    requires AllValid(e820) && AllKnown(e820)
    ensures NeverShared(e820) <==> NoRecordReachesIn(Converted(e820))
  {
    var records := Converted(e820);
    if NoRecordReachesIn(records) {
      forall sorted, s | CreatedVia(e820, sorted, s) ensures NothingShared(s) {
        RecordsToSorted(records, sorted);
        NothingSharedSorted(e820, sorted, s);
      }
    } else {
      var u, r :| Outlasts(records, u) && r in records && r.kind != Usable && MayPrecede(r, u) && u.start < r.end;
      var sorted := PackedExists(records, u);
      SortedWithout(records, sorted, u, r);
      assert CreatedVia(e820, sorted, Trimmed(sorted));
      NothingSharedSorted(e820, sorted, Trimmed(sorted));
    }
  }

  lemma SortedMembers(records: seq<Region>, sorted: seq<Region>, x: Region)
    requires Packed(records, sorted) && forall i :: 0 <= i < |records| ==> !records[i].IsEmpty()
    ensures x in sorted <==> x in records
  {
    LiveOfNonEmpty(records);
    assert x in sorted <==> x in multiset(sorted);
    assert x in records <==> x in multiset(records);
  }

  lemma RecordsToSorted(records: seq<Region>, sorted: seq<Region>)
    requires Packed(records, sorted) && NoRecordReachesIn(records)
    requires forall i :: 0 <= i < |records| ==> !records[i].IsEmpty()
    ensures NoUsableStartsInside(sorted)
  {
    forall i, j | 0 <= i < j < |sorted| && sorted[i].kind != Usable && Survives(sorted, j)
      ensures sorted[i].end <= sorted[j].start
    {
      SortedMembers(records, sorted, sorted[i]);
      SortedMembers(records, sorted, sorted[j]);
      assert Outlasts(records, sorted[j]) by {
        forall x | x in records && x.start == sorted[j].start ensures x.end <= sorted[j].end {
          SortedMembers(records, sorted, x);
          var k :| 0 <= k < |sorted| && sorted[k] == x;
          NotBehindSurvivor(sorted, j, k);
        }
      }
      assert !Before(sorted[j], sorted[i]);
      assert MayPrecede(sorted[i], sorted[j]);
    }
  }

  /** An entry with the same start as a survivor stands before it and ends no later. */
  lemma NotBehindSurvivor(sorted: seq<Region>, j: nat, k: nat)
    requires Sorted(sorted) && forall i :: 0 <= i < |sorted| ==> !sorted[i].IsEmpty()
    requires j < |sorted| && Survives(sorted, j) && k < |sorted| && sorted[k].start == sorted[j].start
    ensures sorted[k].end <= sorted[j].end
  {
    if k < j {
      assert !Before(sorted[j], sorted[k]);
    }
  }

  /** With `u` sorted behind its equals, it survives and stands behind `r`. */
  lemma SortedWithout(records: seq<Region>, sorted: seq<Region>, u: Region, r: Region)
    requires Packed(records, sorted) && KeySorted(u, sorted)
    requires forall i :: 0 <= i < |records| ==> !records[i].IsEmpty()
    requires Outlasts(records, u) && r in records && r.kind != Usable && MayPrecede(r, u) && u.start < r.end
    ensures !NoUsableStartsInside(sorted)
  {
    SortedMembers(records, sorted, u);
    SortedMembers(records, sorted, r);
    var j := LastIndex(sorted, u);
    var i :| 0 <= i < |sorted| && sorted[i] == r;
    assert j < i ==> !KeyLess(u, sorted[i], sorted[j]);
    assert Survives(sorted, j) by {
      if j + 1 < |sorted| {
        var x := sorted[j + 1];
        assert x in sorted && !KeyLess(u, x, u);
        SortedMembers(records, sorted, x);
      }
    }
  }

  lemma LastIndex(s: seq<Region>, x: Region) returns (j: nat)
    requires x in s
    ensures j < |s| && s[j] == x && forall k :: j < k < |s| ==> s[k] != x
  {
    j := |s| - 1;
    while s[j] != x
      invariant j < |s| && x in s[..j + 1] && forall k :: j < k < |s| ==> s[k] != x
      decreases j
    {
      j := j - 1;
    }
  }

  lemma SharedFrame(sorted: seq<Region>, s: seq<Region>)
    requires s == Trimmed(sorted) && Tidy(s) && NoInverted(sorted) && !NoUsableStartsInside(sorted)
    requires forall k :: 0 <= k < |sorted| ==> !sorted[k].IsEmpty()
    ensures !NothingShared(s)
  {
    var i, j :| 0 <= i < j < |sorted| && sorted[i].kind != Usable && Survives(sorted, j)
                && sorted[j].start < sorted[i].end;
    assert s[i].start <= s[j].start;
    var f := sorted[j].start;
    assert s[i].kind != Usable && s[i].Covers(f) && s[j].kind == Usable && s[j].Covers(f);
  }

  lemma UsableMissesOther(sorted: seq<Region>, s: seq<Region>, i: nat, j: nat, f: nat)
    requires s == Trimmed(sorted) && Tidy(s) && NoUsableStartsInside(sorted)
    requires i < |s| && j < |s| && s[i].kind != Usable && s[j].kind == Usable && s[i].Covers(f)
    ensures !s[j].Covers(f)
  {
    assert s[i] == TrimmedAt(sorted, i) && s[j] == TrimmedAt(sorted, j);
    assert i < j && s[j].Covers(f) ==> Survives(sorted, j);
    if j < i {
      assert s[j].end <= s[i].start;
    } else if j + 1 < |s| {
      assert s[j + 1] == TrimmedAt(sorted, j + 1);
      assert s[j].end <= s[j + 1].start;
    }
  }

  /** Two records of equal range: the outcome depends on how the unstable sort breaks the tie. */
  lemma TieDecides(e820: seq<E820Entry>, r: Region, u: Region)
    requires e820 == [E820Entry(0, 0x2000, 2), E820Entry(0, 0x2000, 1)] && r == Region(0, 2, Reserved)
    requires u == Region(0, 2, Usable)
    ensures CreatedVia(e820, [r, u], [r, u]) && !NothingShared([r, u])
    ensures CreatedVia(e820, [u, r], [Region(0, 0, Usable), r]) && NothingShared([Region(0, 0, Usable), r])
  {
    TieConverted(e820, r, u);
    assert Packed([r, u], [r, u]) && Packed([r, u], [u, r]) by {
      PairPacked(r, u);
      PairPacked(u, r);
    }
    TieShared(r, u, [r, u]);
  }

  lemma TieShared(r: Region, u: Region, s: seq<Region>)
    requires r == Region(0, 2, Reserved) && u == Region(0, 2, Usable) && s == [r, u]
    ensures !NothingShared(s) && NothingShared([Region(0, 0, Usable), r])
  {
    assert s[0].Covers(0) && s[1].Covers(0);
  }

  lemma TieConverted(e820: seq<E820Entry>, r: Region, u: Region)
    requires e820 == [E820Entry(0, 0x2000, 2), E820Entry(0, 0x2000, 1)] && r == Region(0, 2, Reserved)
    requires u == Region(0, 2, Usable)
    ensures AllValid(e820) && AllKnown(e820) && Converted(e820) == [r, u]
    ensures Trimmed([r, u]) == [r, u] && Trimmed([u, r]) == [Region(0, 0, Usable), r]
  {}

  /** A record list on which the trim leaves frame 1 both reserved and usable. */
  lemma HalfReservedFrameStaysUsable(e820: seq<E820Entry>, sorted: seq<Region>)
    requires e820 == [E820Entry(0, 0x1800, 2), E820Entry(0x1800, 0x2800, 1)]
    requires sorted == [Region(0, 2, Reserved), Region(1, 4, Usable)]
    ensures CreatedVia(e820, sorted, sorted)
    ensures Owners(sorted, 1, Reserved) > 0 && IsUsable(sorted, 1)
  {
    assert Convert(e820[0]) == sorted[0] && Convert(e820[1]) == sorted[1];
    assert Converted(e820) == sorted;
    LiveOfNonEmpty(sorted);
    assert Trimmed(sorted) == sorted;
    OwnersPositive(sorted, 1, Reserved);
    OwnersPositive(sorted, 1, Usable);
    assert sorted[0].Covers(1) && sorted[1].Covers(1);
  }
}

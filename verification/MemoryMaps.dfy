/**
 * The fixed 64-entry table of `bootinfo/memory_map.rs`.  Everything the rest of
 * the bootloader sees is the slice of the first `next` entries.
 */
module MemoryMaps {
  import opened Regions

  /** Exchanges two neighbours. */
  method SwapWithPrevious(a: array<Region>, j: nat)
    requires 0 < j < a.Length
    modifies a
    ensures a[..] == old(a[..])[j - 1 := old(a[j])][j := old(a[j - 1])]
    ensures multiset(a[..]) == multiset(old(a[..]))
  {
    a[j - 1], a[j] := a[j], a[j - 1];
  }

  /** One element moves left until it meets one it does not precede. */
  method Insert(a: array<Region>, n: nat)
    requires n < a.Length && Sorted(a[..n])
    modifies a
    ensures Sorted(a[..n + 1]) && multiset(a[..]) == multiset(old(a[..]))
  {
    var j := n;
    while j > 0 && Compare(a[j], a[j - 1]) == Less
      invariant j <= n
      invariant multiset(a[..]) == multiset(old(a[..]))
      invariant forall i, k :: 0 <= i < k <= n && k != j ==> !Before(a[k], a[i])
    {
      SwapWithPrevious(a, j);
      j := j - 1;
    }
  }

  /**
   * `sort_unstable_by`: some in-place sort.  Only the contract is used elsewhere,
   * so ties may come out in any order.
   */
  method SortUnstable(a: array<Region>)
    modifies a
    ensures Sorted(a[..]) && multiset(a[..]) == multiset(old(a[..]))
  {
    var n := 0;
    while n < a.Length
      invariant n <= a.Length && Sorted(a[..n])
      invariant multiset(a[..]) == multiset(old(a[..]))
    {
      Insert(a, n);
      n := n + 1;
    }
    assert a[..n] == a[..];
  }

  class MemoryMap {
    const entries: array<Region>
    var next: nat

    /** Entries past the slice are empty. */
    ghost predicate Valid()
      reads this, entries
    {
      && entries.Length == MAX_MEMORY_MAP_SIZE
      && next <= entries.Length
      && forall i :: next <= i < entries.Length ==> entries[i].IsEmpty()
    }

    /** The slice that `Deref` exposes. */
    ghost function Slice(): seq<Region>
      requires Valid()
      reads this, entries
    {
      entries[..next]
    }

    constructor ()
      ensures Valid() && fresh(entries) && entries.Length == 64 && Slice() == []
    {
      entries := new Region[MAX_MEMORY_MAP_SIZE](_ => EMPTY_REGION);
      next := 0;
    }

    /**
     * `MemoryMap::sort`: the table is permuted, its non-empty entries come first in
     * order, and `next` is recomputed to be their number.
     */
    method Sort()
      requires Valid()
      modifies this, entries
      ensures Valid()
      ensures multiset(entries[..]) == multiset(old(entries[..]))
      ensures Packed(old(Slice()), Slice())
      ensures next == |Live(old(Slice()))|
    {
      ghost var before, table := Slice(), entries[..];
      SortUnstable(entries);
      var i := 0;
      while i < entries.Length && !entries[i].IsEmpty()
        invariant i <= entries.Length
        invariant forall k :: 0 <= k < i ==> !entries[k].IsEmpty()
        invariant multiset(entries[..]) == multiset(table) && Sorted(entries[..])
      {
        i := i + 1;
      }
      ghost var sorted := entries[..];
      if i < entries.Length {
        next := i;
        EmptiesLast(sorted, i);
      }
      assert before == table[..old(next)];
      PackFromTable(table, old(next), sorted, i);
      LiveLength(before);
      assert sorted[..i] == Slice();
    }

    /**
     * `MemoryMap::add_region`.  `ok` is false where the source's assertion fails;
     * then nothing is written.
     */
    method AddRegion(region: Region) returns (ok: bool)
      requires Valid()
      modifies this, entries
      ensures Valid()
      ensures ok <==> |old(Slice())| < MAX_MEMORY_MAP_SIZE
      ensures ok ==> Packed(old(Slice()) + [region], Slice())
      ensures !ok ==> Slice() == old(Slice())
    {
      if next >= MAX_MEMORY_MAP_SIZE {
        return false;
      }
      ghost var before := Slice();
      entries[next] := region;
      next := next + 1;
      assert Slice() == before + [region];
      Sort();
      ok := true;
    }
  }

  /** After sorting, everything behind the first empty entry is empty. */
  lemma EmptiesLast(s: seq<Region>, i: nat)
    requires Sorted(s) && i < |s| && s[i].IsEmpty()
    ensures forall k :: i <= k < |s| ==> s[k].IsEmpty()
  {
    forall k | i < k < |s| ensures s[k].IsEmpty() {
      assert !Before(s[k], s[i]);
    }
  }

  lemma LiveOfTable(table: seq<Region>, next: nat)
    requires next <= |table|
    requires forall i :: next <= i < |table| ==> table[i].IsEmpty()
    ensures Live(table) == Live(table[..next])
  {
    assert table == table[..next] + table[next..];
    LiveAppend(table[..next], table[next..]);
    LiveOfEmpties(table[next..]);
  }

  lemma PackFromTable(table: seq<Region>, next: nat, sorted: seq<Region>, i: nat)
    requires next <= |table| && i <= |sorted|
    requires forall k :: next <= k < |table| ==> table[k].IsEmpty()
    requires Sorted(sorted) && multiset(sorted) == multiset(table)
    requires forall k :: 0 <= k < i ==> !sorted[k].IsEmpty()
    requires forall k :: i <= k < |sorted| ==> sorted[k].IsEmpty()
    ensures Packed(table[..next], sorted[..i])
    ensures i == |Live(table[..next])|
  {
    LivePermutation(sorted, table);
    LiveOfTable(table, next);
    LiveOfTable(sorted, i);
    LiveOfNonEmpty(sorted[..i]);
    assert |multiset(sorted[..i])| == i;
  }
}

/**
 * `src/memory.rs`: the kernel's own frame allocator, which walks the usable
 * regions of the map the bootloader left behind.
 */
module KernelFrames {
  import opened Basics
  import opened Regions

  /** The frame numbers from `start` up to but excluding `end`, none if inverted. */
  function FramesOf(start: nat, end: nat): (fs: seq<nat>)
    ensures |fs| == if start <= end then end - start else 0
    ensures forall i :: 0 <= i < |fs| ==> fs[i] == start + i
  {
    seq(if start <= end then end - start else 0, i requires 0 <= i => start + i)
  }

  /** `usable_frames`: filter, flatten, in slice order. */
  function UsableFrames(s: seq<Region>): seq<nat> {
    if s == [] then []
    else (if s[0].kind == Usable then FramesOf(s[0].start, s[0].end) else []) + UsableFrames(s[1..])
  }

  class BootInfoFrameAllocator {
    const memoryMap: seq<Region>
    var next: nat

    constructor (memoryMap: seq<Region>)
      ensures this.memoryMap == memoryMap && next == 0
    {
      this.memoryMap := memoryMap;
      next := 0;
    }

    /** The `next`-th usable frame, counting from zero; the counter always advances. */
    method AllocateFrame() returns (r: Option<nat>)
      modifies this
      ensures next == old(next) + 1
      ensures r == NthFrame(memoryMap, old(next))
    {
      var frames := UsableFrames(memoryMap);
      r := if next < |frames| then Some(frames[next]) else None;
      next := next + 1;
    }
  }

  /** What call number `n` of the kernel allocator returns. */
  function NthFrame(s: seq<Region>, n: nat): Option<nat> {
    if n < |UsableFrames(s)| then Some(UsableFrames(s)[n]) else None
  }

  lemma {:induction false} UsableFramesLength(s: seq<Region>)
    ensures |UsableFrames(s)| == UsableFrameCount(s)
  {
    if s != [] { UsableFramesLength(s[1..]); }
  }

  lemma {:induction false} OccurrencesInRange(fs: seq<nat>, f: nat)
    requires forall i, j :: 0 <= i < j < |fs| ==> fs[i] < fs[j]
    ensures multiset(fs)[f] == if f in fs then 1 else 0
  {
    if fs != [] {
      assert fs == [fs[0]] + fs[1..];
      OccurrencesInRange(fs[1..], f);
    }
  }

  /** The kernel is offered a frame exactly as often as usable regions claim it. */
  lemma {:induction false} OfferedPerOwner(s: seq<Region>, f: nat)
    ensures multiset(UsableFrames(s))[f] == Owners(s, f, Usable)
  {
    if s != [] {
      OfferedPerOwner(s[1..], f);
      var head := FramesOf(s[0].start, s[0].end);
      OccurrencesInRange(head, f);
      assert f in head <==> s[0].Covers(f) by {
        if s[0].Covers(f) { assert head[f - s[0].start] == f; }
      }
    }
  }

  /** Every listed frame lies at or above the start of some usable region. */
  lemma {:induction false} ListedFrame(s: seq<Region>, k: nat)
    requires k < |UsableFrames(s)|
    ensures exists i :: 0 <= i < |s| && s[i].kind == Usable && s[i].Covers(UsableFrames(s)[k])
  {
    var head := if s[0].kind == Usable then FramesOf(s[0].start, s[0].end) else [];
    if k < |head| {
      assert s[0].Covers(UsableFrames(s)[k]);
    } else {
      ListedFrame(s[1..], k - |head|);
      var i :| 0 <= i < |s[1..]| && s[1..][i].kind == Usable && s[1..][i].Covers(UsableFrames(s[1..])[k - |head|]);
      assert s[i + 1].Covers(UsableFrames(s)[k]);
    }
  }

  ghost predicate UsableAscending(s: seq<Region>) {
    forall i, j :: 0 <= i < j < |s| && s[i].kind == Usable && s[j].kind == Usable ==> s[i].end <= s[j].start
  }

  /** On a sorted map whose usable regions are disjoint, the frames come out in strictly ascending order. */
  lemma {:induction false} FramesAscend(s: seq<Region>, k: nat, l: nat)
    requires UsableAscending(s) && k < l < |UsableFrames(s)|
    ensures UsableFrames(s)[k] < UsableFrames(s)[l]
  {
    var head := if s[0].kind == Usable then FramesOf(s[0].start, s[0].end) else [];
    if |head| <= k {
      FramesAscend(s[1..], k - |head|, l - |head|);
    } else if |head| <= l {
      ListedFrame(s[1..], l - |head|);
    }
  }

  /** The map the bootloader leaves behind: packed and sound. */
  ghost predicate Handover(s: seq<Region>) {
    Sorted(s) && Sound(s) && forall i :: 0 <= i < |s| ==> !s[i].IsEmpty()
  }

  lemma SortedSoundAscends(s: seq<Region>)
    requires Handover(s)
    ensures UsableAscending(s)
  {
    forall i, j | 0 <= i < j < |s| && s[i].kind == Usable && s[j].kind == Usable
      ensures s[i].end <= s[j].start
    {
      assert !Before(s[j], s[i]);
      if s[j].start < s[i].end {
        UsableApart(s, i, j, s[j].start);
      }
    }
  }

  /**
   * The kernel allocator returns every usable frame exactly once, in ascending order,
   * and then nothing, for ever.
   */
  lemma KernelListsEachOnce(s: seq<Region>)
    requires Handover(s)
    ensures forall n: nat :: NthFrame(s, n).Some? <==> n < UsableFrameCount(s)
    ensures forall n: nat, l: nat :: n < l && NthFrame(s, l).Some? ==>
              NthFrame(s, n).Some? && NthFrame(s, n).value < NthFrame(s, l).value
    ensures forall f: nat :: IsUsable(s, f) <==> exists n: nat :: NthFrame(s, n) == Some(f)
  {
    SortedSoundAscends(s);
    UsableFramesLength(s);
    forall n: nat, l: nat | n < l && NthFrame(s, l).Some?
      ensures NthFrame(s, n).Some? && NthFrame(s, n).value < NthFrame(s, l).value
    {
      FramesAscend(s, n, l);
    }
    forall f: nat ensures IsUsable(s, f) <==> exists n: nat :: NthFrame(s, n) == Some(f) {
      OfferedPerOwner(s, f);
      if IsUsable(s, f) {
        assert f in multiset(UsableFrames(s));
        var n :| 0 <= n < |UsableFrames(s)| && UsableFrames(s)[n] == f;
        assert NthFrame(s, n) == Some(f);
      }
      if n: nat :| NthFrame(s, n) == Some(f) {
        assert f in multiset(UsableFrames(s));
      }
    }
  }
}

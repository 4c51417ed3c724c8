/**
 * Whole boots: the map is built and trimmed, regions are marked and frames
 * allocated in any interleaving, the map is sorted one last time
 * (`main.rs`), and the kernel allocator takes over (`src/memory.rs`).
 */
module BootRun {
  import opened Basics
  import opened Regions
  import opened FrameAllocator
  import opened BootInfo
  import opened KernelFrames

  datatype Step = Mark(region: Region) | Allocate(kind: RegionType, frame: nat) {
    /** The frames this step takes, with their new owner. */
    function Claim(): Region {
      match this
      case Mark(m) => m
      case Allocate(kind, frame) => Region(frame, frame + 1, kind)
    }
  }

  /** A step that did not panic; marks are non-empty and lie inside one usable region. */
  ghost predicate Taken(s: seq<Region>, s': seq<Region>, step: Step) {
    && step.Claim().kind != Usable
    && match step
       case Mark(m) => m.start < m.end && InsideUsable(s, m) && Marked(s, s', m)
       case Allocate(kind, frame) => AllocStep(s, s', kind, Frame(frame))
  }

  ghost predicate Run(views: seq<seq<Region>>, steps: seq<Step>) {
    && |views| == |steps| + 1
    && forall k {:trigger steps[k]} :: 0 <= k < |steps| ==> Taken(views[k], views[k + 1], steps[k])
  }

  lemma StepTransfers(s: seq<Region>, s': seq<Region>, step: Step)
    requires Sound(s) && Taken(s, s', step)
    ensures Sound(s') && Transfer(s, s', step.Claim())
    ensures UsableFrameCount(s') + (step.Claim().end - step.Claim().start) == UsableFrameCount(s)
  {
    match step {
      case Mark(m) =>
        var i: nat :| MarkStep(s, s', m, i);
        var host :| 0 <= host < |s| && s[host].kind == Usable && Inside(m, s[host]);
        HitsItsHost(s, m, i, host);
        MarkTransfers(s, s', m, i);
        MarkKeepsSound(s, s', m, i);
      case Allocate(kind, frame) =>
        AllocationMovesOneFrame(s, s', kind, frame);
        AllocationKeepsSound(s, s', kind, frame);
    }
  }

  /** Every reachable map is sound, and the usable frames only ever become fewer. */
  lemma {:induction false} RunShrinks(views: seq<seq<Region>>, steps: seq<Step>, i: nat, j: nat)
    requires Run(views, steps) && Sound(views[0]) && i <= j <= |steps|
    ensures Sound(views[i]) && Sound(views[j])
    ensures forall f: nat :: IsUsable(views[j], f) ==> IsUsable(views[i], f)
    decreases j
  {
    if j > 0 {
      RunShrinks(views, steps, if i == j then i - 1 else i, j - 1);
      assert Taken(views[j - 1], views[j - 1 + 1], steps[j - 1]);
      StepTransfers(views[j - 1], views[j], steps[j - 1]);
      TransferConsumes(views[j - 1], views[j], steps[j - 1].Claim());
    }
  }

  /** A frame taken by step `i` was usable before it and never is again. */
  lemma ClaimedForGood(views: seq<seq<Region>>, steps: seq<Step>, i: nat, j: nat, f: nat)
    requires Run(views, steps) && Sound(views[0]) && i < j <= |steps| && steps[i].Claim().Covers(f)
    ensures IsUsable(views[i], f) && !IsUsable(views[j], f)
  {
    RunShrinks(views, steps, 0, i);
    RunShrinks(views, steps, i + 1, j);
    assert Taken(views[i], views[i + 1], steps[i]);
    StepTransfers(views[i], views[i + 1], steps[i]);
    TransferConsumes(views[i], views[i + 1], steps[i].Claim());
  }

  /** No frame is ever claimed twice: not by two allocations, two marks, or one of each. */
  lemma NoFrameTwice(views: seq<seq<Region>>, steps: seq<Step>, i: nat, j: nat, f: nat)
    requires Run(views, steps) && Sound(views[0]) && i < j < |steps| && steps[i].Claim().Covers(f)
    ensures !steps[j].Claim().Covers(f)
  {
    ClaimedForGood(views, steps, i, j, f);
    if steps[j].Claim().Covers(f) {
      ClaimedForGood(views, steps, j, j + 1, f);
    }
  }

  ghost function ClaimedFrames(steps: seq<Step>): nat {
    if steps == [] then 0
    else ClaimedFrames(steps[..|steps| - 1])
         + var c := steps[|steps| - 1].Claim(); if c.start <= c.end then c.end - c.start else 0
  }

  /** Usable frames are conserved: what was claimed is exactly what is missing. */
  lemma {:induction false} RunConserves(views: seq<seq<Region>>, steps: seq<Step>)
    requires Run(views, steps) && Sound(views[0])
    ensures UsableFrameCount(views[|steps|]) + ClaimedFrames(steps) == UsableFrameCount(views[0])
    decreases |steps|
  {
    if steps != [] {
      var n := |steps| - 1;
      assert Run(views[..n + 1], steps[..n]) by {
        forall k | 0 <= k < n ensures Taken(views[..n + 1][k], views[..n + 1][k + 1], steps[..n][k]) {
          assert Taken(views[k], views[k + 1], steps[k]);
        }
      }
      RunConserves(views[..n + 1], steps[..n]);
      RunShrinks(views, steps, 0, n);
      assert Taken(views[n], views[n + 1], steps[n]);
      StepTransfers(views[n], views[n + 1], steps[n]);
    }
  }

  /** After the final sort the map is what the kernel allocator needs. */
  lemma FinalMap(views: seq<seq<Region>>, steps: seq<Step>, final: seq<Region>)
    requires Run(views, steps) && Sound(views[0]) && Packed(views[|steps|], final)
    ensures Handover(final)
    ensures forall f: nat :: IsUsable(final, f) <==> IsUsable(views[|steps|], f)
    ensures UsableFrameCount(final) == UsableFrameCount(views[|steps|])
  {
    RunShrinks(views, steps, 0, |steps|);
    OwnershipPacked(views[|steps|], final);
    NoInvertedPacked(views[|steps|], final);
    forall f: nat ensures Owners(final, f, Usable) <= 1 {
      assert Owners(views[|steps|], f, Usable) <= 1;
    }
  }

  /**
   * One boot, start to finish: bootloader claims are pairwise disjoint, the kernel
   * allocator never returns a claimed frame nor one frame twice, every frame anyone
   * ever gets was reported usable by the firmware, and the accounts balance.
   */
  lemma WholeBoot(e820: seq<E820Entry>, views: seq<seq<Region>>, steps: seq<Step>, final: seq<Region>)
    requires Run(views, steps) && Created(e820, views[0]) && Packed(views[|steps|], final)
    ensures forall i, j, f: nat :: 0 <= i < j < |steps| && steps[i].Claim().Covers(f) ==> !steps[j].Claim().Covers(f)
    ensures forall i, f: nat, n: nat :: 0 <= i < |steps| && steps[i].Claim().Covers(f) ==> NthFrame(final, n) != Some(f)
    ensures forall n: nat, l: nat :: n < l && NthFrame(final, n).Some? ==> NthFrame(final, n) != NthFrame(final, l)
    ensures forall i, f: nat :: 0 <= i < |steps| && steps[i].Claim().Covers(f) ==> FirmwareUsable(e820, f)
    ensures forall n: nat :: NthFrame(final, n).Some? ==> FirmwareUsable(e820, NthFrame(final, n).value)
    ensures |UsableFrames(final)| + ClaimedFrames(steps) == UsableFrameCount(views[0])
  {
    CreatedIsSound(e820, views[0]);
    RunConserves(views, steps);
    FinalMap(views, steps, final);
    UsableFramesLength(final);
    forall i, j, f: nat | 0 <= i < j < |steps| && steps[i].Claim().Covers(f) ensures !steps[j].Claim().Covers(f) {
      NoFrameTwice(views, steps, i, j, f);
    }
    forall i, f: nat, n: nat | 0 <= i < |steps| && steps[i].Claim().Covers(f) ensures NthFrame(final, n) != Some(f) {
      ClaimedForGood(views, steps, i, |steps|, f);
      if NthFrame(final, n) == Some(f) { KernelFrame(e820, views, steps, final, n); }
    }
    forall i, f: nat | 0 <= i < |steps| && steps[i].Claim().Covers(f) ensures FirmwareUsable(e820, f) {
      ClaimedForGood(views, steps, i, |steps|, f);
      RunShrinks(views, steps, 0, i);
      CreatedProvenance(e820, views[0], f);
    }
    forall n: nat, l: nat | n < l && NthFrame(final, n).Some? ensures NthFrame(final, n) != NthFrame(final, l) {
      SortedSoundAscends(final);
      if l < |UsableFrames(final)| { FramesAscend(final, n, l); }
    }
    forall n: nat | NthFrame(final, n).Some? ensures FirmwareUsable(e820, NthFrame(final, n).value) {
      KernelFrame(e820, views, steps, final, n);
    }
  }

  /** What the kernel allocator returns is still usable at the end of the bootloader's run. */
  lemma KernelFrame(e820: seq<E820Entry>, views: seq<seq<Region>>, steps: seq<Step>, final: seq<Region>, n: nat)
    requires Run(views, steps) && Created(e820, views[0]) && Packed(views[|steps|], final)
    requires NthFrame(final, n).Some?
    ensures IsUsable(views[|steps|], NthFrame(final, n).value)
    ensures FirmwareUsable(e820, NthFrame(final, n).value)
  {
    CreatedIsSound(e820, views[0]);
    var f := NthFrame(final, n).value;
    assert f in multiset(UsableFrames(final));
    OfferedPerOwner(final, f);
    FinalMap(views, steps, final);
    RunShrinks(views, steps, 0, |steps|);
    CreatedProvenance(e820, views[0], f);
  }

  /** Some usable firmware record touches the frame. */
  ghost predicate FirmwareUsable(e820: seq<E820Entry>, f: nat) {
    exists k :: 0 <= k < |e820| && e820[k].regionType == 1 && e820[k].Touches(f)
  }

  /**
   * A map with n usable frames serves exactly n allocations of any mix of types: as
   * long as no allocation panics for want of a table entry, the run fails for want of
   * memory after n successes and not before.
   */
  lemma ServesExactly(views: seq<seq<Region>>, steps: seq<Step>, s': seq<Region>, kind: RegionType, r: Allocation)
    requires Run(views, steps) && Sound(views[0])
    requires forall k :: 0 <= k < |steps| ==> steps[k].Allocate?
    requires AllocStep(views[|steps|], s', kind, r)
    ensures |steps| <= UsableFrameCount(views[0])
    ensures r == OutOfMemory <==> |steps| == UsableFrameCount(views[0])
  {
    RunConserves(views, steps);
    RunShrinks(views, steps, 0, |steps|);
    OutOfMemoryIffExhausted(views[|steps|], s', kind, r);
    OneFrameEach(steps);
  }

  lemma {:induction false} OneFrameEach(steps: seq<Step>)
    requires forall k :: 0 <= k < |steps| ==> steps[k].Allocate?
    ensures ClaimedFrames(steps) == |steps|
  {
    if steps != [] { OneFrameEach(steps[..|steps| - 1]); }
  }
}

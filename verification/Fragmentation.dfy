/**
 * How many table entries the bootloader's allocations can use up.  Frames of one
 * type are taken from the lowest usable region and page-table frames from the
 * highest, "to prevent fragmentation"; this module proves how far that goes.
 */
module Fragmentation {
  import opened Regions
  import opened FrameAllocator

  /** The region a split for `kind` would choose is already preceded by one that can grow. */
  ghost predicate Ready(s: seq<Region>, kind: RegionType) {
    exists u: nat :: Chosen(s, u, kind) && Grows(s, u - 1, kind)
  }

  /** Non-empty regions, minus one for each type whose next request will just grow a region. */
  ghost function Potential(s: seq<Region>, kind: RegionType): int {
    |Live(s)| - (if Ready(s, kind) then 1 else 0) - (if Ready(s, PageTable) then 1 else 0)
  }

  /** Only usable regions can be exhausted. */
  ghost predicate SolidOwners(s: seq<Region>) {
    forall i :: 0 <= i < |s| && s[i].kind != Usable ==> !s[i].IsEmpty()
  }

  ghost predicate TwoUsable(s: seq<Region>) {
    exists u, v :: u < v && Splittable(s, u) && Splittable(s, v)
  }

  ghost predicate NoneGrows(s: seq<Region>, kind: RegionType) {
    forall i :: 0 <= i < |s| ==> !Grows(s, i, kind)
  }

  ghost predicate Orderly(s: seq<Region>) { Chain(s) && SolidOwners(s) }

  // ------------------------------------------------------------------
  // Growing
  // ------------------------------------------------------------------

  lemma GrowLive(s: seq<Region>, g: nat, kind: RegionType)
    requires Orderly(s) && Grows(s, g, kind) && kind != Usable
    ensures |Live(Grown(s, g))| == |Live(s)| - (if Grown(s, g)[g + 1].IsEmpty() then 1 else 0)
  {
    var a := s[g].(end := s[g].end + 1);
    LiveReplace(s, g, a);
    LiveReplace(s[g := a], g + 1, Grown(s, g)[g + 1]);
  }

  /** What growing region `g` does to the other types' prospects. */
  lemma GrowReady(s: seq<Region>, g: nat, kind: RegionType, other: RegionType)
    requires Orderly(s) && Grows(s, g, kind) && kind != Usable && other != Usable
    requires Ready(s, other) && (other == kind ==> !Grown(s, g)[g + 1].IsEmpty())
    ensures Ready(Grown(s, g), other)
  {
    var s' := Grown(s, g);
    var u: nat :| Chosen(s, u, other) && Grows(s, u - 1, other);
    assert forall v :: Splittable(s', v) ==> Splittable(s, v);
    assert Splittable(s', u) && Chosen(s', u, other);
    assert Grows(s', u - 1, other);
  }

  lemma GrowOrderly(s: seq<Region>, g: nat, kind: RegionType)
    requires Orderly(s) && Grows(s, g, kind) && kind != Usable
    ensures Orderly(Grown(s, g))
  {}

  lemma GrowPotential(s: seq<Region>, s': seq<Region>, T: RegionType, kind: RegionType, frame: nat, g: nat)
    requires Orderly(s) && T != Usable && T != PageTable && (kind == T || kind == PageTable)
    requires GrowStep(s, s', kind, frame, g)
    ensures Potential(s', T) <= Potential(s, T)
  {
    GrowLive(s, g, kind);
    if Ready(s, T) && (kind != T || !s'[g + 1].IsEmpty()) { GrowReady(s, g, kind, T); }
    if Ready(s, PageTable) && (kind != PageTable || !s'[g + 1].IsEmpty()) { GrowReady(s, g, kind, PageTable); }
  }

  // ------------------------------------------------------------------
  // Splitting
  // ------------------------------------------------------------------

  /** The map right after a split, before exhausted entries are dropped. */
  function SplitMap(s: seq<Region>, c: nat, kind: RegionType): seq<Region>
    requires c < |s|
  {
    s[..c] + [Region(s[c].start, s[c].start + 1, kind), Shrunk(s, c)[c]] + s[c + 1..]
  }

  lemma ChainCons(x: Region, t: seq<Region>)
    requires Chain(t) && !x.Inverted() && forall i :: 0 <= i < |t| ==> x.end <= t[i].start
    ensures Chain([x] + t)
  {
    var s := [x] + t;
    forall i, j | 0 <= i < j < |s| ensures s[i].end <= s[j].start {
      if i > 0 { assert t[i - 1].end <= t[j - 1].start; }
    }
  }

  lemma {:induction false} LiveChain(s: seq<Region>)
    requires Chain(s)
    ensures Chain(Live(s))
  {
    if s != [] {
      var t := s[1..];
      ChainTail(s);
      LiveChain(t);
      forall i | 0 <= i < |Live(t)| ensures s[0].end <= Live(t)[i].start {
        LiveMember(t, i);
        var k :| 0 <= k < |t| && t[k] == Live(t)[i];
        assert s[k + 1] == t[k];
      }
      ChainCons(s[0], Live(t));
    }
  }

  lemma SplitMapIndex(s: seq<Region>, c: nat, kind: RegionType, i: nat)
    requires c < |s| && i <= |s|
    ensures SplitMap(s, c, kind)[i] ==
            if i < c then s[i]
            else if i == c then Region(s[c].start, s[c].start + 1, kind)
            else if i == c + 1 then Shrunk(s, c)[c]
            else s[i - 1]
  {}

  lemma SplitMapChain(s: seq<Region>, c: nat, kind: RegionType)
    requires Chain(s) && Splittable(s, c)
    ensures Chain(SplitMap(s, c, kind))
  {
    var w := SplitMap(s, c, kind);
    forall i | 0 <= i < |w| ensures !w[i].Inverted() {
      SplitMapIndex(s, c, kind, i);
    }
    forall i, j | 0 <= i < j < |w| ensures w[i].end <= w[j].start {
      SplitMapIndex(s, c, kind, i);
      SplitMapIndex(s, c, kind, j);
      var a, b := if i <= c then i else i - 1, if j <= c then j else j - 1;
      assert a < b ==> s[a].end <= s[b].start;
    }
  }

  lemma SplitMapMembers(s: seq<Region>, c: nat, kind: RegionType)
    requires c < |s|
    ensures multiset(SplitMap(s, c, kind)) == multiset(Shrunk(s, c) + [Region(s[c].start, s[c].start + 1, kind)])
  {
    assert Shrunk(s, c) == s[..c] + [Shrunk(s, c)[c]] + s[c + 1..];
    var x := Region(s[c].start, s[c].start + 1, kind);
    assert SplitMap(s, c, kind) == s[..c] + [x] + [Shrunk(s, c)[c]] + s[c + 1..];
  }

  lemma ChainIsSorted(s: seq<Region>)
    requires Chain(s) && forall i :: 0 <= i < |s| ==> !s[i].IsEmpty()
    ensures Sorted(s)
  {
    forall i, j | 0 <= i < j < |s| ensures !Before(s[j], s[i]) {
      assert s[i].start < s[i].end <= s[j].start;
    }
  }

  /** The live regions after a split, in the only possible order. */
  lemma SplitLiveChain(s: seq<Region>, c: nat, kind: RegionType)
    requires Chain(s) && Splittable(s, c)
    ensures var l := Live(SplitMap(s, c, kind)); Chain(l) && forall i :: 0 <= i < |l| ==> !l[i].IsEmpty()
  {
    var w := SplitMap(s, c, kind);
    SplitMapChain(s, c, kind);
    LiveChain(w);
    forall i | 0 <= i < |Live(w)| ensures !Live(w)[i].IsEmpty() { LiveNonEmpty(w, i); }
  }

  lemma SplitLiveMembers(s: seq<Region>, c: nat, kind: RegionType)
    requires c < |s|
    ensures multiset(Live(SplitMap(s, c, kind))) ==
            multiset(Live(Shrunk(s, c) + [Region(s[c].start, s[c].start + 1, kind)]))
  {
    SplitMapMembers(s, c, kind);
    LivePermutation(SplitMap(s, c, kind), Shrunk(s, c) + [Region(s[c].start, s[c].start + 1, kind)]);
  }

  lemma SplitStepChain(s: seq<Region>, s': seq<Region>, kind: RegionType, frame: nat, c: nat)
    requires Chain(s) && SplitStep(s, s', kind, frame, c)
    ensures Chain(s')
  {
    assert AllocStep(s, s', kind, Frame(frame));
    AllocationKeepsChain(s, s', kind, frame);
  }

  /** On a disjoint map the unstable sort has no choice. */
  lemma SplitResult(s: seq<Region>, s': seq<Region>, kind: RegionType, frame: nat, c: nat)
    requires Chain(s) && SplitStep(s, s', kind, frame, c)
    ensures s' == Live(SplitMap(s, c, kind))
  {
    var l := Live(SplitMap(s, c, kind));
    assert Chain(s') by { SplitStepChain(s, s', kind, frame, c); }
    SplitLiveChain(s, c, kind);
    assert multiset(s') == multiset(l) by { SplitLiveMembers(s, c, kind); }
    ChainUnique(s', l);
  }

  /** A split that nothing forbids can be made. */
  lemma SplitStepExists(s: seq<Region>, c: nat, kind: RegionType)
    requires Chain(s) && Chosen(s, c, kind) && NoneGrows(s, kind) && |s| < MAX_MEMORY_MAP_SIZE
    ensures SplitStep(s, Live(SplitMap(s, c, kind)), kind, s[c].start, c)
    ensures AllocStep(s, Live(SplitMap(s, c, kind)), kind, Frame(s[c].start))
  {
    SplitLiveChain(s, c, kind);
    SplitLiveMembers(s, c, kind);
    ChainIsSorted(Live(SplitMap(s, c, kind)));
    assert SplitStep(s, Live(SplitMap(s, c, kind)), kind, s[c].start, c);
  }

  lemma LiveAround(w: seq<Region>, i: nat)
    requires i + 1 < |w| && !w[i].IsEmpty() && !w[i + 1].IsEmpty()
    ensures Live(w) == Live(w[..i]) + ([w[i], w[i + 1]] + Live(w[i + 2..]))
  {
    var p, pair, q := w[..i], [w[i], w[i + 1]], w[i + 2..];
    assert w == p + (pair + q);
    LiveBetween(p, pair, q);
  }

  lemma LiveBetween(p: seq<Region>, mid: seq<Region>, q: seq<Region>)
    requires forall k :: 0 <= k < |mid| ==> !mid[k].IsEmpty()
    ensures Live(p + (mid + q)) == Live(p) + (mid + Live(q))
  {
    LiveAppend(p, mid + q);
    LiveAppend(mid, q);
    LiveOfNonEmpty(mid);
  }

  /** Dropping exhausted entries does not spoil a type's prospects. */
  lemma ReadyAfterPacking(w: seq<Region>, i: nat, kind: RegionType)
    requires Grows(w, i, kind) && Chosen(w, i + 1, kind) && kind != Usable && !w[i].IsEmpty()
    ensures Ready(Live(w), kind)
  {
    var p, q := w[..i], w[i + 2..];
    LiveAround(w, i);
    var l := Live(w);
    var u := |Live(p)| + 1;
    assert l[u - 1] == w[i] && l[u] == w[i + 1];
    forall v | 0 <= v < |l| && v != u && (v < u <==> kind != PageTable) ensures !Splittable(l, v) {
      if v < u - 1 {
        LiveMember(p, v);
        var k :| 0 <= k < |p| && p[k] == Live(p)[v];
        assert !Splittable(w, k);
      } else if v > u {
        LiveMember(q, v - u - 1);
        var k :| 0 <= k < |q| && q[k] == Live(q)[v - u - 1];
        assert !Splittable(w, i + 2 + k);
      }
    }
    assert Chosen(l, u, kind) && Grows(l, u - 1, kind);
  }

  /** Away from the split, the same regions are usable as before. */
  lemma SplitMapSplittable(s: seq<Region>, c: nat, kind: RegionType, v: nat)
    requires c < |s| && kind != Usable && v <= |s| && v != c + 1
    ensures Splittable(SplitMap(s, c, kind), v) <==> v != c && Splittable(s, if v < c then v else v - 1)
  {
    SplitMapIndex(s, c, kind, v);
  }

  /** The type just served can now grow (unless the region was used up). */
  lemma SplitMakesReady(s: seq<Region>, c: nat, kind: RegionType)
    requires Chosen(s, c, kind) && kind != Usable && !Shrunk(s, c)[c].IsEmpty()
    ensures Ready(Live(SplitMap(s, c, kind)), kind)
  {
    var w := SplitMap(s, c, kind);
    SplitMapIndex(s, c, kind, c);
    SplitMapIndex(s, c, kind, c + 1);
    forall v | 0 <= v < |w| && v != c + 1 && (v < c + 1 <==> kind != PageTable) ensures !Splittable(w, v) {
      SplitMapSplittable(s, c, kind, v);
    }
    assert Grows(w, c, kind) && Chosen(w, c + 1, kind);
    ReadyAfterPacking(w, c, kind);
  }

  /** A type served from another region keeps its prospects. */
  lemma SplitKeepsReady(s: seq<Region>, c: nat, kind: RegionType, other: RegionType, u: nat)
    requires SolidOwners(s) && Chosen(s, c, kind) && kind != Usable && other != Usable
    requires (kind == PageTable) != (other == PageTable)
    requires u != c && Chosen(s, u, other) && Grows(s, u - 1, other)
    ensures Ready(Live(SplitMap(s, c, kind)), other)
  {
    var w := SplitMap(s, c, kind);
    assert u - 1 != c;
    var i: nat := if u < c then u - 1 else u;
    SplitMapIndex(s, c, kind, i);
    SplitMapIndex(s, c, kind, i + 1);
    assert w[i] == s[u - 1] && w[i + 1] == s[u];
    forall v | 0 <= v < |w| && v != i + 1 && (v < i + 1 <==> other != PageTable) ensures !Splittable(w, v) {
      // the split region itself lies on the far side of the one chosen for the other type
      if v != c + 1 { SplitMapSplittable(s, c, kind, v); }
    }
    assert Grows(w, i, other) && Chosen(w, i + 1, other);
    ReadyAfterPacking(w, i, other);
  }

  lemma SplitLive(s: seq<Region>, c: nat, kind: RegionType)
    requires Splittable(s, c)
    ensures |Live(Live(SplitMap(s, c, kind)))| == |Live(SplitMap(s, c, kind))|
    ensures |Live(SplitMap(s, c, kind))| == |Live(s)| + (if Shrunk(s, c)[c].IsEmpty() then 0 else 1)
  {
    var w := SplitMap(s, c, kind);
    LiveAt(w, c);
    assert w[..c] == s[..c] && w[c + 1..] == [Shrunk(s, c)[c]] + s[c + 1..];
    LiveAppend([Shrunk(s, c)[c]], s[c + 1..]);
    LiveAt(s, c);
    forall i | 0 <= i < |Live(w)| ensures !Live(w)[i].IsEmpty() { LiveNonEmpty(w, i); }
    LiveOfNonEmpty(Live(w));
  }

  // ------------------------------------------------------------------
  // One usable region
  // ------------------------------------------------------------------

  /** Region `u` is the only one with usable frames, and has `size` of them. */
  ghost predicate Alone(s: seq<Region>, u: nat, size: nat) {
    && Splittable(s, u) && s[u].end - s[u].start == size
    && forall v :: 0 <= v < |s| && v != u ==> !Splittable(s, v)
  }

  lemma AloneAfterPacking(w: seq<Region>, i: nat, size: nat) returns (u: nat)
    requires Alone(w, i + 1, size) && !w[i].IsEmpty()
    ensures Alone(Live(w), u + 1, size) && Live(w)[u] == w[i]
  {
    var p, q := w[..i], w[i + 2..];
    LiveAround(w, i);
    var l := Live(w);
    u := |Live(p)|;
    forall v | 0 <= v < |l| && v != u + 1 ensures !Splittable(l, v) {
      if v < u {
        LiveMember(p, v);
        var k :| 0 <= k < |p| && p[k] == l[v];
        assert !Splittable(w, k);
      } else if v == u {
        assert !Splittable(w, i);
      } else {
        LiveMember(q, v - u - 2);
        var k :| 0 <= k < |q| && q[k] == l[v];
        assert !Splittable(w, i + 2 + k);
      }
    }
  }

  lemma AloneInSplitMap(s: seq<Region>, c: nat, size: nat, kind: RegionType)
    requires Alone(s, c, size) && size > 1 && kind != Usable
    ensures Alone(SplitMap(s, c, kind), c + 1, size - 1)
  {
    var w := SplitMap(s, c, kind);
    forall v | 0 <= v < |w| && v != c + 1 ensures !Splittable(w, v) {
      if v < c { assert !Splittable(s, v); }
      if v > c + 1 { assert w[v] == s[v - 1] && !Splittable(s, v - 1); }
    }
  }

  /** A request that cannot grow a region adds one, and leaves the other type unable to grow. */
  lemma LoneRegionFragments(s: seq<Region>, s': seq<Region>, c: nat, size: nat, kind: RegionType, other: RegionType,
                            frame: nat)
    returns (u: nat)
    requires Chain(s) && Alone(s, c, size) && size > 1 && kind != other && kind != Usable && other != Usable
    requires NoneGrows(s, kind) && AllocStep(s, s', kind, Frame(frame))
    ensures |Live(s')| == |Live(s)| + 1
    ensures Chain(s') && Alone(s', u, size - 1) && NoneGrows(s', other)
  {
    AllocationKeepsChain(s, s', kind, frame);
    assert s' == Live(SplitMap(s, c, kind)) by {
      LoneSplit(s, s', c, size, kind, frame);
      SplitResult(s, s', kind, frame, c);
    }
    SplitLive(s, c, kind);
    AloneInSplitMap(s, c, size, kind);
    var k := AloneAfterPacking(SplitMap(s, c, kind), c, size - 1);
    SplitMapIndex(s, c, kind, c);
    u := k + 1;
    LoneNeighbour(s', k, size - 1, other);
  }

  lemma LoneSplit(s: seq<Region>, s': seq<Region>, c: nat, size: nat, kind: RegionType, frame: nat)
    requires Alone(s, c, size) && NoneGrows(s, kind) && AllocStep(s, s', kind, Frame(frame))
    ensures SplitStep(s, s', kind, frame, c)
  {
    var d: nat :| SplitStep(s, s', kind, frame, d);
    assert Splittable(s, d);
  }

  /** The only usable region is preceded by a region of another type, so `other` cannot grow. */
  lemma LoneNeighbour(s: seq<Region>, k: nat, size: nat, other: RegionType)
    requires Alone(s, k + 1, size) && s[k].kind != other
    ensures NoneGrows(s, other)
  {
    forall i | 0 <= i < |s| ensures !Grows(s, i, other) {
      assert Grows(s, i, other) ==> Splittable(s, i + 1);
    }
  }

  // ------------------------------------------------------------------
  // The exact condition
  // ------------------------------------------------------------------

  /** The type among the two that is not being asked for. */
  function Other(T: RegionType, kind: RegionType): RegionType {
    if kind == T then PageTable else T
  }

  /** The request must split, and the only usable region is the one the other type was about to grow into. */
  ghost predicate Breaks(s: seq<Region>, T: RegionType, kind: RegionType) {
    NoneGrows(s, kind) && Ready(s, Other(T, kind)) && !TwoUsable(s)
  }

  lemma SplitPotential(s: seq<Region>, s': seq<Region>, T: RegionType, kind: RegionType, frame: nat, c: nat)
    requires Orderly(s) && T != Usable && T != PageTable && (kind == T || kind == PageTable)
    requires SplitStep(s, s', kind, frame, c) && (Ready(s, Other(T, kind)) ==> TwoUsable(s))
    ensures Potential(s', T) <= Potential(s, T)
  {
    SplitResult(s, s', kind, frame, c);
    SplitLive(s, c, kind);
    assert !Ready(s, kind);
    if !Shrunk(s, c)[c].IsEmpty() { SplitMakesReady(s, c, kind); }
    var other := Other(T, kind);
    if Ready(s, other) {
      var u: nat :| Chosen(s, u, other) && Grows(s, u - 1, other);
      assert u != c;
      SplitKeepsReady(s, c, kind, other, u);
    }
  }

  /** Nothing usable is left when the only usable frame has been taken. */
  lemma LastFrameTaken(s: seq<Region>, c: nat, kind: RegionType)
    requires Alone(s, c, 1) && kind != Usable
    ensures forall v :: 0 <= v < |Live(SplitMap(s, c, kind))| ==> !Splittable(Live(SplitMap(s, c, kind)), v)
  {
    var w := SplitMap(s, c, kind);
    var l := Live(w);
    forall v | 0 <= v < |l| ensures !Splittable(l, v) {
      LiveMember(w, v);
      LiveNonEmpty(w, v);
      var k :| 0 <= k < |w| && w[k] == l[v];
      SplitMapIndex(s, c, kind, k);
      if k != c + 1 {
        SplitMapSplittable(s, c, kind, k);
        assert !Splittable(w, k);
      }
    }
  }

  /** After a split of the only usable region, the other type cannot grow. */
  lemma LoneSplitBlocks(s: seq<Region>, c: nat, size: nat, kind: RegionType, other: RegionType)
    requires Alone(s, c, size) && kind != Usable && kind != other
    ensures NoneGrows(Live(SplitMap(s, c, kind)), other)
    ensures size == 1 ==> NoneGrows(Live(SplitMap(s, c, kind)), kind)
  {
    var l := Live(SplitMap(s, c, kind));
    if size > 1 {
      AloneInSplitMap(s, c, size, kind);
      var k := AloneAfterPacking(SplitMap(s, c, kind), c, size - 1);
      SplitMapIndex(s, c, kind, c);
      LoneNeighbour(l, k, size - 1, other);
    } else {
      LastFrameTaken(s, c, kind);
      forall i, x | 0 <= i < |l| && (x == kind || x == other) ensures !Grows(l, i, x) {
        assert Grows(l, i, x) ==> Splittable(l, i + 1);
      }
    }
  }

  lemma SplitBreaks(s: seq<Region>, s': seq<Region>, T: RegionType, kind: RegionType, frame: nat, c: nat)
    requires Orderly(s) && T != Usable && T != PageTable && (kind == T || kind == PageTable)
    requires SplitStep(s, s', kind, frame, c) && Breaks(s, T, kind)
    ensures Potential(s', T) == Potential(s, T) + 1
  {
    var size := s[c].end - s[c].start;
    forall v | 0 <= v < |s| && v != c ensures !Splittable(s, v) {
      assert Splittable(s, v) ==> TwoUsable(s);
    }
    assert Alone(s, c, size);
    SplitResult(s, s', kind, frame, c);
    SplitLive(s, c, kind);
    LoneSplitBlocks(s, c, size, kind, Other(T, kind));
    if size > 1 { SplitMakesReady(s, c, kind); }
    assert !Ready(s, kind) && !Ready(s', Other(T, kind));
  }

  lemma SplitOrderly(s: seq<Region>, s': seq<Region>, kind: RegionType, frame: nat, c: nat)
    requires Orderly(s) && SplitStep(s, s', kind, frame, c)
    ensures Orderly(s') && |s'| == |Live(s')|
  {
    SplitResult(s, s', kind, frame, c);
    SplitLiveChain(s, c, kind);
    LiveOfNonEmpty(s');
  }

  /**
   * Exactly when fragmentation gets worse: a request raises the potential if and only if it
   * cannot grow a region and has to split the one usable region left, in front of which the
   * other type was about to grow.
   */
  lemma PotentialRisesIff(s: seq<Region>, s': seq<Region>, T: RegionType, kind: RegionType, frame: nat)
    requires Orderly(s) && T != Usable && T != PageTable && (kind == T || kind == PageTable)
    requires AllocStep(s, s', kind, Frame(frame))
    ensures Potential(s', T) > Potential(s, T) <==> Breaks(s, T, kind)
    ensures Potential(s', T) <= Potential(s, T) + 1
    ensures Orderly(s') && (|s'| == |s| || |s'| == |Live(s')|)
  {
    if g: nat :| GrowStep(s, s', kind, frame, g) {
      GrowPotential(s, s', T, kind, frame, g);
      GrowOrderly(s, g, kind);
      assert Grows(s, g, kind);
    } else {
      var c: nat :| SplitStep(s, s', kind, frame, c);
      SplitOrderly(s, s', kind, frame, c);
      if Breaks(s, T, kind) {
        SplitBreaks(s, s', T, kind, frame, c);
      } else {
        SplitPotential(s, s', T, kind, frame, c);
      }
    }
  }

  // ------------------------------------------------------------------
  // Runs
  // ------------------------------------------------------------------

  /** One request of type T or PageTable that does not break. */
  ghost predicate Request(s: seq<Region>, s': seq<Region>, T: RegionType, kind: RegionType, frame: nat) {
    && (kind == T || kind == PageTable) && !Breaks(s, T, kind)
    && AllocStep(s, s', kind, Frame(frame))
  }

  ghost predicate RequestRun(views: seq<seq<Region>>, T: RegionType, kinds: seq<RegionType>, frames: seq<nat>) {
    && |views| == |kinds| + 1 && |frames| == |kinds|
    && forall k {:trigger kinds[k]} :: 0 <= k < |kinds| ==> Request(views[k], views[k + 1], T, kinds[k], frames[k])
  }

  lemma {:induction false} RunPotential(views: seq<seq<Region>>, T: RegionType, kinds: seq<RegionType>,
                                        frames: seq<nat>, n: nat)
    requires RequestRun(views, T, kinds, frames) && n <= |kinds|
    requires Orderly(views[0]) && T != Usable && T != PageTable && Live(views[0]) == views[0]
    ensures Orderly(views[n]) && Potential(views[n], T) <= Potential(views[0], T)
    ensures |views[n]| <= |views[0]| + 2
  {
    if n > 0 {
      RunPotential(views, T, kinds, frames, n - 1);
      assert Request(views[n - 1], views[n - 1 + 1], T, kinds[n - 1], frames[n - 1]);
      PotentialRisesIff(views[n - 1], views[n], T, kinds[n - 1], frames[n - 1]);
    }
  }

  /**
   * From a freshly sorted, disjoint map, any mix of requests for T and for page tables
   * uses at most two entries more than at the start, as long as no request breaks.
   */
  lemma FragmentationBound(views: seq<seq<Region>>, T: RegionType, kinds: seq<RegionType>, frames: seq<nat>, n: nat)
    requires RequestRun(views, T, kinds, frames) && n <= |kinds|
    requires Orderly(views[0]) && T != Usable && T != PageTable && Live(views[0]) == views[0]
    ensures |Live(views[n])| <= |views[0]| + 2
  {
    RunPotential(views, T, kinds, frames, n);
  }

  /** A request made while two usable regions are left. */
  ghost predicate RoomyRequest(s: seq<Region>, s': seq<Region>, T: RegionType, kind: RegionType, frame: nat) {
    && (kind == T || kind == PageTable) && TwoUsable(s)
    && AllocStep(s, s', kind, Frame(frame))
  }

  /** In particular, no request breaks while two usable regions are left. */
  lemma BoundWithTwoUsable(views: seq<seq<Region>>, T: RegionType, kinds: seq<RegionType>, frames: seq<nat>, n: nat)
    requires |views| == |kinds| + 1 && |frames| == |kinds| && n <= |kinds|
    requires forall k {:trigger kinds[k]} :: 0 <= k < |kinds| ==>
              RoomyRequest(views[k], views[k + 1], T, kinds[k], frames[k])
    requires Orderly(views[0]) && T != Usable && T != PageTable && Live(views[0]) == views[0]
    ensures |Live(views[n])| <= |views[0]| + 2
  {
    forall k | 0 <= k < |kinds| ensures Request(views[k], views[k + 1], T, kinds[k], frames[k]) {
      assert RoomyRequest(views[k], views[k + 1], T, kinds[k], frames[k]);
    }
    FragmentationBound(views, T, kinds, frames, n);
  }

  /** Hence a map with at most 61 regions at the start never overflows the table. */
  lemma NeverOverflows(views: seq<seq<Region>>, T: RegionType, kinds: seq<RegionType>, frames: seq<nat>,
                       s': seq<Region>, kind: RegionType, r: Allocation)
    requires RequestRun(views, T, kinds, frames)
    requires Orderly(views[0]) && T != Usable && T != PageTable && Live(views[0]) == views[0]
    requires |views[0]| <= MAX_MEMORY_MAP_SIZE - 3 && AllocStep(views[|kinds|], s', kind, r)
    ensures r != Panic
  {
    RunPotential(views, T, kinds, frames, |kinds|);
  }

  // ------------------------------------------------------------------
  // One usable region only: the bound is lost
  // ------------------------------------------------------------------

  function Alternating(a: RegionType, b: RegionType, k: nat): RegionType {
    if k % 2 == 0 then a else b
  }

  lemma AlternatingDiffers(a: RegionType, b: RegionType, k: nat)
    requires a != b && a != Usable && b != Usable
    ensures Alternating(a, b, k) != Alternating(a, b, k + 1)
    ensures Alternating(a, b, k) != Usable && Alternating(a, b, k + 1) != Usable
  {}

  ghost predicate AlternatingRun(views: seq<seq<Region>>, a: RegionType, b: RegionType, frames: seq<nat>) {
    && |views| == |frames| + 1
    && forall k {:trigger frames[k]} :: 0 <= k < |frames| ==>
         AllocStep(views[k], views[k + 1], Alternating(a, b, k), Frame(frames[k]))
  }

  /** With a single usable region, alternating two types costs one table entry per frame. */
  lemma {:induction false} AlternationFragments(views: seq<seq<Region>>, a: RegionType, b: RegionType,
                                                frames: seq<nat>, c: nat, size: nat, n: nat)
    returns (u: nat)
    requires AlternatingRun(views, a, b, frames) && n <= |frames| && a != b && a != Usable && b != Usable
    requires Chain(views[0]) && Alone(views[0], c, size) && n < size && NoneGrows(views[0], a)
    ensures |Live(views[n])| == |Live(views[0])| + n
    ensures Chain(views[n]) && Alone(views[n], u, size - n) && NoneGrows(views[n], Alternating(a, b, n))
  {
    if n == 0 {
      u := c;
    } else {
      var v := AlternationFragments(views, a, b, frames, c, size, n - 1);
      var kind, other := Alternating(a, b, n - 1), Alternating(a, b, n);
      RunStep(views, a, b, frames, n - 1);
      AlternatingDiffers(a, b, n - 1);
      u := LoneRegionFragments(views[n - 1], views[n], v, size - n + 1, kind, other, frames[n - 1]);
    }
  }

  lemma RunStep(views: seq<seq<Region>>, a: RegionType, b: RegionType, frames: seq<nat>, k: nat)
    requires AlternatingRun(views, a, b, frames) && k < |frames|
    ensures AllocStep(views[k], views[k + 1], Alternating(a, b, k), Frame(frames[k]))
  {
    assert frames[k] == frames[k];
  }

  /** Such a run can be made from any lone region, as long as frames and table entries last. */
  lemma {:induction false} AlternationRunExists(s: seq<Region>, a: RegionType, b: RegionType, c: nat, size: nat, n: nat)
    returns (views: seq<seq<Region>>, frames: seq<nat>)
    requires Chain(s) && Alone(s, c, size) && n < size && NoneGrows(s, a) && a != b && a != Usable && b != Usable
    requires |s| < MAX_MEMORY_MAP_SIZE && |Live(s)| + n <= MAX_MEMORY_MAP_SIZE
    ensures AlternatingRun(views, a, b, frames) && |frames| == n && views[0] == s
    ensures n > 0 ==> |views[n]| == |Live(s)| + n
  {
    if n == 0 {
      views, frames := [s], [];
    } else {
      views, frames := AlternationRunExists(s, a, b, c, size, n - 1);
      var u := AlternationFragments(views, a, b, frames, c, size, n - 1);
      var t, kind := views[n - 1], Alternating(a, b, n - 1);
      var t' := Live(SplitMap(t, u, kind));
      SplitStepExists(t, u, kind);
      SplitLive(t, u, kind);
      RunLonger(views, a, b, frames, t', t[u].start);
      views, frames := views + [t'], frames + [t[u].start];
    }
  }

  lemma RunLonger(views: seq<seq<Region>>, a: RegionType, b: RegionType, frames: seq<nat>, t: seq<Region>, frame: nat)
    requires AlternatingRun(views, a, b, frames)
    requires AllocStep(views[|frames|], t, Alternating(a, b, |frames|), Frame(frame))
    ensures AlternatingRun(views + [t], a, b, frames + [frame])
  {
    var vs, fs := views + [t], frames + [frame];
    forall k | 0 <= k < |fs| ensures AllocStep(vs[k], vs[k + 1], Alternating(a, b, k), Frame(fs[k])) {
      if k < |frames| { assert fs[k] == frames[k] && vs[k] == views[k] && vs[k + 1] == views[k + 1]; }
    }
  }

  /** Ten usable frames in one region: three requests use three entries more than at the start. */
  lemma ThreeMoreEntries(s0: seq<Region>, s1: seq<Region>, s2: seq<Region>, s3: seq<Region>)
    requires s0 == [Region(0, 10, Usable)]
    requires s1 == [Region(0, 1, Kernel), Region(1, 10, Usable)]
    requires s2 == [Region(0, 1, Kernel), Region(1, 2, PageTable), Region(2, 10, Usable)]
    requires s3 == [Region(0, 1, Kernel), Region(1, 2, PageTable), Region(2, 3, Kernel), Region(3, 10, Usable)]
    ensures AllocStep(s0, s1, Kernel, Frame(0)) && AllocStep(s1, s2, PageTable, Frame(1))
    ensures AllocStep(s2, s3, Kernel, Frame(2))
    ensures |Live(s3)| == |Live(s0)| + 3
  {
    FirstOfThree(s0, s1);
    SecondOfThree(s1, s2);
    ThirdOfThree(s2, s3);
  }

  lemma FirstOfThree(s0: seq<Region>, s1: seq<Region>)
    requires s0 == [Region(0, 10, Usable)] && s1 == [Region(0, 1, Kernel), Region(1, 10, Usable)]
    ensures AllocStep(s0, s1, Kernel, Frame(0)) && Live(s0) == s0
  {
    LiveOfNonEmpty(s0);
    LiteralSplit(s0, s1, 0, Kernel);
  }

  lemma SecondOfThree(s1: seq<Region>, s2: seq<Region>)
    requires s1 == [Region(0, 1, Kernel), Region(1, 10, Usable)]
    requires s2 == [Region(0, 1, Kernel), Region(1, 2, PageTable), Region(2, 10, Usable)]
    ensures AllocStep(s1, s2, PageTable, Frame(1))
  {
    LiteralSplit(s1, s2, 1, PageTable);
  }

  lemma ThirdOfThree(s2: seq<Region>, s3: seq<Region>)
    requires s2 == [Region(0, 1, Kernel), Region(1, 2, PageTable), Region(2, 10, Usable)]
    requires s3 == [Region(0, 1, Kernel), Region(1, 2, PageTable), Region(2, 3, Kernel), Region(3, 10, Usable)]
    ensures AllocStep(s2, s3, Kernel, Frame(2)) && Live(s3) == s3
  {
    assert forall v :: 0 <= v < 2 ==> !Splittable(s2, v);
    assert forall i :: 0 <= i < |s2| ==> !Grows(s2, i, Kernel);
    LiteralSplit(s2, s3, 2, Kernel);
  }

  lemma LiteralSplit(s: seq<Region>, s': seq<Region>, c: nat, kind: RegionType)
    requires Chain(s) && Chosen(s, c, kind) && NoneGrows(s, kind) && |s| < MAX_MEMORY_MAP_SIZE
    requires s' == SplitMap(s, c, kind) && forall i :: 0 <= i < |s'| ==> !s'[i].IsEmpty()
    ensures AllocStep(s, s', kind, Frame(s[c].start)) && Live(s') == s'
  {
    LiveOfNonEmpty(s');
    SplitStepExists(s, c, kind);
  }
}

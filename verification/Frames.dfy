/** The boot frame allocator: a bump index into the flattened list of usable frames (src/memory.rs). */
module Frames {
  import opened Prelude

  const FRAME_SIZE: nat := 4096

  datatype RegionKind = Usable | Other
  datatype Region = Region(start: nat, end: nat, kind: RegionKind)

  /** How many values `(start..end).step_by(4096)` yields. */
  function FrameCount(r: Region): nat {
    if r.kind == Usable && r.start < r.end then (r.end - r.start - 1) / FRAME_SIZE + 1 else 0
  }

  /** `PhysFrame::containing_address` rounds down to a frame boundary. */
  function Containing(address: nat): nat {
    address / FRAME_SIZE * FRAME_SIZE
  }

  function FramesOf(r: Region): seq<nat> {
    seq(FrameCount(r), i requires 0 <= i < FrameCount(r) => Containing(r.start + FRAME_SIZE * i))
  }

  /** The usable frames of a memory map, region by region. */
  function UsableFrames(regions: seq<Region>): seq<nat> {
    if regions == [] then [] else FramesOf(regions[0]) + UsableFrames(regions[1..])
  }

  /** The frame `nth(n)` yields on that list, if it is long enough. */
  function Nth(regions: seq<Region>, n: nat): Option<nat> {
    if n < |UsableFrames(regions)| then Some(UsableFrames(regions)[n]) else None
  }

  /** `start, start + 4096, ...` below `end`, for a usable region; nothing for any other. */
  lemma CountsSteps(r: Region, k: nat)
    ensures k < FrameCount(r) <==> r.kind == Usable && r.start + 4096 * k < r.end
  {
  }

  /**
   * Which frame comes where: the one in place `k` of region `i` stands behind all frames of the regions
   * before it, and is the address `4096 * k` into the region, rounded down to a frame boundary.
   */
  lemma {:induction false} FrameInPlace(regions: seq<Region>, i: nat, k: nat)
    requires i < |regions| && regions[i].kind == Usable && regions[i].start + 4096 * k < regions[i].end
    ensures Nth(regions, |UsableFrames(regions[..i])| + k) == Some((regions[i].start + 4096 * k) / 4096 * 4096)
  {
    if i == 0 {
      CountsSteps(regions[0], k);
      assert UsableFrames(regions)[k] == FramesOf(regions[0])[k];
    } else {
      var rest, n := regions[1..], |UsableFrames(regions[1..][..i - 1])| + k;
      FrameInPlace(rest, i - 1, k);
      assert regions[..i][0] == regions[0] && regions[..i][1..] == rest[..i - 1];
      assert UsableFrames(regions)[FrameCount(regions[0]) + n] == UsableFrames(rest)[n];
    }
  }

  class FrameAllocator {
    const memoryMap: seq<Region>
    var next: nat

    constructor (memoryMap: seq<Region>)
      ensures this.memoryMap == memoryMap && next == 0
    {
      this.memoryMap := memoryMap;
      next := 0;
    }

    /** Walks the regions and skips whole ones until the frame sought falls inside. */
    method NthUsable(n: nat) returns (frame: Option<nat>)
      ensures frame == Nth(memoryMap, n)
    {
      var i: nat := 0;
      var left: nat := n;
      while i < |memoryMap|
        invariant 0 <= i <= |memoryMap|
        invariant Nth(memoryMap[i..], left) == Nth(memoryMap, n)
      {
        var region := memoryMap[i];
        assert memoryMap[i..][0] == region && memoryMap[i..][1..] == memoryMap[i + 1..];
        if left < FrameCount(region) {
          return Some(Containing(region.start + FRAME_SIZE * left));
        }
        left := left - FrameCount(region);
        i := i + 1;
      }
      return None;
    }

    method AllocateFrame() returns (frame: Option<nat>)
      modifies this
      ensures frame == Nth(memoryMap, old(next)) && next == old(next) + 1
    {
      frame := NthUsable(next);
      next := next + 1;
    }
  }

  /** The answers of `k` calls in a row. */
  function Allocations(regions: seq<Region>, next: nat, k: nat): seq<Option<nat>>
    decreases k
  {
    if k == 0 then [] else [Nth(regions, next)] + Allocations(regions, next + 1, k - 1)
  }

  /**
   * From position `next`, `k` calls return the usable frames in order as long as there are any, and
   * every call after that returns none.
   */
  lemma {:induction false} AllocationEnumerates(regions: seq<Region>, next: nat, k: nat)
    ensures |Allocations(regions, next, k)| == k
    ensures forall i :: 0 <= i < k ==>
      Allocations(regions, next, k)[i] == if next + i < |UsableFrames(regions)|
        then Some(UsableFrames(regions)[next + i]) else None
    decreases k
  {
    if k > 0 {
      var rest := Allocations(regions, next + 1, k - 1);
      AllocationEnumerates(regions, next + 1, k - 1);
      forall i | 0 <= i < k
        ensures ([Nth(regions, next)] + rest)[i] == if next + i < |UsableFrames(regions)|
          then Some(UsableFrames(regions)[next + i]) else None
      {
        if i > 0 {
          assert rest[i - 1] == if next + 1 + (i - 1) < |UsableFrames(regions)|
            then Some(UsableFrames(regions)[next + 1 + (i - 1)]) else None;
        }
      }
    }
  }

  predicate Aligned(address: nat) {
    address % FRAME_SIZE == 0
  }

  predicate Disjoint(a: Region, b: Region) {
    a.end <= b.start || b.end <= a.start
  }

  ghost predicate StartsAligned(regions: seq<Region>) {
    forall r :: r in regions && r.kind == Usable ==> Aligned(r.start)
  }

  /** Usable regions start on frame boundaries and do not overlap. */
  ghost predicate WellLaidOut(regions: seq<Region>) {
    && StartsAligned(regions)
    && (forall i, j :: 0 <= i < j < |regions| && regions[i].kind == regions[j].kind == Usable ==>
         Disjoint(regions[i], regions[j]))
  }

  /** The frame starts in the region; if the region also ends on a boundary, the whole frame is in it. */
  ghost predicate FrameIn(frame: nat, r: Region) {
    && r.kind == Usable && Aligned(frame) && r.start <= frame < r.end
    && (Aligned(r.end) ==> frame + FRAME_SIZE <= r.end)
  }

  lemma ContainingAligned(start: nat, i: nat)
    requires Aligned(start)
    ensures Containing(start + FRAME_SIZE * i) == start + FRAME_SIZE * i && Aligned(start + FRAME_SIZE * i)
  {
    var q := start / FRAME_SIZE;
    assert start + FRAME_SIZE * i == (q + i) * FRAME_SIZE;
    DivModUnique(start + FRAME_SIZE * i, FRAME_SIZE, q + i, 0);
  }

  /** An aligned address below an aligned bound is at least one frame below it. */
  lemma AlignedGap(a: nat, b: nat)
    requires Aligned(a) && Aligned(b) && a < b
    ensures a + FRAME_SIZE <= b
  {
  }

  lemma RegionFrame(r: Region, i: nat)
    requires i < FrameCount(r) && Aligned(r.start)
    ensures FramesOf(r)[i] == r.start + FRAME_SIZE * i && FrameIn(FramesOf(r)[i], r)
  {
    ContainingAligned(r.start, i);
    if Aligned(r.end) {
      AlignedGap(r.start + FRAME_SIZE * i, r.end);
    }
  }

  /** Every frame handed out is aligned and lies in a usable region. */
  lemma {:induction false} FrameInUsableRegion(regions: seq<Region>, n: nat)
    requires StartsAligned(regions) && n < |UsableFrames(regions)|
    ensures exists r :: r in regions && FrameIn(UsableFrames(regions)[n], r)
  {
    if n < FrameCount(regions[0]) {
      RegionFrame(regions[0], n);
    } else {
      FrameInUsableRegion(regions[1..], n - FrameCount(regions[0]));
    }
  }

  /** The list covers the usable memory: each aligned address in a usable region is one of its frames. */
  lemma {:induction false} EveryUsableFrameIsListed(regions: seq<Region>, r: Region, frame: nat)
    requires StartsAligned(regions) && r in regions && r.kind == Usable
    requires Aligned(frame) && r.start <= frame < r.end
    ensures frame in UsableFrames(regions)
  {
    if regions[0] == r {
      var i := (frame - r.start) / FRAME_SIZE;
      assert frame == r.start + FRAME_SIZE * i;
      RegionFrame(r, i);
      assert UsableFrames(regions)[i] == frame;
    } else {
      EveryUsableFrameIsListed(regions[1..], r, frame);
    }
  }

  // ----- When no frame is handed out twice -----

  /** The frames of the two regions, starts rounded down, do not meet. */
  predicate Apart(a: Region, b: Region) {
    || FrameCount(a) == 0 || FrameCount(b) == 0
    || Containing(a.start) + FRAME_SIZE * FrameCount(a) <= Containing(b.start)
    || Containing(b.start) + FRAME_SIZE * FrameCount(b) <= Containing(a.start)
  }

  lemma FrameOf(r: Region, i: nat)
    requires i < FrameCount(r)
    ensures FramesOf(r)[i] == Containing(r.start) + FRAME_SIZE * i
  {
    var q := r.start / FRAME_SIZE;
    assert r.start + FRAME_SIZE * i == (q + i) * FRAME_SIZE + r.start % FRAME_SIZE;
    DivModUnique(r.start + FRAME_SIZE * i, FRAME_SIZE, q + i, r.start % FRAME_SIZE);
  }

  ghost predicate WhollyIn(frame: nat, r: Region) {
    r.start <= frame && frame + FRAME_SIZE <= r.end
  }

  /**
   * For every region, aligned or not: its frames all lie wholly inside it if and only if it has none, or
   * it starts and ends on frame boundaries.
   */
  lemma FramesWhollyInsideExactly(r: Region)
    ensures (forall f :: f in FramesOf(r) ==> WhollyIn(f, r))
      <==> FrameCount(r) == 0 || (Aligned(r.start) && Aligned(r.end))
  {
    var last := FrameCount(r) - 1;
    if FrameCount(r) > 0 && Aligned(r.start) && Aligned(r.end) {
      forall f | f in FramesOf(r)
        ensures WhollyIn(f, r)
      {
        var i :| 0 <= i < FrameCount(r) && FramesOf(r)[i] == f;
        RegionFrame(r, i);
      }
    } else if FrameCount(r) > 0 {
      FrameOf(r, 0);
      FrameOf(r, last);
      assert FramesOf(r)[0] in FramesOf(r) && FramesOf(r)[last] in FramesOf(r);
      if Aligned(r.start) {
        ContainingAligned(r.start, last);
      }
    }
  }

  lemma OneRegion(r: Region)
    ensures NoDup(FramesOf(r))
  {
    forall i, j | 0 <= i < j < FrameCount(r)
      ensures FramesOf(r)[i] != FramesOf(r)[j]
    {
      FrameOf(r, i);
      FrameOf(r, j);
    }
  }

  lemma TwoRegions(a: Region, b: Region)
    ensures Apart(a, b) <==> forall f :: f in FramesOf(a) ==> f !in FramesOf(b)
  {
    if Apart(a, b) {
      forall i, j | 0 <= i < FrameCount(a) && 0 <= j < FrameCount(b)
        ensures FramesOf(a)[i] != FramesOf(b)[j]
      {
        FrameOf(a, i);
        FrameOf(b, j);
      }
    } else if Containing(a.start) <= Containing(b.start) {
      SharedFrame(a, b);
    } else {
      SharedFrame(b, a);
    }
  }

  lemma SharedFrame(a: Region, b: Region)
    requires !Apart(a, b) && Containing(a.start) <= Containing(b.start)
    ensures FramesOf(b)[0] in FramesOf(a)
  {
    var i := b.start / FRAME_SIZE - a.start / FRAME_SIZE;
    FrameOf(a, i);
    FrameOf(b, 0);
  }

  lemma {:induction false} UsableFramesMembers(regions: seq<Region>, f: nat)
    ensures f in UsableFrames(regions) <==> exists r :: r in regions && f in FramesOf(r)
  {
    if regions != [] {
      UsableFramesMembers(regions[1..], f);
      assert forall r :: r in regions <==> r == regions[0] || r in regions[1..];
    }
  }

  lemma NoDupConcat<T>(a: seq<T>, b: seq<T>)
    ensures NoDup(a + b) <==> NoDup(a) && NoDup(b) && forall x :: x in a ==> x !in b
  {
    var c := a + b;
    assert forall i :: 0 <= i < |a| ==> a[i] == c[i];
    assert forall i :: 0 <= i < |b| ==> b[i] == c[|a| + i];
    if !NoDup(c) && NoDup(a) && NoDup(b) {
      var i, j :| 0 <= i < j < |c| && c[i] == c[j];
      assert c[i] in a && c[j] in b;
    }
  }

  /**
   * For every memory map: no frame is handed out twice if and only if the frame ranges of the usable
   * regions, with their starts rounded down, do not meet.
   */
  lemma {:induction false} FramesAreDistinctExactly(regions: seq<Region>)
    ensures NoDup(UsableFrames(regions)) <==> forall i, j :: 0 <= i < j < |regions| ==> Apart(regions[i], regions[j])
  {
    if regions != [] {
      var first, rest := regions[0], regions[1..];
      FramesAreDistinctExactly(rest);
      OneRegion(first);
      NoDupConcat(FramesOf(first), UsableFrames(rest));
      FirstApartFromRest(first, rest);
      ApartPairs(regions);
    }
  }

  lemma FirstApartFromRest(first: Region, rest: seq<Region>)
    ensures (forall f :: f in FramesOf(first) ==> f !in UsableFrames(rest))
      <==> (forall r :: r in rest ==> Apart(first, r))
  {
    forall r
      ensures Apart(first, r) <==> forall f :: f in FramesOf(first) ==> f !in FramesOf(r)
    {
      TwoRegions(first, r);
    }
    forall f
      ensures f in UsableFrames(rest) <==> exists r :: r in rest && f in FramesOf(r)
    {
      UsableFramesMembers(rest, f);
    }
  }

  lemma ApartPairs(regions: seq<Region>)
    requires regions != []
    ensures (forall i, j :: 0 <= i < j < |regions| ==> Apart(regions[i], regions[j]))
      <==> ((forall r :: r in regions[1..] ==> Apart(regions[0], r))
            && (forall i, j :: 0 <= i < j < |regions[1..]| ==> Apart(regions[1..][i], regions[1..][j])))
  {
    var rest := regions[1..];
    assert forall j :: 0 < j < |regions| ==> regions[j] == rest[j - 1] && regions[j] in rest;
    assert forall i :: 0 <= i < |rest| ==> rest[i] == regions[i + 1];
  }

  /** In a well laid out memory map no frame is handed out twice. */
  lemma FramesAreDistinct(regions: seq<Region>)
    requires WellLaidOut(regions)
    ensures NoDup(UsableFrames(regions))
  {
    forall i, j | 0 <= i < j < |regions|
      ensures Apart(regions[i], regions[j])
    {
      var a, b := regions[i], regions[j];
      if FrameCount(a) > 0 && FrameCount(b) > 0 {
        if a.end <= b.start {
          AlignedRegionsApart(a, b);
        } else {
          AlignedRegionsApart(b, a);
        }
      }
    }
    FramesAreDistinctExactly(regions);
  }

  lemma AlignedRegionsApart(a: Region, b: Region)
    requires FrameCount(a) > 0 && Aligned(a.start) && Aligned(b.start) && a.end <= b.start
    ensures Apart(a, b)
  {
    ContainingAligned(a.start, FrameCount(a) - 1);
    AlignedGap(a.start + FRAME_SIZE * (FrameCount(a) - 1), b.start);
  }

  /**
   * Disjointness alone is not enough: when a region does not start on a frame boundary, rounding down
   * makes two disjoint regions hand out the same frame.
   */
  lemma UnalignedRegionsCollide()
    ensures var regions := [Region(0x1000, 0x1800, Usable), Region(0x1800, 0x2800, Usable)];
      && Disjoint(regions[0], regions[1])
      && Nth(regions, 0) == Nth(regions, 1) == Some(0x1000)
  {
    var regions := [Region(0x1000, 0x1800, Usable), Region(0x1800, 0x2800, Usable)];
    assert regions[1..] == [regions[1]] && regions[1..][1..] == [];
    assert FramesOf(regions[0]) == [0x1000];
    assert FramesOf(regions[1]) == [0x1000];
    assert UsableFrames(regions[1..]) == [0x1000] + UsableFrames([]);
    assert UsableFrames(regions) == [0x1000, 0x1000];
  }
}

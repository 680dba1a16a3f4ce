/** Marking the free blocks of the groups taken off a size class's free list, and
    releasing the pages they leave free (primary64.h markFreeBlocks and steps 3 and 4
    of releaseToOSMaybe). */
module PrimaryRelease {
  import opened Arithmetic
  import opened BlockGrid
  import opened PageMarks
  import opened PackedCounters
  import opened FreeListTypes
  import opened PageRanges
  import opened PageRelease
  import opened RegionMapping
  import opened ReleaseRecorder

  /** Sizes of a size class and its region of `n` carved blocks. Addresses are
      relative to the region's start; compact pointers count units of `ptrBytes` bytes. */
  datatype Geometry = Geometry(bs: nat, ps: nat, groupSize: nat, ptrBytes: nat, n: nat, max: nat) {
    ghost predicate Ok() {
      && bs > 0 && 0 < ps < WORD_LIMIT && groupSize > 0 && ptrBytes > 0 && n > 0 && max > 0
      && groupSize % ps == 0
    }

    function Start(g: BatchGroup): nat {
      g.groupBase * ptrBytes
    }

    /** AllocatedUser of the region. */
    function Size(): nat {
      n * bs
    }

    function UsedEnd(g: BatchGroup): nat {
      if Start(g) + groupSize <= Size() then Start(g) + groupSize else Size()
    }

    function FreeBlocks(g: BatchGroup): set<nat>
      requires bs > 0
    {
      BlockSet(bs, ptrBytes, Blocks(g.batches))
    }

    /** A group as the free list keeps it: aligned base, batches of the right shape,
        and distinct block pointers that all start in the group. */
    ghost predicate GroupFits(g: BatchGroup)
      requires bs > 0 && groupSize > 0
    {
      && Start(g) % groupSize == 0 && Start(g) < Size()
      && OnlyFrontPartial(g.batches, max)
      && ProperPointers(bs, ptrBytes, Size(), Blocks(g.batches))
      && forall x | x in Blocks(g.batches) :: Start(g) <= x * ptrBytes < Start(g) + groupSize
    }

    function MaxContainedBlocks(g: BatchGroup): nat
      requires bs > 0 && Start(g) < Size()
    {
      var contained := (UsedEnd(g) - Start(g)) / bs;
      if UsedEnd(g) % bs == 0 then contained else contained + 1
    }

    /** The blocks that start in the group's used part. */
    function BlocksIn(g: BatchGroup): set<nat>
      requires bs > 0
    {
      Interval(CeilDiv(Start(g), bs), CeilDiv(UsedEnd(g), bs))
    }

    /** The branch taken by markFreeBlocks. */
    predicate TakesRangePath(g: BatchGroup)
      requires bs > 0 && Start(g) < Size() && g.batches != []
    {
      CountByShape(g.batches, max) == MaxContainedBlocks(g)
    }

    /** Are the pretend blocks after the region marked along with this group? */
    predicate MarksTrailing(g: BatchGroup)
      requires bs > 0 && Start(g) < Size() && g.batches != []
    {
      if TakesRangePath(g) then CeilDiv(UsedEnd(g), bs) == n else UsedEnd(g) == Size()
    }

    ghost function GroupMarks(g: BatchGroup): set<nat>
      requires Ok() && GroupFits(g)
    {
      FreeBlocks(g) + if MarksTrailing(g) then Trailing(bs, ps, n) else {}
    }

    ghost predicate GroupsFit(groups: seq<BatchGroup>)
      requires bs > 0 && groupSize > 0
    {
      && (forall i | 0 <= i < |groups| :: GroupFits(groups[i]))
      && (forall i, j | 0 <= i < j < |groups| :: groups[i].groupBase < groups[j].groupBase)
    }

    ghost function AllMarks(groups: seq<BatchGroup>): set<nat>
      requires Ok() && GroupsFit(groups)
    {
      if groups == [] then {} else
        AllMarks(groups[..|groups| - 1]) + GroupMarks(groups[|groups| - 1])
    }

    function AllFreeBlocks(groups: seq<BatchGroup>): set<nat>
      requires bs > 0
    {
      if groups == [] then {} else
        AllFreeBlocks(groups[..|groups| - 1]) + FreeBlocks(groups[|groups| - 1])
    }
  }

  /** MaxContainedBlocks never falls short of the blocks that start in the group and
      exceeds them by at most one. */
  lemma ContainedBlocks(geo: Geometry, g: BatchGroup)
    requires geo.Ok() && geo.Start(g) < geo.Size()
    ensures CeilDiv(geo.Start(g), geo.bs) <= CeilDiv(geo.UsedEnd(g), geo.bs)
    ensures |geo.BlocksIn(g)| <= geo.MaxContainedBlocks(g) <= |geo.BlocksIn(g)| + 1
    ensures geo.UsedEnd(g) % geo.bs == 0 ==> geo.MaxContainedBlocks(g) == |geo.BlocksIn(g)|
  {
    var bs, start, end := geo.bs, geo.Start(g), geo.UsedEnd(g);
    CeilMono(start, end, bs);
    IntervalSize(CeilDiv(start, bs), CeilDiv(end, bs));
    StartsBetween(bs, start, end);
  }

  lemma StartsBetween(bs: nat, start: nat, end: nat)
    requires bs > 0 && start <= end
    ensures var starts, contained := CeilDiv(end, bs) - CeilDiv(start, bs), (end - start) / bs;
      && starts <= contained + 1 && contained <= starts
      && (end % bs == 0 ==> starts == contained)
  {
    hide CeilDiv;
    var a, b, c := CeilDiv(start, bs), CeilDiv(end, bs), (end - start) / bs;
    CeilFacts(start, bs);
    CeilFacts(end, bs);
    DivFacts(end - start, bs);
    StartsFromProducts(bs, start, end, a, b, c);
    if end % bs == 0 {
      assert end == (end / bs) * bs;
      CeilUnique(end, bs, end / bs) by {
        assert (end / bs - 1) * bs == (end / bs) * bs - bs;
      }
      ExactFromProducts(bs, start, end, a, b, c);
    }
  }

  lemma StartsFromProducts(bs: nat, start: nat, end: nat, a: nat, b: nat, c: nat)
    requires bs > 0 && start <= end
    requires (a - 1) * bs < start <= a * bs && (b - 1) * bs < end <= b * bs
    requires c * bs <= end - start < (c + 1) * bs
    ensures b - a <= c + 1 && c <= b - a
  {
    assert (a - 1) * bs == a * bs - bs && (b - 1) * bs == b * bs - bs && (c + 1) * bs == c * bs + bs;
    assert (b - a - 2) * bs == b * bs - a * bs - 2 * bs;
    assert (b - a + 1) * bs == b * bs - a * bs + bs;
    MulCancel(b - a - 2, c, bs);
    MulCancel(c, b - a + 1, bs);
  }

  lemma ExactFromProducts(bs: nat, start: nat, end: nat, a: nat, b: nat, c: nat)
    requires bs > 0 && start <= end && end == b * bs
    requires (a - 1) * bs < start <= a * bs
    requires c * bs <= end - start < (c + 1) * bs && c <= b - a
    ensures b - a == c
  {
    assert (c + 1) * bs == c * bs + bs;
    assert (b - a) * bs == b * bs - a * bs;
    MulCancel(b - a, c + 1, bs);
  }

  lemma {:induction false} BlockSetSize(bs: nat, ptrBytes: nat, size: nat, ptrs: seq<nat>, k: nat)
    requires bs > 0 && ProperPointers(bs, ptrBytes, size, ptrs) && k <= |ptrs|
    ensures |BlockSet(bs, ptrBytes, ptrs[..k])| == k
  {
    hide BlockOf, BlockSet;
    if k == 0 {
      NoBlocks(bs, ptrBytes);
    } else {
      BlockSetSize(bs, ptrBytes, size, ptrs, k - 1);
      NewBlock(bs, ptrBytes, size, ptrs, k - 1);
    }
  }

  lemma NoBlocks(bs: nat, ptrBytes: nat)
    requires bs > 0
    ensures BlockSet(bs, ptrBytes, []) == {}
  {
  }

  /** The free blocks of a group all start in its used part. */
  lemma FreeBlocksInside(geo: Geometry, g: BatchGroup)
    requires geo.Ok() && geo.GroupFits(g)
    ensures geo.FreeBlocks(g) <= geo.BlocksIn(g)
    ensures forall b | b in geo.FreeBlocks(g) :: b < geo.n && geo.Start(g) <= b * geo.bs < geo.UsedEnd(g)
    ensures |geo.FreeBlocks(g)| == CountByShape(g.batches, geo.max) > 0
  {
    var bs, ptrs := geo.bs, Blocks(g.batches);
    forall b | b in geo.FreeBlocks(g)
      ensures b < geo.n && geo.Start(g) <= b * bs < geo.UsedEnd(g) && b in geo.BlocksIn(g)
    {
      var x :| x in ptrs && b == BlockOf(bs, geo.ptrBytes, x);
      PointerIsBlock(bs, geo.ptrBytes, x);
      MulCancel(b, geo.n, bs);
      CeilBounds(b, geo.Start(g), bs);
      CeilBounds(b, geo.UsedEnd(g), bs);
    }
    BlockSetSize(bs, geo.ptrBytes, geo.Size(), ptrs, |ptrs|);
    assert ptrs[..|ptrs|] == ptrs;
    CountByShapeExact(g.batches, geo.max);
  }

  /** Range marking is chosen only when every block that starts in the group is free,
      even though the bound it compares with may be one too high; it then marks
      exactly the group's free blocks. */
  lemma RangePathIsExact(geo: Geometry, g: BatchGroup)
    requires geo.Ok() && geo.GroupFits(g) && geo.TakesRangePath(g)
    ensures geo.FreeBlocks(g) == geo.BlocksIn(g)
    ensures RangeBlocks(geo.bs, geo.ps, geo.n, geo.Start(g), geo.UsedEnd(g)) == geo.GroupMarks(g)
  {
    hide RangeBlocks, Trailing, BlockSet, CeilDiv, Interval;
    FreeBlocksInside(geo, g);
    ContainedBlocks(geo, g);
    SubsetSize(geo.FreeBlocks(g), geo.BlocksIn(g));
    assert geo.FreeBlocks(g) * geo.BlocksIn(g) == geo.FreeBlocks(g);
    var b :| b in geo.FreeBlocks(g);
    MulMono(CeilDiv(geo.Start(g), geo.bs), b, geo.bs);
    RangeBlocksSplit(geo.bs, geo.ps, geo.n, geo.Start(g), geo.UsedEnd(g));
  }

  lemma RangeBlocksSplit(bs: nat, ps: nat, n: nat, from: nat, to: nat)
    requires bs > 0 && ps > 0 && from < to
    requires CeilDiv(from, bs) * bs < to
    ensures RangeBlocks(bs, ps, n, from, to)
      == Interval(CeilDiv(from, bs), CeilDiv(to, bs)) + if CeilDiv(to, bs) == n then Trailing(bs, ps, n) else {}
  {
    hide RoundUp, CeilDiv;
    CeilBounds(CeilDiv(from, bs), to, bs);
    TrailingStart(bs, ps, n);
  }

  lemma TrailingStart(bs: nat, ps: nat, n: nat)
    requires bs > 0 && ps > 0
    ensures n <= CeilDiv(RoundUp(n * bs, ps), bs)
  {
    var rounded := RoundUp(n * bs, ps);
    CeilFacts(n * bs, ps);
    CeilBounds(n - 1, rounded, bs);
    assert (n - 1) * bs == n * bs - bs;
  }

  /** Group bases are aligned, so a group ends where the next one may begin. */
  lemma MultiplesApart(a: nat, b: nat, ptrBytes: nat, size: nat)
    requires ptrBytes > 0 && size > 0 && a < b && a * ptrBytes % size == 0 && b * ptrBytes % size == 0
    ensures a * ptrBytes + size <= b * ptrBytes
  {
    MulMono(a + 1, b, ptrBytes);
    assert (a + 1) * ptrBytes == a * ptrBytes + ptrBytes;
    var x := a * ptrBytes;
    MultipleFits(x, size, b * ptrBytes);
    DivFacts(x, size);
    assert x == (x / size) * size + x % size;
  }

  lemma GroupsApart(geo: Geometry, g: BatchGroup, h: BatchGroup)
    requires geo.Ok() && geo.GroupFits(g) && geo.GroupFits(h) && g.groupBase < h.groupBase
    ensures geo.Start(g) + geo.groupSize <= geo.Start(h)
    ensures geo.UsedEnd(g) == geo.Start(g) + geo.groupSize < geo.Size()
  {
    hide OnlyFrontPartial, ProperPointers;
    MultiplesApart(g.groupBase, h.groupBase, geo.ptrBytes, geo.groupSize);
  }

  /** Only the last group of a list can mark the pretend blocks. */
  lemma TrailingFromLast(geo: Geometry, g: BatchGroup, h: BatchGroup)
    requires geo.Ok() && geo.GroupFits(g) && geo.GroupFits(h) && g.groupBase < h.groupBase
    ensures !geo.MarksTrailing(g)
  {
    GroupsApart(geo, g, h);
    FreeBlocksInside(geo, h);
    var b :| b in geo.FreeBlocks(h);
    MulMono(b, geo.n - 1, geo.bs);
    CeilBounds(geo.n - 1, geo.UsedEnd(g), geo.bs);
  }

  lemma GroupMarksDisjoint(geo: Geometry, g: BatchGroup, h: BatchGroup)
    requires geo.Ok() && geo.GroupFits(g) && geo.GroupFits(h) && g.groupBase < h.groupBase
    ensures geo.GroupMarks(g) !! geo.GroupMarks(h)
  {
    hide Trailing, BlockSet;
    GroupsApart(geo, g, h);
    TrailingFromLast(geo, g, h);
    FreeBlocksInside(geo, g);
    FreeBlocksInside(geo, h);
    assert forall b | b in Trailing(geo.bs, geo.ps, geo.n) :: geo.n <= b by {
      TrailingBounds(geo);
    }
  }

  lemma TrailingBounds(geo: Geometry)
    requires geo.Ok()
    ensures forall b | b in Trailing(geo.bs, geo.ps, geo.n) :: geo.n <= b
  {
    hide RoundUp, CeilDiv;
  }

  lemma {:induction false} MarksDisjointFrom(geo: Geometry, groups: seq<BatchGroup>, h: BatchGroup)
    requires geo.Ok() && geo.GroupsFit(groups) && geo.GroupFits(h)
    requires forall i | 0 <= i < |groups| :: groups[i].groupBase < h.groupBase
    ensures geo.AllMarks(groups) !! geo.GroupMarks(h)
  {
    hide Geometry.GroupMarks, Geometry.GroupFits;
    if groups == [] {
    } else {
      MarksDisjointFrom(geo, groups[..|groups| - 1], h);
      GroupMarksDisjoint(geo, groups[|groups| - 1], h);
    }
  }

  /** The part of the region a page release looks at: from the first group to the end
      of the last, rounded up to a whole block. */
  function ReleaseEnd(geo: Geometry, last: BatchGroup): nat
    requires geo.bs > 0
  {
    RoundUp(geo.UsedEnd(last), geo.bs)
  }

  lemma ReleaseWindow(geo: Geometry, first: BatchGroup, last: BatchGroup)
    requires geo.Ok() && geo.GroupFits(first) && geo.GroupFits(last) && first.groupBase <= last.groupBase
    ensures geo.Start(first) % geo.ps == 0
    ensures geo.Start(first) <= geo.Start(last) < geo.UsedEnd(last) <= ReleaseEnd(geo, last) <= geo.Size()
    ensures var off := geo.Start(first) / geo.ps;
      && off * geo.ps == geo.Start(first)
      && off + CeilDiv(ReleaseEnd(geo, last) - geo.Start(first), geo.ps) == CeilDiv(ReleaseEnd(geo, last), geo.ps)
      <= CeilDiv(geo.Size(), geo.ps)
    ensures geo.UsedEnd(last) == geo.Size() ==> ReleaseEnd(geo, last) == geo.Size()
  {
    hide RoundUp, CeilDiv;
    AlignedDown(geo.Start(first), geo.groupSize, geo.ps);
    MulMono(first.groupBase, last.groupBase, geo.ptrBytes);
    RoundUpWithin(geo.UsedEnd(last), geo.n, geo.bs);
    WindowPages(geo.ps, geo.Start(first), ReleaseEnd(geo, last), geo.Size());
  }

  lemma RoundUpWithin(x: nat, n: nat, bs: nat)
    requires bs > 0 && x <= n * bs
    ensures x <= RoundUp(x, bs) <= n * bs
  {
    CeilFacts(x, bs);
    CeilBounds(n, x, bs);
    MulMono(CeilDiv(x, bs), n, bs);
  }

  lemma WindowPages(ps: nat, start: nat, end: nat, size: nat)
    requires ps > 0 && start % ps == 0 && start < end <= size
    ensures (start / ps) * ps == start
    ensures start / ps + CeilDiv(end - start, ps) == CeilDiv(end, ps) <= CeilDiv(size, ps)
  {
    assert start == (start / ps) * ps;
    CeilTail(ps, start / ps, end);
    CeilMono(end, size, ps);
  }

  lemma AlignedDown(x: nat, big: nat, small: nat)
    requires big > 0 && small > 0 && x % big == 0 && big % small == 0
    ensures x % small == 0
  {
    var a, b := x / big, big / small;
    assert x == a * big && big == b * small;
    assert a * (b * small) == (a * b) * small;
    AddMulMod(0, a * b, small);
  }

  /** The context was made for a window of pages that holds group `g`. */
  ghost predicate Covers(geo: Geometry, context: PageReleaseContext, first: BatchGroup, g: BatchGroup, last: BatchGroup)
    requires geo.Ok()
  {
    && context.blockSize == geo.bs && context.pageSize == geo.ps && context.numberOfRegions == 1
    && first.groupBase <= g.groupBase <= last.groupBase
    && context.releasePageOffset == geo.Start(first) / geo.ps
    && context.releasePageOffset + context.pagesCount == CeilDiv(ReleaseEnd(geo, last), geo.ps)
  }

  lemma BlockInWindow(ps: nat, off: nat, start: nat, end: nat, x: nat)
    requires ps > 0 && off * ps == start <= x < end
    ensures off <= x / ps < CeilDiv(end, ps)
  {
    DivBounds(off, x, ps);
    CeilFacts(end, ps);
    DivBounds(CeilDiv(end, ps), x, ps);
  }

  lemma GroupInWindow(geo: Geometry, context: PageReleaseContext, first: BatchGroup, g: BatchGroup, last: BatchGroup)
    requires geo.Ok() && geo.GroupFits(first) && geo.GroupFits(g) && geo.GroupFits(last)
    requires Covers(geo, context, first, g, last)
    ensures StartOnPages(geo.bs, geo.ps, context.releasePageOffset,
                         context.releasePageOffset + context.pagesCount, geo.FreeBlocks(g))
    ensures context.RangeFits(geo.n, geo.Start(g), geo.UsedEnd(g))
    ensures geo.MarksTrailing(g) && !geo.TakesRangePath(g) ==>
      context.releasePageOffset + context.pagesCount == CeilDiv(geo.Size(), geo.ps)
  {
    hide RoundUp, CeilDiv, BlockSet, OnlyFrontPartial, ProperPointers;
    var off, end := context.releasePageOffset, ReleaseEnd(geo, last);
    ReleaseWindow(geo, first, last);
    ReleaseWindow(geo, g, g);
    MulMono(first.groupBase, g.groupBase, geo.ptrBytes);
    MulMono(g.groupBase, last.groupBase, geo.ptrBytes);
    FreeBlocksInside(geo, g);
    forall b | b in geo.FreeBlocks(g) ensures off <= FirstPage(geo.bs, geo.ps, b) < off + context.pagesCount {
      BlockInWindow(geo.ps, off, geo.Start(first), end, b * geo.bs);
    }
    var lo := CeilDiv(geo.Start(g), geo.bs);
    CeilFacts(geo.Start(g), geo.bs);
    if lo * geo.bs < geo.UsedEnd(g) {
      BlockInWindow(geo.ps, off, geo.Start(first), end, lo * geo.bs);
    }
    AlignedSum(geo.Start(g), geo.groupSize, geo.ps);
  }

  lemma AlignedSum(x: nat, y: nat, d: nat)
    requires d > 0 && x % d == 0 && y % d == 0
    ensures (x + y) % d == 0
  {
    assert x == (x / d) * d && y == (y / d) * d;
    assert (x / d + y / d) * d == x + y;
    AddMulMod(0, x / d + y / d, d);
  }

  /** The range a group occupies and the branch markFreeBlocks takes for it. */
  method ChooseMarking(geo: Geometry, g: BatchGroup, regionBeg: nat)
    returns (base: nat, usedEnd: nat, byRange: bool, mayContainLastBlockInRegion: bool)
    requires geo.Ok() && geo.Start(g) < geo.Size() && g.batches != []
    ensures base == regionBeg + geo.Start(g) && usedEnd == regionBeg + geo.UsedEnd(g)
    ensures byRange == geo.TakesRangePath(g)
    ensures mayContainLastBlockInRegion == (geo.UsedEnd(g) == geo.Size())
  {
    var allocatedUserEnd := regionBeg + geo.Size();
    base := regionBeg + geo.Start(g);
    var batchGroupEnd := base + geo.groupSize;
    var allocatedGroupSize := if allocatedUserEnd >= batchGroupEnd then geo.groupSize else allocatedUserEnd - base;
    usedEnd := base + allocatedGroupSize;
    mayContainLastBlockInRegion := usedEnd == allocatedUserEnd;
    var blockAlignedWithUsedEnd := (usedEnd - regionBeg) % geo.bs == 0;
    var maxContainedBlocks := allocatedGroupSize / geo.bs;
    if !blockAlignedWithUsedEnd {
      maxContainedBlocks := maxContainedBlocks + 1;
    }
    var numBlocks := (|g.batches| - 1) * geo.max + |g.batches[0].blocks|;
    byRange := numBlocks == maxContainedBlocks;
  }

  /** One group: by range when all its blocks are free, else block by block. */
  method MarkGroup(geo: Geometry, context: PageReleaseContext, g: BatchGroup, regionBeg: nat,
                   ghost first: BatchGroup, ghost last: BatchGroup)
    requires geo.Ok() && context.Valid() && context.pageMap.IsAllocated()
    requires geo.GroupFits(first) && geo.GroupFits(g) && geo.GroupFits(last) && Covers(geo, context, first, g, last)
    requires |context.marked| == 1 && context.marked[0] !! geo.GroupMarks(g)
    modifies context, context.pageMap, context.pageMap.data
    ensures context.Valid() && context.pageMap.IsAllocated()
    ensures context.pageMap.data == old(context.pageMap.data) || fresh(context.pageMap.data)
    ensures context.marked == Mark(old(context.marked), 0, geo.GroupMarks(g))
  {
    hide PageReleaseContext.Valid, PageReleaseContext.RangeFits, RangeBlocks, Trailing, BlockSet, CeilDiv;
    hide StartOnPages, ReleaseEnd, Geometry.TakesRangePath, Geometry.Start, Geometry.UsedEnd;
    var base, usedEnd, byRange, mayContainLastBlockInRegion := ChooseMarking(geo, g, regionBeg);
    SizeOfRegion(geo);
    GroupInWindow(geo, context, first, g, last);
    GroupInRegion(geo, g);
    var size := geo.Size();
    var ok;
    if byRange {
      RangePathIsExact(geo, g);
      ok := context.MarkRangeAsAllCounted(base, usedEnd, regionBeg, 0, size, false);
    } else {
      assert geo.GroupMarks(g) == (if mayContainLastBlockInRegion then Trailing(geo.bs, geo.ps, geo.n) else {})
        + geo.FreeBlocks(g);
      ok := context.MarkFreeBlocksInRegion(g.batches, geo.ptrBytes, 0, size, mayContainLastBlockInRegion, false);
    }
  }

  lemma GroupInRegion(geo: Geometry, g: BatchGroup)
    requires geo.Ok() && geo.GroupFits(g)
    ensures geo.Start(g) < geo.UsedEnd(g) <= geo.Size() && g.batches != []
    ensures ProperPointers(geo.bs, geo.ptrBytes, geo.Size(), Blocks(g.batches))
  {
  }

  lemma SizeOfRegion(geo: Geometry)
    requires geo.Ok()
    ensures geo.Size() > 0 && geo.Size() % geo.bs == 0 && geo.Size() / geo.bs == geo.n
  {
    AddMulDiv(0, geo.n, geo.bs);
    AddMulMod(0, geo.n, geo.bs);
    MulMono(1, geo.n, geo.bs);
  }

  /** Marks the free blocks of all groups in a fresh context; without a buffer for
      the page map nothing is marked. */
  method MarkFreeBlocks(geo: Geometry, groups: seq<BatchGroup>, regionBeg: nat, bufferAvailable: bool)
    returns (context: PageReleaseContext)
    requires geo.Ok() && geo.GroupsFit(groups) && groups != []
    ensures context.Valid() && context.pageMap.IsAllocated() == bufferAvailable
    ensures fresh(context) && fresh(context.pageMap)
    ensures context.pageMap.data != null ==> fresh(context.pageMap.data)
    ensures Covers(geo, context, groups[0], groups[0], groups[|groups| - 1])
    ensures bufferAvailable ==> context.marked[0] == geo.AllMarks(groups)
  {
    hide PageReleaseContext.Valid, Geometry.GroupMarks, Geometry.GroupFits, CeilDiv, ReleaseEnd;
    var releaseBase := regionBeg + geo.Start(groups[0]);
    ghost var first, last := groups[0], groups[|groups| - 1];
    var lastGroupEnd := Min(regionBeg + geo.Start(groups[|groups| - 1]) + geo.groupSize, regionBeg + geo.Size());
    var releaseEnd := RoundUp(lastGroupEnd - regionBeg, geo.bs) + regionBeg;
    LastGroupEnd(geo, last);
    ReleaseWindow(geo, first, last);
    context := new PageReleaseContext(geo.bs, geo.ps, 1, releaseEnd - releaseBase, releaseBase - regionBeg);
    ContextStarts(context);
    var ok := context.EnsurePageMapAllocated(bufferAvailable);
    if !ok {
      return;
    }
    var i := 0;
    while i < |groups|
      invariant i <= |groups|
      invariant fresh(context) && fresh(context.pageMap) && fresh(context.pageMap.data)
      invariant context.Valid() && context.pageMap.IsAllocated() && |context.marked| == 1
      invariant context.marked[0] == geo.AllMarks(groups[..i])
    {
      assert groups[..i + 1][..i] == groups[..i];
      MarksDisjointFrom(geo, groups[..i], groups[i]);
      MarkGroup(geo, context, groups[i], regionBeg, first, last);
      i := i + 1;
    }
    assert groups[..i] == groups;
  }

  lemma LastGroupEnd(geo: Geometry, last: BatchGroup)
    requires geo.Ok() && geo.GroupFits(last)
    ensures Min(geo.Start(last) + geo.groupSize, geo.Size()) == geo.UsedEnd(last)
    ensures ReleaseEnd(geo, last) == RoundUp(geo.UsedEnd(last), geo.bs)
  {
  }

  lemma ContextStarts(context: PageReleaseContext)
    requires context.Valid() && !context.pageMap.IsAllocated()
    ensures |context.marked| == context.numberOfRegions
    ensures context.marked[0] == {}
  {
  }

  /** No block in use touches the page: every real block on it is in `free`. */
  ghost predicate Unused(bs: nat, ps: nat, n: nat, free: set<nat>, p: nat) {
    forall b: nat | b < n && Touches(bs, ps, b, p) :: b in free
  }

  /** What the marks say about a page of the region: no block in use touches it, and
      if the region ends inside it the pretend blocks were marked too. */
  lemma FreeMeansUnused(bs: nat, ps: nat, n: nat, free: set<nat>, trailing: bool, p: nat)
    requires bs > 0 && ps > 0 && p * ps < n * bs
    requires forall b | b in free :: b < n
    ensures var marked := free + if trailing then Trailing(bs, ps, n) else {};
      PageFree(bs, ps, marked, p) <==> Unused(bs, ps, n, free, p) && (n * bs < p * ps + ps ==> trailing)
  {
    hide Trailing;
    var marked := free + if trailing then Trailing(bs, ps, n) else {};
    forall b: nat | n <= b && Touches(bs, ps, b, p)
      ensures b in Trailing(bs, ps, n)
      ensures n * bs < p * ps + ps
    {
      PretendBlock(bs, ps, n, p, b);
    }
    assert forall b: nat | b < n :: b !in Trailing(bs, ps, n) by {
      TrailingAtLeast(bs, ps, n);
    }
    if n * bs < p * ps + ps {
      assert n in BlocksOn(bs, ps, p);
    }
  }

  lemma TrailingAtLeast(bs: nat, ps: nat, n: nat)
    requires bs > 0 && ps > 0
    ensures forall b | b in Trailing(bs, ps, n) :: n <= b
  {
    hide RoundUp, CeilDiv;
  }

  lemma PretendBlock(bs: nat, ps: nat, n: nat, p: nat, b: nat)
    requires bs > 0 && ps > 0 && p * ps < n * bs && n <= b && Touches(bs, ps, b, p)
    ensures b in Trailing(bs, ps, n) && n * bs < p * ps + ps
  {
    var rounded := RoundUp(n * bs, ps);
    MulMono(n, b, bs);
    CeilBounds(p, n * bs, ps);
    MulMono(p + 1, CeilDiv(n * bs, ps), ps);
    assert (p + 1) * ps == p * ps + ps;
    CeilBounds(b, rounded, bs);
  }

  /** A size class whose free list was marked as a whole: a page of the region is
      released if and only if no block in use touches it. */
  lemma WholeRegionExact(bs: nat, ps: nat, n: nat, free: set<nat>, p: nat)
    requires bs > 0 && ps > 0 && p < CeilDiv(n * bs, ps)
    requires forall b | b in free :: b < n
    ensures PageFree(bs, ps, Trailing(bs, ps, n) + free, p) <==> Unused(bs, ps, n, free, p)
  {
    hide Trailing, PageFree;
    CeilBounds(p, n * bs, ps);
    FreeMeansUnused(bs, ps, n, free, true, p);
    assert Trailing(bs, ps, n) + free == free + Trailing(bs, ps, n);
  }

  /** markFreeBlocksInRegion and releaseFreeMemoryToOS on a whole region: the ranges handed
      to the operating system are ascending, disjoint and maximal, and cover exactly the
      pages that no block in use touches. */
  method ReleaseRegion(bs: nat, ps: nat, ptrBytes: nat, n: nat, freeList: seq<TransferBatch>, bufferAvailable: bool)
    returns (released: seq<(nat, nat)>, ghost pages: seq<PageRange>)
    requires bs > 0 && 0 < ps < WORD_LIMIT && n > 0
    requires ProperPointers(bs, ptrBytes, n * bs, Blocks(freeList))
    ensures !bufferAvailable ==> released == []
    ensures |released| == |pages| && Separated(pages)
    ensures forall k | 0 <= k < |pages| :: released[k] == (pages[k].from * ps, pages[k].to * ps)
    ensures bufferAvailable ==> forall p: nat ::
      InSome(pages, p) <==> p < CeilDiv(n * bs, ps) && Unused(bs, ps, n, BlockSet(bs, ptrBytes, Blocks(freeList)), p)
  {
    hide PageReleaseContext.Valid, CeilDiv, PageFree, BlockSet, Trailing, ProperPointers, Unused;
    RegionOfBlocks(bs, n);
    var context := new PageReleaseContext(bs, ps, 1, n * bs, 0);
    RegionMayBeMarked(bs, ps, ptrBytes, n, Blocks(freeList));
    ContextStarts(context);
    var ok := context.MarkFreeBlocksInRegion(freeList, ptrBytes, 0, n * bs, true, bufferAvailable);
    if !ok {
      released, pages := [], [];
      return;
    }
    ContextHasOneRegion(context);
    ghost var marked := context.marked;
    released, pages := ReleaseFreeMemoryToOS(context, [false]);
    WholeRegionRuns(bs, ps, n, BlockSet(bs, ptrBytes, Blocks(freeList)), marked, pages);
  }

  lemma RegionOfBlocks(bs: nat, n: nat)
    requires bs > 0 && n > 0
    ensures n * bs > 0 && n * bs % bs == 0 && n * bs / bs == n
  {
    MulMono(1, n, bs);
    AddMulMod(0, n, bs);
    DivUnique(n * bs, bs, n);
  }

  lemma RegionMayBeMarked(bs: nat, ps: nat, ptrBytes: nat, n: nat, ptrs: seq<nat>)
    requires bs > 0 && ps > 0 && n > 0 && ProperPointers(bs, ptrBytes, n * bs, ptrs)
    ensures forall b | b in BlockSet(bs, ptrBytes, ptrs) :: b < n
    ensures StartOnPages(bs, ps, 0, CeilDiv(n * bs, ps), BlockSet(bs, ptrBytes, ptrs))
    ensures BlockSet(bs, ptrBytes, ptrs) !! Trailing(bs, ps, n)
  {
    RegionOfBlocks(bs, n);
    forall b | b in BlockSet(bs, ptrBytes, ptrs) ensures b < n && b * bs / ps < CeilDiv(n * bs, ps) {
      var x :| x in ptrs && b == BlockOf(bs, ptrBytes, x);
      PointerIsBlock(bs, ptrBytes, x);
      MulCancel(b, n, bs);
      DivBounds(CeilDiv(n * bs, ps), b * bs, ps);
      CeilFacts(n * bs, ps);
    }
    TrailingAtLeast(bs, ps, n);
  }

  lemma WholeRegionRuns(bs: nat, ps: nat, n: nat, free: set<nat>, marked: seq<set<nat>>, pages: seq<PageRange>)
    requires bs > 0 && ps > 0 && |marked| == 1 && marked[0] == Trailing(bs, ps, n) + free
    requires forall b | b in free :: b < n
    requires MaximalRuns(Decisions(bs, ps, 0, CeilDiv(n * bs, ps), marked, [false]), pages)
    ensures Separated(pages)
    ensures forall p: nat :: InSome(pages, p) <==> p < CeilDiv(n * bs, ps) && Unused(bs, ps, n, free, p)
  {
    hide Trailing, CeilDiv, PageFree, Unused, Decisions, InSome;
    OneRegion(bs, ps, 0, CeilDiv(n * bs, ps), marked);
    forall p: nat ensures InSome(pages, p) <==> p < CeilDiv(n * bs, ps) && Unused(bs, ps, n, free, p) {
      if p < CeilDiv(n * bs, ps) {
        WholeRegionExact(bs, ps, n, free, p);
      }
    }
  }

  /** The groups' marks: their free blocks, and the pretend blocks iff the last group
      marks them. */
  lemma {:induction false} AllMarksAre(geo: Geometry, groups: seq<BatchGroup>)
    requires geo.Ok() && geo.GroupsFit(groups)
    ensures geo.AllMarks(groups) == geo.AllFreeBlocks(groups)
      + if groups != [] && geo.MarksTrailing(groups[|groups| - 1]) then Trailing(geo.bs, geo.ps, geo.n) else {}
  {
    hide Trailing, Geometry.FreeBlocks, Geometry.MarksTrailing, Geometry.GroupFits;
    hide Geometry.Start, Geometry.UsedEnd, Geometry.Size, Geometry.TakesRangePath;
    if groups == [] {
    } else {
      var k := |groups| - 1;
      AllMarksAre(geo, groups[..k]);
      if k > 0 {
        TrailingFromLast(geo, groups[k - 1], groups[k]);
      }
    }
  }

  lemma {:induction false} FreeBlocksInRegion(geo: Geometry, groups: seq<BatchGroup>)
    requires geo.Ok() && geo.GroupsFit(groups)
    ensures forall b | b in geo.AllFreeBlocks(groups) :: b < geo.n
  {
    hide Geometry.FreeBlocks, Geometry.GroupFits;
    if groups == [] {
    } else {
      FreeBlocksInRegion(geo, groups[..|groups| - 1]);
      FreeBlocksInside(geo, groups[|groups| - 1]);
    }
  }

  /** A page of the region that a release of `groups` gives back: no block outside
      the groups' free blocks touches it, and if the region ends inside it, the
      pretend blocks behind the region were marked. */
  ghost predicate Releasable(geo: Geometry, groups: seq<BatchGroup>, p: nat)
    requires geo.Ok() && geo.GroupsFit(groups) && groups != []
  {
    && Unused(geo.bs, geo.ps, geo.n, geo.AllFreeBlocks(groups), p)
    && (geo.Size() < p * geo.ps + geo.ps ==> geo.MarksTrailing(groups[|groups| - 1]))
  }

  /** Which pages of the region the marks free, exactly. */
  lemma ReleasedExactly(geo: Geometry, groups: seq<BatchGroup>, p: nat)
    requires geo.Ok() && geo.GroupsFit(groups) && groups != [] && p < CeilDiv(geo.Size(), geo.ps)
    ensures PageFree(geo.bs, geo.ps, geo.AllMarks(groups), p) <==> Releasable(geo, groups, p)
  {
    hide Trailing, PageFree, Unused, Geometry.MarksTrailing;
    AllMarksAre(geo, groups);
    FreeBlocksInRegion(geo, groups);
    CeilBounds(p, geo.Size(), geo.ps);
    FreeMeansUnused(geo.bs, geo.ps, geo.n, geo.AllFreeBlocks(groups),
                    geo.MarksTrailing(groups[|groups| - 1]), p);
  }

  /** Can the page the region ends on be withheld although no block in use touches it?
      Only if the region ends inside a page and the last group neither ends with the
      region nor is entirely free. */
  predicate MayWithholdLastPage(geo: Geometry, last: BatchGroup)
    requires geo.bs > 0 && geo.ps > 0 && geo.Start(last) < geo.Size() && last.batches != []
  {
    geo.Size() % geo.ps != 0 && !geo.MarksTrailing(last)
  }

  /** No block in use touches the page, and it is not withheld. */
  ghost predicate Freed(geo: Geometry, groups: seq<BatchGroup>, p: nat)
    requires geo.Ok() && geo.GroupsFit(groups) && groups != []
  {
    && Unused(geo.bs, geo.ps, geo.n, geo.AllFreeBlocks(groups), p)
    && !(p == geo.Size() / geo.ps && MayWithholdLastPage(geo, groups[|groups| - 1]))
  }

  /** The marks are exact for every page of the region, except that the last page is
      withheld in just the case above. */
  lemma ExactUnlessWithheld(geo: Geometry, groups: seq<BatchGroup>, p: nat)
    requires geo.Ok() && geo.GroupsFit(groups) && groups != [] && p < CeilDiv(geo.Size(), geo.ps)
    ensures PageFree(geo.bs, geo.ps, geo.AllMarks(groups), p) <==> Freed(geo, groups, p)
    ensures Releasable(geo, groups, p) <==> Freed(geo, groups, p)
  {
    hide PageFree, Unused, Geometry.MarksTrailing, Geometry.AllMarks, Geometry.AllFreeBlocks;
    ReleasedExactly(geo, groups, p);
    EndsInside(geo.Size(), geo.ps, p);
  }

  /** No page is withheld if the region's last block does not straddle the end of a group. */
  lemma NothingWithheld(geo: Geometry, groups: seq<BatchGroup>, p: nat)
    requires geo.Ok() && geo.GroupsFit(groups) && groups != [] && p < CeilDiv(geo.Size(), geo.ps)
    requires forall i: nat :: !EndsAcross(geo.bs, geo.n, geo.groupSize, i)
    ensures Freed(geo, groups, p) <==> Unused(geo.bs, geo.ps, geo.n, geo.AllFreeBlocks(groups), p)
  {
    hide Geometry.AllFreeBlocks, Geometry.FreeBlocks, Geometry.GroupFits, Geometry.MarksTrailing, EndsAcross;
    if Unused(geo.bs, geo.ps, geo.n, geo.AllFreeBlocks(groups), p) && p == geo.Size() / geo.ps
       && geo.Size() % geo.ps != 0 {
      LastBlockOnLastPage(geo, p);
      var k := FreeBlockOfSome(geo, groups, geo.n - 1);
      LastBlockInLastGroup(geo, groups, k);
    }
  }

  lemma LastBlockOnLastPage(geo: Geometry, p: nat)
    requires geo.Ok() && p == geo.Size() / geo.ps && geo.Size() % geo.ps != 0
    ensures Touches(geo.bs, geo.ps, geo.n - 1, p)
  {
    DivFacts(geo.Size(), geo.ps);
    assert geo.Size() == p * geo.ps + geo.Size() % geo.ps;
    assert (p + 1) * geo.ps == p * geo.ps + geo.ps;
    assert (geo.n - 1) * geo.bs == geo.Size() - geo.bs;
  }

  /** If the region's last block is free and ends in the group it starts in, that group is
      the last one and ends with the region. */
  lemma LastBlockInLastGroup(geo: Geometry, groups: seq<BatchGroup>, k: nat)
    requires geo.Ok() && geo.GroupsFit(groups) && k < |groups| && geo.n - 1 in geo.FreeBlocks(groups[k])
    requires forall i: nat :: !EndsAcross(geo.bs, geo.n, geo.groupSize, i)
    ensures geo.MarksTrailing(groups[|groups| - 1])
  {
    hide Geometry.FreeBlocks, Geometry.GroupFits, Geometry.TakesRangePath, Geometry.Start, EndsAcross;
    var g, last := groups[k], groups[|groups| - 1];
    assert geo.GroupFits(g) && geo.GroupFits(last);
    FreeBlocksInside(geo, g);
    FitsStart(geo, g);
    FitsStart(geo, last);
    GroupsInOrder(geo, groups, k);
    StartsInOrder(geo, g, last);
    RegionEndsInGroup(geo, geo.Start(g));
    SameMultiple(geo.Start(g), geo.Start(last), geo.groupSize);
    CeilUnique(geo.Size(), geo.bs, geo.n);
  }

  lemma StartsInOrder(geo: Geometry, g: BatchGroup, h: BatchGroup)
    requires g.groupBase <= h.groupBase
    ensures geo.Start(g) <= geo.Start(h)
  {
    MulMono(g.groupBase, h.groupBase, geo.ptrBytes);
  }

  lemma RegionEndsInGroup(geo: Geometry, start: nat)
    requires geo.Ok() && start % geo.groupSize == 0 && start <= (geo.n - 1) * geo.bs < start + geo.groupSize
    requires forall i: nat :: !EndsAcross(geo.bs, geo.n, geo.groupSize, i)
    ensures start < geo.Size() <= start + geo.groupSize && geo.Size() == (geo.n - 1) * geo.bs + geo.bs
  {
    var q := start / geo.groupSize;
    assert start == q * geo.groupSize && (q + 1) * geo.groupSize == q * geo.groupSize + geo.groupSize;
    assert !EndsAcross(geo.bs, geo.n, geo.groupSize, q + 1);
    assert geo.Size() == (geo.n - 1) * geo.bs + geo.bs;
  }

  lemma SameMultiple(a: nat, b: nat, d: nat)
    requires d > 0 && a % d == 0 && b % d == 0 && a <= b < a + d
    ensures a == b
  {
    var q, r := a / d, b / d;
    assert a == q * d && b == r * d && (q + 1) * d == q * d + d;
    MulCancel(r, q + 1, d);
    MulMono(r, q, d);
  }

  lemma FitsStart(geo: Geometry, g: BatchGroup)
    requires geo.Ok() && geo.GroupFits(g)
    ensures geo.Start(g) % geo.groupSize == 0 && geo.Start(g) < geo.Size() && g.batches != []
  {
  }

  lemma {:induction false} FreeBlockOfSome(geo: Geometry, groups: seq<BatchGroup>, b: nat) returns (k: nat)
    requires geo.Ok() && geo.GroupsFit(groups) && b in geo.AllFreeBlocks(groups)
    ensures k < |groups| && b in geo.FreeBlocks(groups[k])
  {
    hide Geometry.FreeBlocks, Geometry.GroupFits;
    k := |groups| - 1;
    if b !in geo.FreeBlocks(groups[k]) {
      k := FreeBlockOfSome(geo, groups[..k], b);
    }
  }

  /** A page that no block in use touches lies in the window: its first block is one of
      the groups' free blocks. */
  lemma UnusedInWindow(geo: Geometry, groups: seq<BatchGroup>, p: nat)
    requires geo.Ok() && geo.GroupsFit(groups) && groups != [] && p < CeilDiv(geo.Size(), geo.ps)
    requires Unused(geo.bs, geo.ps, geo.n, geo.AllFreeBlocks(groups), p)
    ensures WindowStart(geo, groups) <= p < WindowEnd(geo, groups)
  {
    hide Geometry.FreeBlocks, Geometry.AllFreeBlocks, Geometry.GroupFits, CeilDiv;
    var b := FirstBlockOn(geo.bs, geo.ps, geo.n, p);
    var k := FreeBlockOfSome(geo, groups, b);
    assert geo.GroupFits(groups[k]) && geo.GroupFits(groups[0]) && geo.GroupFits(groups[|groups| - 1]);
    FreeBlocksInside(geo, groups[k]);
    GroupsInOrder(geo, groups, k);
    MulMono(groups[0].groupBase, groups[k].groupBase, geo.ptrBytes);
    MulMono(groups[k].groupBase, groups[|groups| - 1].groupBase, geo.ptrBytes);
    BlockEndsBelow(b, geo.UsedEnd(groups[|groups| - 1]), geo.bs);
    DivBounds(geo.Start(groups[0]) / geo.ps, p * geo.ps, geo.ps);
    DivFacts(geo.Start(groups[0]), geo.ps);
    CeilBounds(p, ReleaseEnd(geo, groups[|groups| - 1]), geo.ps);
    MulDiv(p, geo.ps);
  }

  lemma GroupsInOrder(geo: Geometry, groups: seq<BatchGroup>, k: nat)
    requires geo.Ok() && geo.GroupsFit(groups) && k < |groups|
    ensures groups[0].groupBase <= groups[k].groupBase <= groups[|groups| - 1].groupBase
  {
    hide Geometry.GroupFits;
  }

  lemma MulDiv(p: nat, d: nat)
    requires d > 0
    ensures p * d / d == p
  {
    DivUnique(p * d, d, p);
  }

  lemma FirstBlockOn(bs: nat, ps: nat, n: nat, p: nat) returns (b: nat)
    requires bs > 0 && ps > 0 && p < CeilDiv(n * bs, ps)
    ensures b < n && Touches(bs, ps, b, p) && b * bs <= p * ps < b * bs + bs
  {
    hide CeilDiv;
    b := p * ps / bs;
    CeilBounds(p, n * bs, ps);
    DivFacts(p * ps, bs);
    assert (b + 1) * bs == b * bs + bs;
    MulCancel(b, n, bs);
  }

  lemma BlockEndsBelow(b: nat, x: nat, bs: nat)
    requires bs > 0 && b * bs < x
    ensures b * bs + bs <= RoundUp(x, bs)
  {
    CeilBounds(b, x, bs);
    MulMono(b + 1, CeilDiv(x, bs), bs);
    assert (b + 1) * bs == b * bs + bs;
  }

  lemma EndsInside(size: nat, ps: nat, p: nat)
    requires ps > 0 && p < CeilDiv(size, ps)
    ensures size < p * ps + ps <==> p == size / ps && size % ps != 0
  {
    CeilBounds(p, size, ps);
    DivFacts(size, ps);
    assert size == (size / ps) * ps + size % ps;
    assert (p + 1) * ps == p * ps + ps;
    if size < p * ps + ps {
      DivUnique(size, ps, p);
    }
  }

  /** Pages [WindowStart, WindowEnd) are the ones a release of `groups` looks at. */
  function WindowStart(geo: Geometry, groups: seq<BatchGroup>): nat
    requires geo.ps > 0 && groups != []
  {
    geo.Start(groups[0]) / geo.ps
  }

  function WindowEnd(geo: Geometry, groups: seq<BatchGroup>): nat
    requires geo.bs > 0 && geo.ps > 0 && groups != []
  {
    CeilDiv(ReleaseEnd(geo, groups[|groups| - 1]), geo.ps)
  }

  /** Steps 3 and 4 of a page release on the groups taken off the free list: the addresses
      handed to the operating system are ascending, disjoint and maximal ranges of pages from
      the first group's on, and cover exactly the pages of the region that no block in use
      touches, but for a withheld last page. */
  method ReleaseGroups(geo: Geometry, groups: seq<BatchGroup>, regionBeg: nat, bufferAvailable: bool)
    returns (released: seq<(nat, nat)>, ghost pages: seq<PageRange>)
    requires geo.Ok() && geo.GroupsFit(groups) && groups != []
    ensures !bufferAvailable ==> released == []
    ensures PagesAt(released, regionBeg, geo.ps, WindowStart(geo, groups), pages)
    ensures forall q: nat | InSome(pages, q) :: WindowStart(geo, groups) + q < CeilDiv(geo.Size(), geo.ps)
    ensures bufferAvailable ==> forall p: nat | p < CeilDiv(geo.Size(), geo.ps) ::
      InSome(pages, p - WindowStart(geo, groups)) <==> Freed(geo, groups, p)
    ensures bufferAvailable ==> forall p: nat | p < CeilDiv(geo.Size(), geo.ps) ::
      GivenBack(released, regionBeg, geo.ps, p) <==> Freed(geo, groups, p)
  {
    hide PageReleaseContext.Valid, Geometry.GroupFits, CeilDiv, ReleaseEnd, PageFree, Releasable;
    var context := MarkFreeBlocks(geo, groups, regionBeg, bufferAvailable);
    if !bufferAvailable {
      released, pages := [], [];
      return;
    }
    ContextHasOneRegion(context);
    ghost var off, n, marked := context.releasePageOffset, context.pagesCount, context.marked;
    var ranges;
    ranges, pages := ReleaseFreeMemoryToOS(context, [false]);
    released := Recorded(regionBeg, context.releasePageOffset * context.pageSize, ranges);
    RunsOfWindow(geo, groups, off, n, marked, pages);
    RunsOfRegion(geo, groups, pages);
    RecordedPages(regionBeg, geo.ps, WindowStart(geo, groups), ranges, pages);
    GivenBackExactly(geo, groups, regionBeg, released, pages);
  }

  lemma GivenBackExactly(geo: Geometry, groups: seq<BatchGroup>, regionBeg: nat, released: seq<(nat, nat)>,
                         pages: seq<PageRange>)
    requires geo.Ok() && geo.GroupsFit(groups) && groups != []
    requires PagesAt(released, regionBeg, geo.ps, WindowStart(geo, groups), pages)
    requires forall p: nat | p < CeilDiv(geo.Size(), geo.ps) ::
      InSome(pages, p - WindowStart(geo, groups)) <==> Freed(geo, groups, p)
    ensures forall p: nat | p < CeilDiv(geo.Size(), geo.ps) ::
      GivenBack(released, regionBeg, geo.ps, p) <==> Freed(geo, groups, p)
  {
    hide Geometry.GroupsFit, CeilDiv, Freed, GivenBack, InSome, PagesAt;
    forall p: nat | p < CeilDiv(geo.Size(), geo.ps)
      ensures GivenBack(released, regionBeg, geo.ps, p) <==> Freed(geo, groups, p)
    {
      GivenBackIff(released, regionBeg, geo.ps, WindowStart(geo, groups), pages, p);
    }
  }

  lemma RunsOfRegion(geo: Geometry, groups: seq<BatchGroup>, pages: seq<PageRange>)
    requires geo.Ok() && geo.GroupsFit(groups) && groups != []
    requires forall q: nat :: InSome(pages, q) <==>
      WindowStart(geo, groups) + q < WindowEnd(geo, groups) && Releasable(geo, groups, WindowStart(geo, groups) + q)
    ensures forall q: nat | InSome(pages, q) :: WindowStart(geo, groups) + q < CeilDiv(geo.Size(), geo.ps)
    ensures forall p: nat | p < CeilDiv(geo.Size(), geo.ps) ::
      InSome(pages, p - WindowStart(geo, groups)) <==> Freed(geo, groups, p)
  {
    hide Geometry.GroupFits, CeilDiv, Releasable, ReleaseEnd, Unused, Geometry.AllFreeBlocks;
    ReleaseWindow(geo, groups[0], groups[|groups| - 1]);
    forall p: nat | p < CeilDiv(geo.Size(), geo.ps)
      ensures InSome(pages, p - WindowStart(geo, groups)) <==> Freed(geo, groups, p)
    {
      ExactUnlessWithheld(geo, groups, p);
      var q := p - WindowStart(geo, groups);
      if Freed(geo, groups, p) {
        UnusedInWindow(geo, groups, p);
        var given := InSome(pages, q as nat);
      } else if q >= 0 {
        var given := InSome(pages, q as nat);
      }
    }
  }

  lemma RunsOfWindow(geo: Geometry, groups: seq<BatchGroup>, off: nat, n: nat, marked: seq<set<nat>>,
                     pages: seq<PageRange>)
    requires geo.Ok() && geo.GroupsFit(groups) && groups != []
    requires |marked| == 1 && marked[0] == geo.AllMarks(groups)
    requires off == WindowStart(geo, groups) && off + n == WindowEnd(geo, groups)
    requires MaximalRuns(Decisions(geo.bs, geo.ps, off, n, marked, [false]), pages)
    ensures forall q: nat :: InSome(pages, q) <==>
      off + q < WindowEnd(geo, groups) && Releasable(geo, groups, off + q)
  {
    hide Geometry.GroupFits, CeilDiv, PageFree, Releasable, Decisions, ReleaseEnd, InSome;
    OneRegion(geo.bs, geo.ps, off, n, marked);
    ReleaseWindow(geo, groups[0], groups[|groups| - 1]);
    forall q: nat
      ensures InSome(pages, q) <==> off + q < WindowEnd(geo, groups) && Releasable(geo, groups, off + q)
    {
      if q < n {
        ReleasedExactly(geo, groups, off + q);
      }
    }
  }

  lemma ContextHasOneRegion(context: PageReleaseContext)
    requires context.Valid() && context.numberOfRegions == 1
    ensures |context.marked| == 1
  {
  }

  lemma OneRegion(bs: nat, ps: nat, off: nat, n: nat, marked: seq<set<nat>>)
    requires bs > 0 && |marked| == 1
    ensures var d := Decisions(bs, ps, off, n, marked, [false]);
      |d| == n && forall q | 0 <= q < n :: d[q] == PageFree(bs, ps, marked[0], off + q)
  {
    hide PageFree;
    assert marked[..0] == [] && [false][..0] == [];
    assert Decisions(bs, ps, off, n, marked[..0], [false][..0]) == [];
  }

  /** Completeness can fail on the region's last page.  Here 64 blocks of 4112 bytes
      fill a 256 KiB group so that the last one straddles the group's end; it is the
      only free block.  No block in use touches page 64, where the region ends, yet
      the page is kept: the pretend blocks behind the region are not marked, because
      the group neither ends with the region nor is entirely free. */
  lemma LastPageKeptThoughUnused()
    ensures var geo := Geometry(4112, 4096, 262144, 16, 64, 8);
      var groups := [BatchGroup(0, 0, 0, [TransferBatch(16, [16191])])];
      && geo.Ok() && geo.GroupsFit(groups)
      && WindowStart(geo, groups) <= 64 < WindowEnd(geo, groups)
      && Unused(geo.bs, geo.ps, geo.n, geo.AllFreeBlocks(groups), 64)
      && !Releasable(geo, groups, 64)
  {
    var geo := Geometry(4112, 4096, 262144, 16, 64, 8);
    var batches := [TransferBatch(16, [16191])];
    var g := BatchGroup(0, 0, 0, batches);
    assert Blocks(batches[1..]) == [];
    assert Blocks(batches) == [16191];
    assert geo.FreeBlocks(g) == {63} by {
      assert BlockOf(4112, 16, 16191) == 63;
      assert 16191 in Blocks(batches);
    }
    assert [g][..0] == [];
    assert geo.AllFreeBlocks([g]) == geo.AllFreeBlocks([g][..0]) + geo.FreeBlocks(g) == {63};
    assert geo.MaxContainedBlocks(g) == 64 && CountByShape(batches, 8) == 1;
    assert geo.UsedEnd(g) == 262144 && geo.Size() == 263168;
  }
}

/** The page-release engine of release.h: count the free blocks of each page in a
    packed page map, decide which pages no other block touches, and hand maximal
    page ranges to a recorder. */
module PageRelease {
  import opened Arithmetic
  import opened BlockGrid
  import opened PageMarks
  import opened PackedCounters
  import opened FreeListTypes
  import opened PageRanges
  import opened Sequences

  /** Every counter of a row is right for the marked blocks; counter `j` stands for
      page `off + j`. */
  ghost predicate RowOk(bs: nat, ps: nat, mask: nat, off: nat, marked: set<nat>, row: seq<nat>)
    requires bs > 0
  {
    forall j: nat | j < |row| :: CounterOk(bs, ps, mask, marked, off + j, row[j])
  }

  /** The pretend blocks after a region of `n` blocks, up to its last page's end. */
  function Trailing(bs: nat, ps: nat, n: nat): set<nat>
    requires bs > 0 && ps > 0
  {
    Interval(n, CeilDiv(RoundUp(n * bs, ps), bs))
  }

  /** The blocks that range marking stands for: those starting in [from, to), and
      the pretend ones when the region's last block is among them. */
  function RangeBlocks(bs: nat, ps: nat, n: nat, from: nat, to: nat): set<nat>
    requires bs > 0 && ps > 0
  {
    if CeilDiv(from, bs) * bs < to
    then Interval(CeilDiv(from, bs), CeilDiv(RangeEnd(bs, ps, n, to), bs)) else {}
  }

  /** Where the marked blocks end: the range's end, or the end of the region's last
      page when the region's last block starts in the range. */
  function RangeEnd(bs: nat, ps: nat, n: nat, to: nat): nat
    requires bs > 0 && ps > 0
  {
    if CeilDiv(to, bs) == n then RoundUp(n * bs, ps) else to
  }

  function FirstPage(bs: nat, ps: nat, b: nat): nat
    requires ps > 0
  {
    b * bs / ps
  }

  function LastPage(bs: nat, ps: nat, b: nat): nat
    requires bs > 0 && ps > 0
  {
    (b * bs + bs - 1) / ps
  }

  lemma MarkBlockOnPage(bs: nat, ps: nat, mask: nat, marked: set<nat>, b: nat, p: nat, c: nat)
    requires bs > 0 && ps > 0 && FullPagesBlockCountMax(bs, ps) <= mask
    requires CounterOk(bs, ps, mask, marked, p, c) && b !in marked
    ensures FirstPage(bs, ps, b) <= LastPage(bs, ps, b)
    ensures var on := FirstPage(bs, ps, b) <= p <= LastPage(bs, ps, b);
      && (on ==> c < mask)
      && CounterOk(bs, ps, mask, marked + {b}, p, c + if on then 1 else 0)
  {
    TouchedPages(bs, ps, b, p);
    if b in BlocksOn(bs, ps, p) {
      assert {b} * BlocksOn(bs, ps, p) == {b};
      CounterAdd(bs, ps, mask, marked, {b}, p, c);
    } else {
      CounterUntouched(bs, ps, mask, marked, {b}, p, c);
    }
  }

  /** Marking one new block: the counters of the pages it touches go up by one. */
  lemma MarkBlock(bs: nat, ps: nat, mask: nat, off: nat, marked: set<nat>, row: seq<nat>, b: nat,
                  from: nat, to: nat)
    requires bs > 0 && ps > 0 && FullPagesBlockCountMax(bs, ps) <= mask
    requires RowOk(bs, ps, mask, off, marked, row) && b !in marked
    requires off + from == FirstPage(bs, ps, b) && off + to == LastPage(bs, ps, b)
    ensures forall j | from <= j <= to && j < |row| :: row[j] < mask
    ensures RowOk(bs, ps, mask, off, marked + {b}, AddRange(row, from, to))
  {
    hide CounterOk, FirstPage, LastPage;
    forall j: nat | j < |row|
      ensures from <= j <= to ==> row[j] < mask
      ensures CounterOk(bs, ps, mask, marked + {b}, off + j, AddRange(row, from, to)[j])
    {
      MarkBlockOnPage(bs, ps, mask, marked, b, off + j, row[j]);
    }
  }

  /** Blocks of an interval on a page that starts at or after the interval's first
      page. */
  lemma IntervalOnPage(bs: nat, ps: nat, lo: nat, hi: nat, p: nat)
    requires bs > 0 && ps > 0
    ensures Interval(lo, hi) * BlocksOn(bs, ps, p)
      == Interval(Max(lo, FirstBlock(bs, ps, p)), Min(hi, EndBlock(bs, ps, p)))
  {
    forall b: nat
      ensures b in BlocksOn(bs, ps, p) <==> FirstBlock(bs, ps, p) <= b < EndBlock(bs, ps, p)
    {
      TouchesIff(bs, ps, b, p);
    }
  }

  /** What the interval of blocks from `lo` to the end of page-aligned `end` puts on
      each page: nothing before its first page, ... */
  lemma PagesBefore(bs: nat, ps: nat, lo: nat, hi: nat, p: nat)
    requires bs > 0 && ps > 0 && p < FirstPage(bs, ps, lo)
    ensures Interval(lo, hi) !! BlocksOn(bs, ps, p)
  {
    forall b | b in BlocksOn(bs, ps, p) ensures b < lo {
      if lo <= b {
        BlockAfterPage(bs, ps, lo, p, b);
      }
    }
  }

  lemma BlockAfterPage(bs: nat, ps: nat, lo: nat, p: nat, b: nat)
    requires bs > 0 && ps > 0 && p < FirstPage(bs, ps, lo) && lo <= b
    ensures !Touches(bs, ps, b, p)
  {
    DivBounds(p + 1, lo * bs, ps);
    assert (p + 1) * ps == p * ps + ps;
    MulMono(lo, b, bs);
  }

  /** ... on the first page the blocks that start there, ... */
  lemma PageFirst(bs: nat, ps: nat, lo: nat, end: nat)
    requires bs > 0 && ps > 0 && end % ps == 0 && lo * bs < end
    ensures var f0 := FirstPage(bs, ps, lo);
      && lo * bs < f0 * ps + ps
      && MarkedOn(bs, ps, Interval(lo, CeilDiv(end, bs)), f0) == CeilDiv(f0 * ps + ps - lo * bs, bs) > 0
  {
    var f0, hi := FirstPage(bs, ps, lo), CeilDiv(end, bs);
    MultipleFits(lo * bs, ps, end);
    PageFirstCount(bs, ps, lo, hi, f0, end);
  }

  lemma PageFirstCount(bs: nat, ps: nat, lo: nat, hi: nat, f0: nat, end: nat)
    requires bs > 0 && ps > 0 && f0 * ps <= lo * bs < f0 * ps + ps <= end
    requires hi == CeilDiv(end, bs)
    ensures MarkedOn(bs, ps, Interval(lo, hi), f0) == CeilDiv(f0 * ps + ps - lo * bs, bs) > 0
  {
    hide MarkedOn, FirstBlock, EndBlock, CeilDiv;
    FirstPageBlocks(bs, ps, lo, hi, f0, end);
    CeilTail(bs, lo, f0 * ps + ps);
    CountFrom(bs, ps, lo, hi, f0);
  }

  lemma CountFrom(bs: nat, ps: nat, lo: nat, hi: nat, p: nat)
    requires bs > 0 && ps > 0 && FirstBlock(bs, ps, p) <= lo < EndBlock(bs, ps, p) <= hi
    ensures MarkedOn(bs, ps, Interval(lo, hi), p) == EndBlock(bs, ps, p) - lo
  {
    hide FirstBlock, EndBlock, BlocksOn;
    IntervalOnPage(bs, ps, lo, hi, p);
    IntervalSize(lo, EndBlock(bs, ps, p));
  }

  lemma FirstPageBlocks(bs: nat, ps: nat, lo: nat, hi: nat, f0: nat, end: nat)
    requires bs > 0 && ps > 0 && f0 * ps <= lo * bs < f0 * ps + ps <= end
    requires hi == CeilDiv(end, bs)
    ensures FirstBlock(bs, ps, f0) <= lo && EndBlock(bs, ps, f0) <= hi
    ensures EndBlock(bs, ps, f0) == CeilDiv(f0 * ps + ps, bs)
  {
    CeilMono(f0 * ps + ps, end, bs);
    FirstNotAfter(f0 * ps, lo, bs);
  }

  lemma CeilMono(x: nat, y: nat, d: nat)
    requires d > 0 && x <= y
    ensures CeilDiv(x, d) <= CeilDiv(y, d)
  {
    CeilFacts(y, d);
    CeilBounds(CeilDiv(y, d), x, d);
  }

  lemma FirstNotAfter(x: nat, lo: nat, bs: nat)
    requires bs > 0 && x <= lo * bs
    ensures x / bs <= lo
  {
    assert (lo + 1) * bs == lo * bs + bs;
    DivBounds(lo + 1, x, bs);
  }

  /** ... every block of each page that starts at or after the first block and lies
      before `end`, ... */
  lemma PagesInside(bs: nat, ps: nat, lo: nat, end: nat, p: nat)
    requires bs > 0 && ps > 0 && lo * bs <= p * ps && p * ps + ps <= end
    ensures PageFree(bs, ps, Interval(lo, CeilDiv(end, bs)), p)
  {
    var hi := CeilDiv(end, bs);
    CeilFacts(end, bs);
    CeilBounds(hi, p * ps + ps, bs);
    DivBounds(lo, p * ps, bs);
    forall b | b in BlocksOn(bs, ps, p) ensures lo <= b < hi {
      TouchesIff(bs, ps, b, p);
    }
  }

  /** ... and past `end` only the block that straddles it. */
  lemma PagesAfter(bs: nat, ps: nat, lo: nat, end: nat, p: nat)
    requires bs > 0 && ps > 0 && lo * bs < end <= p * ps
    ensures var hi := CeilDiv(end, bs); var s := Interval(lo, hi);
      && hi > 0
      && (p <= LastPage(bs, ps, hi - 1) ==> s * BlocksOn(bs, ps, p) == {hi - 1})
      && (LastPage(bs, ps, hi - 1) < p ==> s !! BlocksOn(bs, ps, p))
  {
    var hi := CeilDiv(end, bs);
    CeilFacts(end, bs);
    CeilBounds(0, end, bs);
    CeilBounds(lo, end, bs);
    assert (hi - 1) * bs == hi * bs - bs;
    IntervalOnPage(bs, ps, lo, hi, p);
    DivBounds(hi - 1, p * ps, bs);
    TouchedPages(bs, ps, hi - 1, p);
    TouchesIff(bs, ps, hi - 1, p);
    DivBounds(p, (hi - 1) * bs, ps);
    DivBounds(hi, p * ps, bs);
    if p > LastPage(bs, ps, hi - 1) {
      DivBounds(p, hi * bs - 1, ps);
      assert Interval(lo, hi) * BlocksOn(bs, ps, p) == {};
    } else {
      DivBounds(p, hi * bs - 1, ps);
      assert Interval(hi - 1, hi) == {hi - 1};
      CeilBounds(hi - 1, p * ps + ps, bs);
    }
  }

  lemma CeilTail(bs: nat, lo: nat, x: nat)
    requires bs > 0 && lo * bs < x
    ensures CeilDiv(x - lo * bs, bs) == CeilDiv(x, bs) - lo > 0
  {
    var q := CeilDiv(x - lo * bs, bs);
    CeilFacts(x - lo * bs, bs);
    assert (q - 1) * bs == q * bs - bs;
    CeilShift(x, bs, lo, q);
    CeilBounds(0, x - lo * bs, bs);
  }

  /** Range marking, page by page: with `end` the page-aligned end of the blocks that
      count as marked, the three updates give every page its right counter. */
  lemma MarkInterval(bs: nat, ps: nat, mask: nat, marked: set<nat>, lo: nat, end: nat, p: nat, c: nat)
    requires bs > 0 && ps > 0 && FullPagesBlockCountMax(bs, ps) <= mask
    requires end % ps == 0 && lo * bs < end
    requires CounterOk(bs, ps, mask, marked, p, c)
    requires marked !! Interval(lo, CeilDiv(end, bs))
    ensures var f0, last := FirstPage(bs, ps, lo), LastPage(bs, ps, LastBefore(bs, end));
      var marked' := marked + Interval(lo, CeilDiv(end, bs));
      && (p < f0 ==> CounterOk(bs, ps, mask, marked', p, c))
      && (p == f0 ==> var n := StartsOn(bs, ps, lo, p);
           n > 0 && c + n <= mask && CounterOk(bs, ps, mask, marked', p, c + n))
      && (lo * bs <= p * ps && p * ps + ps <= end ==> CounterOk(bs, ps, mask, marked', p, mask))
      && (end <= p * ps && p <= last ==> c < mask && CounterOk(bs, ps, mask, marked', p, c + 1))
      && (end <= p * ps && last < p ==> CounterOk(bs, ps, mask, marked', p, c))
  {
    hide CounterOk, MarkedOn, BlocksOn, LastPage;
    var f0, hi := FirstPage(bs, ps, lo), CeilDiv(end, bs);
    var s := Interval(lo, hi);
    PageFirst(bs, ps, lo, end);
    CeilBounds(0, end, bs);
    if p < f0 {
      PagesBefore(bs, ps, lo, hi, p);
      CounterUntouched(bs, ps, mask, marked, s, p, c);
    }
    if p == f0 {
      NonEmpty(bs, ps, s, p);
      CounterAdd(bs, ps, mask, marked, s, p, c);
    }
    if lo * bs <= p * ps && p * ps + ps <= end {
      PagesInside(bs, ps, lo, end, p);
      CounterFill(bs, ps, mask, marked + s, p);
    }
    if end <= p * ps {
      PagesAfter(bs, ps, lo, end, p);
      if p <= LastPage(bs, ps, hi - 1) {
        One(bs, ps, s, hi - 1, p);
        CounterAdd(bs, ps, mask, marked, s, p, c);
      } else {
        CounterUntouched(bs, ps, mask, marked, s, p, c);
      }
    }
  }

  lemma NonEmpty(bs: nat, ps: nat, s: set<nat>, p: nat)
    requires bs > 0 && MarkedOn(bs, ps, s, p) > 0
    ensures s * BlocksOn(bs, ps, p) != {}
  {
  }

  lemma One(bs: nat, ps: nat, s: set<nat>, b: nat, p: nat)
    requires bs > 0 && s * BlocksOn(bs, ps, p) == {b}
    ensures MarkedOn(bs, ps, s, p) == 1 && s * BlocksOn(bs, ps, p) != {}
  {
  }

  /** The boundaries used by markRangeAsAllCounted, read page by page: `lo` is the
      first block in the range and `toIn` the end used for filling. */
  lemma RangePages(bs: nat, ps: nat, n: nat, lo: nat, to: nat, toIn: nat, p: nat)
    requires bs > 0 && ps > 0 && 0 < to <= n * bs
    requires to % ps == 0 || to == n * bs
    requires toIn == (if CeilDiv(to, bs) == n then n * bs else to) > 0
    requires p < CeilDiv(n * bs, ps)
    ensures var end := RangeEnd(bs, ps, n, to);
      && (CeilDiv(lo * bs, ps) <= p <= (toIn - 1) / ps <==> lo * bs <= p * ps && p * ps + ps <= end)
      && (CeilDiv(to, bs) == n ==> p * ps < end)
      && (CeilDiv(to, bs) != n ==> (to / ps <= p <==> end <= p * ps))
  {
    hide CeilDiv, RangeEnd;
    var end := RangeEnd(bs, ps, n, to);
    CeilBounds(p, lo * bs, ps);
    DivBounds(p, toIn - 1, ps);
    RangeEndFacts(bs, ps, n, to);
    CeilBounds(p, toIn, ps);
    AlignedStep(p, end, ps);
    DivFacts(to, ps);
    AlignedStep(p, to, ps);
    CeilBounds(p, n * bs, ps);
  }

  lemma RangeEndFacts(bs: nat, ps: nat, n: nat, to: nat)
    requires bs > 0 && ps > 0 && to <= n * bs
    requires to % ps == 0 || to == n * bs
    ensures var end := RangeEnd(bs, ps, n, to);
      && end % ps == 0 && to <= end
      && (CeilDiv(to, bs) != n ==> end == to && to % ps == 0)
      && (CeilDiv(to, bs) == n ==> end == CeilDiv(n * bs, ps) * ps)
  {
    CeilFacts(n * bs, ps);
    AddMulMod(0, CeilDiv(n * bs, ps), ps);
    if CeilDiv(to, bs) != n && to == n * bs {
      assert (n - 1) * bs == n * bs - bs;
      CeilUnique(to, bs, n);
    }
  }

  /** Against a page-aligned bound, a page that starts below it also ends below it. */
  lemma AlignedStep(p: nat, end: nat, ps: nat)
    requires ps > 0
    ensures end % ps == 0 ==> (p * ps < end <==> p * ps + ps <= end)
    ensures end / ps <= p <==> end < p * ps + ps
    ensures end % ps == 0 ==> (end / ps <= p <==> end <= p * ps)
  {
    assert (p + 1) * ps == p * ps + ps;
    DivBounds(p + 1, end, ps);
    if end % ps == 0 {
      assert end == (end / ps) * ps;
      if p < end / ps {
        MulMono(p + 1, end / ps, ps);
      } else {
        MulMono(end / ps, p, ps);
      }
    }
  }

  ghost predicate RowsOk(bs: nat, ps: nat, mask: nat, off: nat, marked: seq<set<nat>>, rows: seq<seq<nat>>)
    requires bs > 0
  {
    |marked| == |rows| && forall r | 0 <= r < |rows| :: RowOk(bs, ps, mask, off, marked[r], rows[r])
  }

  lemma ZeroRows(bs: nat, ps: nat, mask: nat, off: nat, regions: nat, n: nat)
    requires bs > 0
    ensures RowsOk(bs, ps, mask, off, seq(regions, _ => {}), Zeros(regions, n))
  {
  }

  /** The marked sets, one a region, after marking more blocks of region `r`. */
  function Mark(marked: seq<set<nat>>, r: nat, more: set<nat>): (m: seq<set<nat>>)
    requires r < |marked|
    ensures |m| == |marked|
  {
    marked[r := marked[r] + more]
  }

  lemma RowsMarked(bs: nat, ps: nat, mask: nat, off: nat, marked: seq<set<nat>>, rows: seq<seq<nat>>,
                   r: nat, more: set<nat>, row: seq<nat>)
    requires bs > 0 && RowsOk(bs, ps, mask, off, marked, rows) && r < |rows| == |marked|
    requires RowOk(bs, ps, mask, off, marked[r] + more, row)
    ensures RowsOk(bs, ps, mask, off, Mark(marked, r, more), rows[r := row])
  {
    hide RowOk;
  }

  lemma RowOfRows(bs: nat, ps: nat, mask: nat, off: nat, marked: seq<set<nat>>, rows: seq<seq<nat>>, r: nat)
    requires bs > 0 && RowsOk(bs, ps, mask, off, marked, rows) && r < |rows| == |marked|
    ensures RowOk(bs, ps, mask, off, marked[r], rows[r])
  {
  }

  lemma MarkNone(marked: seq<set<nat>>, r: nat)
    requires r < |marked|
    ensures Mark(marked, r, {}) == marked
  {
    assert marked[r] + {} == marked[r];
  }

  lemma MarkTwice(marked: seq<set<nat>>, r: nat, a: set<nat>, b: set<nat>)
    requires r < |marked|
    ensures Mark(Mark(marked, r, a), r, b) == Mark(marked, r, a + b)
  {
    assert marked[r] + a + b == marked[r] + (a + b);
  }

  method ClassifyPages(blockSize: nat, pageSize: nat) returns (full: nat, same: bool)
    requires blockSize > 0 && pageSize > 0
    ensures full == FullPagesBlockCountMax(blockSize, pageSize)
    ensures same == SameBlockCountPerPage(blockSize, pageSize)
  {
    if blockSize <= pageSize {
      if pageSize % blockSize == 0 {
        // No block crosses a page boundary.
        full, same := pageSize / blockSize, true;
      } else if blockSize % (pageSize % blockSize) == 0 {
        // Blocks cross page boundaries, yet every page meets the same number.
        full, same := pageSize / blockSize + 1, true;
      } else {
        full, same := pageSize / blockSize + 2, false;
      }
    } else if blockSize % pageSize == 0 {
      full, same := 1, true;
    } else {
      full, same := 2, false;
    }
  }

  /** Block index of a compact pointer: pointers count units of `ptrBytes` bytes from
      the start of the region. */
  function BlockOf(bs: nat, ptrBytes: nat, ptr: nat): nat
    requires bs > 0
  {
    ptr * ptrBytes / bs
  }

  function BlockSet(bs: nat, ptrBytes: nat, ptrs: seq<nat>): set<nat>
    requires bs > 0
  {
    set x | x in ptrs :: BlockOf(bs, ptrBytes, x)
  }

  /** Pointers to distinct blocks of the region. */
  ghost predicate ProperPointers(bs: nat, ptrBytes: nat, regionSize: nat, ptrs: seq<nat>)
    requires bs > 0
  {
    && ptrBytes > 0
    && Distinct(ptrs)
    && forall x | x in ptrs :: x * ptrBytes % bs == 0 && x * ptrBytes < regionSize
  }

  ghost predicate StartOnPages(bs: nat, ps: nat, lo: nat, hi: nat, blocks: set<nat>)
    requires ps > 0
  {
    forall b | b in blocks :: lo <= FirstPage(bs, ps, b) < hi
  }

  lemma PointerIsBlock(bs: nat, ptrBytes: nat, ptr: nat)
    requires bs > 0 && ptr * ptrBytes % bs == 0
    ensures BlockOf(bs, ptrBytes, ptr) * bs == ptr * ptrBytes
  {
  }

  lemma NewBlock(bs: nat, ptrBytes: nat, regionSize: nat, ptrs: seq<nat>, k: nat)
    requires bs > 0 && ProperPointers(bs, ptrBytes, regionSize, ptrs) && k < |ptrs|
    ensures BlockOf(bs, ptrBytes, ptrs[k]) !in BlockSet(bs, ptrBytes, ptrs[..k])
    ensures BlockSet(bs, ptrBytes, ptrs[..k + 1]) ==
      BlockSet(bs, ptrBytes, ptrs[..k]) + {BlockOf(bs, ptrBytes, ptrs[k])}
    ensures BlockOf(bs, ptrBytes, ptrs[k]) * bs == ptrs[k] * ptrBytes
    ensures BlockOf(bs, ptrBytes, ptrs[k]) in BlockSet(bs, ptrBytes, ptrs)
  {
    hide BlockOf;
    assert ptrs[k] in ptrs;
    PointerIsBlock(bs, ptrBytes, ptrs[k]);
    assert ptrs[..k + 1] == ptrs[..k] + [ptrs[k]];
    forall i | 0 <= i < k ensures BlockOf(bs, ptrBytes, ptrs[i]) != BlockOf(bs, ptrBytes, ptrs[k]) {
      assert ptrs[i] in ptrs;
      PointerIsBlock(bs, ptrBytes, ptrs[i]);
      if BlockOf(bs, ptrBytes, ptrs[i]) == BlockOf(bs, ptrBytes, ptrs[k]) {
        SameProduct(ptrBytes, ptrs[i], ptrs[k]);
      }
    }
  }

  lemma SameProduct(ptrBytes: nat, x: nat, y: nat)
    requires ptrBytes > 0 && x * ptrBytes == y * ptrBytes
    ensures x == y
  {
    if x != y {
      MulMono(Min(x, y) + 1, Max(x, y), ptrBytes);
    }
  }

  class PageReleaseContext {
    const blockSize: nat
    const pageSize: nat
    const numberOfRegions: nat
    const releasePageOffset: nat
    const pagesCount: nat
    const fullPagesBlockCountMax: nat
    const sameBlockCountPerPage: bool
    const pageMap: RegionPageMap
    ghost var marked: seq<set<nat>>

    ghost predicate Valid()
      reads this, pageMap, pageMap.data
    {
      && blockSize > 0 && 0 < pageSize < WORD_LIMIT && numberOfRegions > 0 && pagesCount > 0
      && fullPagesBlockCountMax == FullPagesBlockCountMax(blockSize, pageSize)
      && sameBlockCountPerPage == SameBlockCountPerPage(blockSize, pageSize)
      && pageMap.Valid()
      && |marked| == numberOfRegions
      && if pageMap.IsAllocated() then
           && pageMap.regions == numberOfRegions && pageMap.numCounters == pagesCount
           && |pageMap.counts| == numberOfRegions
           && (forall r | 0 <= r < numberOfRegions :: |pageMap.counts[r]| == pagesCount)
           && fullPagesBlockCountMax <= pageMap.counterMask
           && RowsOk(blockSize, pageSize, pageMap.counterMask, releasePageOffset, marked, pageMap.counts)
         else
           marked == seq(numberOfRegions, _ => {})
    }

    constructor (blockSize: nat, pageSize: nat, numberOfRegions: nat, releaseSize: nat, releaseOffset: nat)
      requires blockSize > 0 && 0 < pageSize < WORD_LIMIT && numberOfRegions > 0 && releaseSize > 0
      ensures Valid() && fresh(pageMap) && !pageMap.IsAllocated()
      ensures this.blockSize == blockSize && this.pageSize == pageSize
      ensures this.numberOfRegions == numberOfRegions
      ensures pagesCount == CeilDiv(releaseSize, pageSize)
      ensures releasePageOffset == releaseOffset / pageSize
    {
      this.blockSize, this.pageSize, this.numberOfRegions := blockSize, pageSize, numberOfRegions;
      hide FullPagesBlockCountMax, SameBlockCountPerPage, CeilDiv;
      var full, same := ClassifyPages(blockSize, pageSize);
      fullPagesBlockCountMax, sameBlockCountPerPage := full, same;
      pagesCount := CeilDiv(releaseSize, pageSize);
      releasePageOffset := releaseOffset / pageSize;
      pageMap := new RegionPageMap();
      marked := seq(numberOfRegions, _ => {});
      CeilBounds(0, releaseSize, pageSize);
    }

    method EnsurePageMapAllocated(bufferAvailable: bool) returns (ok: bool)
      requires Valid()
      modifies pageMap
      ensures Valid() && ok == pageMap.IsAllocated()
      ensures pageMap.data == old(pageMap.data) || fresh(pageMap.data)
      ensures ok == (old(pageMap.IsAllocated()) || bufferAvailable)
    {
      if pageMap.IsAllocated() {
        return true;
      }
      BlocksPerPageCorrect(blockSize, pageSize, 0);
      BlockCountIs(blockSize, pageSize, 0);
      MaxFits(blockSize, pageSize);
      pageMap.Reset(numberOfRegions, pagesCount, fullPagesBlockCountMax, bufferAvailable);
      ZeroRows(blockSize, pageSize, pageMap.counterMask, releasePageOffset, numberOfRegions, pagesCount);
      return pageMap.IsAllocated();
    }

    function GetPageIndex(p: nat): (index: int)
      requires pageSize > 0
    {
      p / pageSize - releasePageOffset
    }

    /** What the marking methods demand of the blocks they are given. */
    ghost predicate CanMark(regionIndex: nat, blocks: set<nat>)
      reads this
    {
      && regionIndex < |marked|
      && pageSize > 0
      && marked[regionIndex] !! blocks
      && StartOnPages(blockSize, pageSize, releasePageOffset, releasePageOffset + pagesCount, blocks)
    }

    /** One free block, in a size class whose blocks do not cross pages. */
    method MarkInPage(regionIndex: nat, ghost b: nat, pInRegion: nat)
      requires Valid() && pageMap.IsAllocated() && CanMark(regionIndex, {b})
      requires pInRegion == b * blockSize && pageSize % blockSize == 0
      modifies this`marked, pageMap`counts, pageMap.data
      ensures Valid() && pageMap.data == old(pageMap.data)
      ensures marked == Mark(old(marked), regionIndex, {b})
    {
      hide RowOk, LastPage, SameBlockCountPerPage, FullPagesBlockCountMax;
      var index := GetPageIndex(pInRegion);
      ghost var mask, row := pageMap.counterMask, pageMap.counts[regionIndex];
      assert b in {b};
      WithinPage(blockSize, pageSize, b);
      MarkBlock(blockSize, pageSize, mask, releasePageOffset, marked[regionIndex], row, b, index, index);
      pageMap.Inc(regionIndex, index);
      assert pageMap.counts[regionIndex] == AddRange(row, index, index);
      marked := Mark(marked, regionIndex, {b});
    }

    /** One free block that may touch several pages. */
    method MarkAcrossPages(regionIndex: nat, ghost b: nat, pInRegion: nat)
      requires Valid() && pageMap.IsAllocated() && CanMark(regionIndex, {b})
      requires pInRegion == b * blockSize
      modifies this`marked, pageMap`counts, pageMap.data
      ensures Valid() && pageMap.data == old(pageMap.data)
      ensures marked == Mark(old(marked), regionIndex, {b})
    {
      hide RowOk, SameBlockCountPerPage, FullPagesBlockCountMax;
      var from := GetPageIndex(pInRegion);
      var to := GetPageIndex(pInRegion + blockSize - 1);
      ghost var mask, row := pageMap.counterMask, pageMap.counts[regionIndex];
      assert b in {b};
      TouchedPages(blockSize, pageSize, b, 0);
      MarkBlock(blockSize, pageSize, mask, releasePageOffset, marked[regionIndex], row, b, from, to);
      pageMap.IncRange(regionIndex, from, to);
      marked := Mark(marked, regionIndex, {b});
    }

    /** The blocks of one batch; `ptrs` are all pointers of the free list, the first
        `start` of which are already marked on top of `before`. */
    method MarkBatch(batch: TransferBatch, ptrBytes: nat, regionIndex: nat, regionSize: nat,
                     ghost before: seq<set<nat>>, ghost ptrs: seq<nat>, ghost start: nat)
      requires Valid() && pageMap.IsAllocated()
      requires ProperPointers(blockSize, ptrBytes, regionSize, ptrs)
      requires start + |batch.blocks| <= |ptrs| && ptrs[start..start + |batch.blocks|] == batch.blocks
      requires regionIndex < |before| &&
        marked == Mark(before, regionIndex, BlockSet(blockSize, ptrBytes, ptrs[..start]))
      requires before[regionIndex] !! BlockSet(blockSize, ptrBytes, ptrs)
      requires StartOnPages(blockSize, pageSize, releasePageOffset, releasePageOffset + pagesCount,
                            BlockSet(blockSize, ptrBytes, ptrs))
      modifies this`marked, pageMap`counts, pageMap.data
      ensures Valid() && pageMap.data == old(pageMap.data)
      ensures marked == Mark(before, regionIndex, BlockSet(blockSize, ptrBytes, ptrs[..start + |batch.blocks|]))
    {
      hide RowsOk, FirstPage, SameBlockCountPerPage, FullPagesBlockCountMax, BlockOf, BlockSet, RegionPageMap.Valid;
      var onePage := blockSize <= pageSize && pageSize % blockSize == 0;
      var i := 0;
      while i < |batch.blocks|
        invariant i <= |batch.blocks|
        invariant Valid() && pageMap.IsAllocated() && pageMap.data == old(pageMap.data)
        invariant marked == Mark(before, regionIndex, BlockSet(blockSize, ptrBytes, ptrs[..start + i]))
      {
        ghost var k := start + i;
        assert ptrs[k] == ptrs[start..start + |batch.blocks|][i];
        var pInRegion := batch.blocks[i] * ptrBytes;
        ghost var b := BlockOf(blockSize, ptrBytes, ptrs[k]);
        NewBlock(blockSize, ptrBytes, regionSize, ptrs, k);
        MarkTwice(before, regionIndex, BlockSet(blockSize, ptrBytes, ptrs[..k]), {b});
        if onePage {
          MarkInPage(regionIndex, b, pInRegion);
        } else {
          MarkAcrossPages(regionIndex, b, pInRegion);
        }
        i := i + 1;
      }
    }

    /** The loop of markFreeBlocksInRegion over the batches of a free list. */
    method MarkBatches(freeList: seq<TransferBatch>, ptrBytes: nat, regionIndex: nat, regionSize: nat)
      requires Valid() && pageMap.IsAllocated()
      requires ProperPointers(blockSize, ptrBytes, regionSize, Blocks(freeList))
      requires CanMark(regionIndex, BlockSet(blockSize, ptrBytes, Blocks(freeList)))
      modifies this`marked, pageMap`counts, pageMap.data
      ensures Valid() && pageMap.data == old(pageMap.data)
      ensures marked == Mark(old(marked), regionIndex, BlockSet(blockSize, ptrBytes, Blocks(freeList)))
    {
      hide RowsOk, FirstPage, SameBlockCountPerPage, FullPagesBlockCountMax, BlockOf, RegionPageMap.Valid, Blocks;
      ghost var ptrs := Blocks(freeList);
      ghost var k: nat := 0;
      MarkNone(marked, regionIndex);
      assert BlockSet(blockSize, ptrBytes, ptrs[..0]) == {};
      hide BlockSet, ProperPointers, StartOnPages;
      assert freeList[0..] == freeList;
      assert ptrs == ptrs[..k] + Blocks(freeList[0..]);
      var i := 0;
      while i < |freeList|
        invariant i <= |freeList| && k <= |ptrs|
        invariant ptrs == ptrs[..k] + Blocks(freeList[i..])
        invariant Valid() && pageMap.IsAllocated() && pageMap.data == old(pageMap.data)
        invariant marked == Mark(old(marked), regionIndex, BlockSet(blockSize, ptrBytes, ptrs[..k]))
      {
        NextBatch(freeList, i, ptrs, k);
        MarkBatch(freeList[i], ptrBytes, regionIndex, regionSize, old(marked), ptrs, k);
        k := k + |freeList[i].blocks|;
        i := i + 1;
      }
      NoMoreBatches(freeList, i, ptrs, k);
    }

    static lemma NextBatch(freeList: seq<TransferBatch>, i: nat, ptrs: seq<nat>, k: nat)
      requires i < |freeList| && k <= |ptrs| && ptrs == ptrs[..k] + Blocks(freeList[i..])
      ensures
        var end := k + |freeList[i].blocks|;
        && end <= |ptrs| && ptrs[k..end] == freeList[i].blocks
        && ptrs == ptrs[..end] + Blocks(freeList[i + 1..])
    {
      assert freeList[i..][1..] == freeList[i + 1..];
      var end := k + |freeList[i].blocks|;
      var rest := Blocks(freeList[i + 1..]);
      assert Blocks(freeList[i..]) == freeList[i].blocks + rest;
      assert ptrs == ptrs[..k] + freeList[i].blocks + rest;
    }

    static lemma NoMoreBatches(freeList: seq<TransferBatch>, i: nat, ptrs: seq<nat>, k: nat)
      requires i == |freeList| && k <= |ptrs| && ptrs == ptrs[..k] + Blocks(freeList[i..])
      ensures ptrs[..k] == ptrs
    {
    }

    /** The pretend blocks after the region's last one, counted on its last page. */
    method MarkTrailing(regionIndex: nat, regionSize: nat, ghost n: nat)
      requires Valid() && pageMap.IsAllocated() && regionIndex < |marked|
      requires n > 0 && regionSize == n * blockSize
      requires releasePageOffset + pagesCount == CeilDiv(regionSize, pageSize)
      requires marked[regionIndex] !! Trailing(blockSize, pageSize, n)
      modifies this`marked, pageMap`counts, pageMap.data
      ensures Valid() && pageMap.data == old(pageMap.data)
      ensures marked == Mark(old(marked), regionIndex, Trailing(blockSize, pageSize, n))
    {
      hide SameBlockCountPerPage, FullPagesBlockCountMax, RowOk;
      var lastBlockInRegion := (regionSize / blockSize - 1) * blockSize;
      LastBlock(blockSize, n);
      var roundedRegionSize := RoundUp(regionSize, pageSize);
      var trailingBlockBase := lastBlockInRegion + blockSize;
      CeilFacts(regionSize, pageSize);
      var numTrailingBlocks := (RoundUp(roundedRegionSize - trailingBlockBase, blockSize) + blockSize - 1) / blockSize;
      TrailingCount(blockSize, pageSize, n, numTrailingBlocks);
      if numTrailingBlocks > 0 {
        var index := GetPageIndex(trailingBlockBase);
        ghost var mask, row := pageMap.counterMask, pageMap.counts[regionIndex];
        TrailingRow(blockSize, pageSize, mask, releasePageOffset, marked[regionIndex], row, n, index,
                    numTrailingBlocks);
        pageMap.IncN(regionIndex, index, numTrailingBlocks);
      } else {
        MarkNone(marked, regionIndex);
      }
      marked := Mark(marked, regionIndex, Trailing(blockSize, pageSize, n));
    }

    /** Marks every block recorded in `freeList` as free, and with
        `mayContainLastBlock` the pretend blocks behind the region. */
    method MarkFreeBlocksInRegion(freeList: seq<TransferBatch>, ptrBytes: nat, regionIndex: nat, regionSize: nat,
                                  mayContainLastBlock: bool, bufferAvailable: bool) returns (ok: bool)
      requires Valid() && regionSize > 0 && regionSize % blockSize == 0
      requires ProperPointers(blockSize, ptrBytes, regionSize, Blocks(freeList))
      requires CanMark(regionIndex, BlockSet(blockSize, ptrBytes, Blocks(freeList)))
      requires mayContainLastBlock ==>
        && releasePageOffset + pagesCount == CeilDiv(regionSize, pageSize)
        && marked[regionIndex] !! Trailing(blockSize, pageSize, regionSize / blockSize)
      modifies this, pageMap, pageMap.data
      ensures Valid() && ok == pageMap.IsAllocated()
      ensures pageMap.data == old(pageMap.data) || fresh(pageMap.data)
      ensures ok == (old(pageMap.IsAllocated()) || bufferAvailable)
      ensures marked == if !ok then old(marked) else Mark(old(marked), regionIndex,
        (if mayContainLastBlock then Trailing(blockSize, pageSize, regionSize / blockSize) else {})
        + BlockSet(blockSize, ptrBytes, Blocks(freeList)))
    {
      hide RowsOk, SameBlockCountPerPage, FullPagesBlockCountMax, Trailing, BlockSet;
      ok := EnsurePageMapAllocated(bufferAvailable);
      if !ok {
        return;
      }
      if mayContainLastBlock {
        ghost var n := regionSize / blockSize;
        RealBlocksNotTrailing(blockSize, pageSize, ptrBytes, regionSize, Blocks(freeList));
        MarkTrailing(regionIndex, regionSize, n);
      }
      MarkBatches(freeList, ptrBytes, regionIndex, regionSize);
      ghost var more := if mayContainLastBlock then Trailing(blockSize, pageSize, regionSize / blockSize) else {};
      MarkNone(old(marked), regionIndex);
      MarkTwice(old(marked), regionIndex, more, BlockSet(blockSize, ptrBytes, Blocks(freeList)));
    }

    /** The marking methods' common demands on a range inside the region. */
    ghost predicate RangeFits(n: nat, from: nat, to: nat)
      reads this
    {
      && blockSize > 0 && pageSize > 0
      && from < to <= n * blockSize
      && releasePageOffset * pageSize <= from
      && (to % pageSize == 0 || to == n * blockSize)
      && releasePageOffset + pagesCount <= CeilDiv(n * blockSize, pageSize)
      && (CeilDiv(from, blockSize) * blockSize < to ==>
           FirstPage(blockSize, pageSize, CeilDiv(from, blockSize)) < releasePageOffset + pagesCount)
    }

    /** A first page shared with an earlier block is counted, and the filling starts
        on the page after it. */
    method CountFirstPage(firstBlockInRange: nat, regionIndex: nat, ghost n: nat, ghost from: nat, ghost to: nat)
      returns (fromInRegion: nat)
      requires pageMap.Valid() && pageMap.IsAllocated() && RangeFits(n, from, to)
      requires firstBlockInRange == RoundUp(from, blockSize) < to
      requires regionIndex < |pageMap.counts| && pageMap.regions == |pageMap.counts|
      requires |pageMap.counts[regionIndex]| == pageMap.numCounters == pagesCount
      requires var plan, row := PlanRange(blockSize, pageSize, n, from, to), pageMap.counts[regionIndex];
        forall j: nat | j < |row| :: releasePageOffset + j == plan.first ==>
          row[j] + plan.firstCount <= pageMap.counterMask
      modifies pageMap`counts, pageMap.data
      ensures pageMap.Valid() && pageMap.data == old(pageMap.data)
      ensures var plan, row := PlanRange(blockSize, pageSize, n, from, to), old(pageMap.counts)[regionIndex];
        && fromInRegion == plan.fillFrom * pageSize
        && releasePageOffset <= plan.first <= plan.fillFrom && plan.first < releasePageOffset + |row|
        && var first := plan.first - releasePageOffset;
        var row1: seq<nat> := if plan.firstCount == 0 then row else row[first := row[first] + plan.firstCount];
        pageMap.counts == old(pageMap.counts)[regionIndex := row1]
    {
      hide RegionPageMap.Valid, PlanRange, RoundUp, RoundDown, CeilDiv, FirstPage;
      RangeStart(blockSize, pageSize, n, releasePageOffset, from, to);
      ghost var row := pageMap.counts[regionIndex];
      fromInRegion := RoundDown(firstBlockInRange, pageSize);
      assert GetPageIndex(fromInRegion) < |row|;
      if firstBlockInRange != fromInRegion {
        assert row[GetPageIndex(fromInRegion)] >= 0;
        var numBlocksInFirstPage := CeilDiv(fromInRegion + pageSize - firstBlockInRange, blockSize);
        pageMap.IncN(regionIndex, GetPageIndex(fromInRegion), numBlocksInFirstPage);
        fromInRegion := RoundUp(fromInRegion + 1, pageSize);
      } else {
        assert pageMap.counts == pageMap.counts[regionIndex := row];
      }
    }

    /** The pages past `to` that the last block in the range reaches are counted; the
        region's last block instead extends the filling to the region's end. */
    method CountLastBlock(toInRegion: nat, regionIndex: nat, regionSize: nat, ghost n: nat, ghost from: nat)
      returns (fillEnd: nat)
      requires pageMap.Valid() && pageMap.IsAllocated() && RangeFits(n, from, toInRegion)
      requires regionSize == n * blockSize
      requires regionIndex < |pageMap.counts| && pageMap.regions == |pageMap.counts|
      requires |pageMap.counts[regionIndex]| == pageMap.numCounters == pagesCount
      requires var plan, row := PlanRange(blockSize, pageSize, n, from, toInRegion), pageMap.counts[regionIndex];
        forall j: nat | j < |row| :: plan.InTail(releasePageOffset + j) ==> row[j] < pageMap.counterMask
      modifies pageMap`counts, pageMap.data
      ensures pageMap.Valid() && pageMap.data == old(pageMap.data)
      ensures var plan, row := PlanRange(blockSize, pageSize, n, from, toInRegion), old(pageMap.counts)[regionIndex];
        && fillEnd > 0 && (fillEnd - 1) / pageSize == plan.fillTo
        && (plan.fillFrom * pageSize < fillEnd <==> plan.fillFrom <= plan.fillTo)
        && if plan.tailFrom <= plan.tailTo then
             && releasePageOffset <= plan.tailFrom
             && pageMap.counts == old(pageMap.counts)[regionIndex :=
                  AddRange(row, plan.tailFrom - releasePageOffset, plan.tailTo - releasePageOffset)]
           else pageMap.counts == old(pageMap.counts)
    {
      hide RegionPageMap.Valid, PlanRange, RoundUp, RoundDown, CeilDiv, FirstPage, AddRange;
      RangeFinish(blockSize, pageSize, n, releasePageOffset, from, toInRegion);
      var lastBlockInRange := RoundDown(toInRegion - 1, blockSize);
      fillEnd := toInRegion;
      if lastBlockInRange + blockSize != regionSize {
        if lastBlockInRange + blockSize != toInRegion {
          pageMap.IncRange(regionIndex, GetPageIndex(toInRegion), GetPageIndex(lastBlockInRange + blockSize - 1));
        }
      } else {
        fillEnd := regionSize;
      }
    }

    /** The pages from `fromInRegion` up to `fillEnd`, if there are any, are set as all
        counted. */
    method FillMiddle(fromInRegion: nat, fillEnd: nat, regionIndex: nat, ghost fillFrom: nat, ghost fillTo: nat)
      requires pageMap.Valid() && pageMap.IsAllocated() && regionIndex < pageMap.regions == |pageMap.counts|
      requires pageSize > 0 && fillEnd > 0 && fromInRegion == fillFrom * pageSize && (fillEnd - 1) / pageSize == fillTo
      requires (fromInRegion < fillEnd <==> fillFrom <= fillTo) && releasePageOffset <= fillFrom
      modifies pageMap`counts, pageMap.data
      ensures pageMap.Valid() && pageMap.data == old(pageMap.data)
      ensures pageMap.counts ==
        if fillFrom <= fillTo then old(pageMap.counts)[regionIndex :=
          FillRange(old(pageMap.counts)[regionIndex], fillFrom - releasePageOffset, fillTo - releasePageOffset,
                    pageMap.counterMask)]
        else old(pageMap.counts)
    {
      hide RegionPageMap.Valid, FillRange;
      if fromInRegion < fillEnd {
        AddMulDiv(0, fillFrom, pageSize);
        pageMap.SetAsAllCountedRange(regionIndex, GetPageIndex(fromInRegion), GetPageIndex(fillEnd - 1));
      }
    }

    /** Range marking in region-relative addresses, for a range in which some block
        starts. */
    method MarkRangeInRegion(from: nat, to: nat, regionIndex: nat, regionSize: nat, ghost n: nat)
      requires Valid() && pageMap.IsAllocated() && RangeFits(n, from, to) && n * blockSize == regionSize
      requires RoundUp(from, blockSize) < to && regionIndex < |marked|
      requires marked[regionIndex] !! RangeBlocks(blockSize, pageSize, n, from, to)
      modifies this`marked, pageMap`counts, pageMap.data
      ensures Valid() && pageMap.data == old(pageMap.data)
      ensures marked == Mark(old(marked), regionIndex, RangeBlocks(blockSize, pageSize, n, from, to))
    {
      hide RowsOk, SameBlockCountPerPage, FullPagesBlockCountMax, RangeBlocks, PlanRange;
      hide RegionPageMap.Valid, CeilDiv, FirstPage, AddRange, FillRange;
      ghost var plan := PlanRange(blockSize, pageSize, n, from, to);
      ghost var mask, rows := pageMap.counterMask, pageMap.counts;
      RangeRoom(blockSize, pageSize, mask, releasePageOffset, marked, regionIndex, n, from, to, rows);
      var firstBlockInRange := RoundUp(from, blockSize);
      var fromInRegion := CountFirstPage(firstBlockInRange, regionIndex, n, from, to);
      ghost var rows1 := pageMap.counts;
      var fillEnd := CountLastBlock(to, regionIndex, regionSize, n, from);
      ghost var rows2 := pageMap.counts;
      FillMiddle(fromInRegion, fillEnd, regionIndex, plan.fillFrom, plan.fillTo);
      RangeMarked(blockSize, pageSize, mask, releasePageOffset, marked, regionIndex, n, from, to,
                  rows, rows1, rows2, pageMap.counts);
      marked := Mark(marked, regionIndex, RangeBlocks(blockSize, pageSize, n, from, to));
    }

    /** Marks every block that starts in [from, to) without visiting it: the first
        page is counted, the pages of a block across `to` are counted, the pages in
        between are set to the all-counted value. */
    method MarkRangeAsAllCounted(from: nat, to: nat, base: nat, regionIndex: nat, regionSize: nat,
                                 bufferAvailable: bool) returns (ok: bool)
      requires Valid() && regionSize > 0 && regionSize % blockSize == 0
      requires base <= from < to <= base + regionSize
      requires RangeFits(regionSize / blockSize, from - base, to - base)
      requires regionIndex < |marked|
      requires marked[regionIndex] !! RangeBlocks(blockSize, pageSize, regionSize / blockSize, from - base, to - base)
      modifies this, pageMap, pageMap.data
      ensures Valid() && ok == pageMap.IsAllocated()
      ensures pageMap.data == old(pageMap.data) || fresh(pageMap.data)
      ensures ok == (old(pageMap.IsAllocated()) || bufferAvailable)
      ensures marked == if !ok then old(marked) else Mark(old(marked), regionIndex,
        RangeBlocks(blockSize, pageSize, regionSize / blockSize, from - base, to - base))
    {
      hide RowsOk, SameBlockCountPerPage, FullPagesBlockCountMax, RangeBlocks, RegionPageMap.Valid, RoundUp, CeilDiv;
      ok := EnsurePageMapAllocated(bufferAvailable);
      if !ok {
        return;
      }
      ghost var n := regionSize / blockSize;
      assert n * blockSize == regionSize;
      RangeStart(blockSize, pageSize, n, releasePageOffset, from - base, to - base);
      if RoundUp(from - base, blockSize) >= to - base {
        // The straddling block sits across the entire range.
        MarkNone(marked, regionIndex);
        return;
      }
      MarkRangeInRegion(from - base, to - base, regionIndex, regionSize, n);
    }
  }

  /** No counter that range marking adds to can overflow, or is already all-counted. */
  lemma RangeRoom(bs: nat, ps: nat, mask: nat, off: nat, marked: seq<set<nat>>, r: nat, n: nat, from: nat, to: nat,
                  rows: seq<seq<nat>>)
    requires bs > 0 && ps > 0 && FullPagesBlockCountMax(bs, ps) <= mask
    requires RowsOk(bs, ps, mask, off, marked, rows) && r < |rows| == |marked|
    requires from < to <= n * bs && (to % ps == 0 || to == n * bs)
    requires CeilDiv(from, bs) * bs < to && off + |rows[r]| <= CeilDiv(n * bs, ps)
    requires marked[r] !! RangeBlocks(bs, ps, n, from, to)
    ensures var plan := PlanRange(bs, ps, n, from, to);
      forall j: nat | j < |rows[r]| ::
        && (off + j == plan.first ==> rows[r][j] + plan.firstCount <= mask)
        && (plan.InTail(off + j) ==> rows[r][j] < mask && off + j != plan.first)
  {
    hide RowOk, RowsOk, FullPagesBlockCountMax, RangeBlocks, PlanRange, CeilDiv;
    RowOfRows(bs, ps, mask, off, marked, rows, r);
    RangeRow(bs, ps, mask, off, marked[r], rows[r], n, from, to);
  }

  /** The counters after the three updates are right for the marked blocks together
      with those of the range. */
  lemma RangeMarked(bs: nat, ps: nat, mask: nat, off: nat, marked: seq<set<nat>>, r: nat, n: nat, from: nat, to: nat,
                    rows: seq<seq<nat>>, rows1: seq<seq<nat>>, rows2: seq<seq<nat>>, rows3: seq<seq<nat>>)
    requires bs > 0 && ps > 0 && FullPagesBlockCountMax(bs, ps) <= mask
    requires RowsOk(bs, ps, mask, off, marked, rows) && r < |rows| == |marked|
    requires from < to <= n * bs && (to % ps == 0 || to == n * bs)
    requires CeilDiv(from, bs) * bs < to && off + |rows[r]| <= CeilDiv(n * bs, ps)
    requires marked[r] !! RangeBlocks(bs, ps, n, from, to)
    requires var plan := PlanRange(bs, ps, n, from, to);
      && off <= plan.first <= plan.fillFrom && plan.first < off + |rows[r]|
      && (plan.tailFrom <= plan.tailTo ==> off <= plan.tailFrom)
      && var row1: seq<nat> := if plan.firstCount == 0 then rows[r]
           else rows[r][plan.first - off := rows[r][plan.first - off] + plan.firstCount];
      && rows1 == rows[r := row1]
      && rows2 == (if plan.tailFrom <= plan.tailTo
           then rows1[r := AddRange(row1, plan.tailFrom - off, plan.tailTo - off)] else rows1)
      && rows3 == (if plan.fillFrom <= plan.fillTo
           then rows2[r := FillRange(rows2[r], plan.fillFrom - off, plan.fillTo - off, mask)] else rows2)
    ensures RowsOk(bs, ps, mask, off, Mark(marked, r, RangeBlocks(bs, ps, n, from, to)), rows3)
    ensures |rows3| == |rows| && forall x | 0 <= x < |rows| :: |rows3[x]| == |rows[x]|
  {
    hide RowOk, RowsOk, FullPagesBlockCountMax, RangeBlocks, PlanRange, CeilDiv;
    var plan, row := PlanRange(bs, ps, n, from, to), rows[r];
    RowOfRows(bs, ps, mask, off, marked, rows, r);
    RangeRow(bs, ps, mask, off, marked[r], row, n, from, to);
    assert row[plan.first - off] >= 0;
    PlanSteps(plan, mask, off, row, rows1[r], rows2[r], rows3[r]);
    RowsMarked(bs, ps, mask, off, marked, rows, r, RangeBlocks(bs, ps, n, from, to), rows3[r]);
    assert rows3 == rows[r := rows3[r]];
  }

  /** What range marking does, in page numbers: add `firstCount` to page `first`,
      set the pages [fillFrom, fillTo] to all-counted, and add one to the pages
      [tailFrom, tailTo]. */
  datatype RangePlan = RangePlan(first: nat, firstCount: nat, fillFrom: nat, fillTo: nat, tailFrom: nat, tailTo: nat) {
    predicate InTail(p: nat) { tailFrom <= p <= tailTo }

    function Apply(mask: nat, p: nat, c: nat): nat {
      if fillFrom <= p <= fillTo then mask
      else if p == first then c + firstCount
      else if InTail(p) then c + 1
      else c
    }

    function ApplyRow(mask: nat, off: nat, row: seq<nat>): seq<nat> {
      seq(|row|, j requires 0 <= j < |row| => Apply(mask, off + j, row[j]))
    }
  }

  /** The three updates made one after the other add up to the plan. */
  lemma PlanSteps(plan: RangePlan, mask: nat, off: nat, row: seq<nat>, row1: seq<nat>, row2: seq<nat>, row3: seq<nat>)
    requires off <= plan.first && off <= plan.fillFrom && (plan.tailFrom <= plan.tailTo ==> off <= plan.tailFrom)
    requires plan.first < off + |row|
    requires plan.firstCount == 0 ==> row1 == row
    requires plan.firstCount > 0 ==> row1 == row[plan.first - off := row[plan.first - off] + plan.firstCount]
    requires row2 == if plan.tailFrom <= plan.tailTo
      then AddRange(row1, plan.tailFrom - off, plan.tailTo - off) else row1
    requires row3 == if plan.fillFrom <= plan.fillTo
      then FillRange(row2, plan.fillFrom - off, plan.fillTo - off, mask) else row2
    requires !plan.InTail(plan.first)
    ensures row3 == plan.ApplyRow(mask, off, row)
  {
    forall j: nat | j < |row| ensures row3[j] == plan.ApplyRow(mask, off, row)[j] {
      assert row1[j] == if off + j == plan.first then row[j] + plan.firstCount else row[j];
      assert row2[j] == if plan.InTail(off + j) then row1[j] + 1 else row1[j];
    }
  }

  /** Blocks that start on page `p` from block `lo` on. */
  function StartsOn(bs: nat, ps: nat, lo: nat, p: nat): nat
    requires bs > 0
  {
    if lo * bs <= p * ps + ps then CeilDiv(p * ps + ps - lo * bs, bs) else 0
  }

  /** The last block that starts before `end`. */
  function LastBefore(bs: nat, end: nat): nat
    requires bs > 0
  {
    if CeilDiv(end, bs) > 0 then CeilDiv(end, bs) - 1 else 0
  }

  function FillEnd(bs: nat, n: nat, to: nat): nat
    requires bs > 0
  {
    if CeilDiv(to, bs) == n then n * bs else to
  }

  /** Does a block reach across `to` into the rest of the region? */
  predicate Straddles(bs: nat, n: nat, to: nat)
    requires bs > 0
  {
    CeilDiv(to, bs) != n && CeilDiv(to, bs) * bs != to
  }

  function PlanRange(bs: nat, ps: nat, n: nat, from: nat, to: nat): RangePlan
    requires bs > 0 && ps > 0
  {
    var lo, fillEnd := CeilDiv(from, bs), FillEnd(bs, n, to);
    RangePlan(
      FirstPage(bs, ps, lo),
      if FirstPage(bs, ps, lo) * ps == lo * bs then 0 else StartsOn(bs, ps, lo, FirstPage(bs, ps, lo)),
      CeilDiv(lo * bs, ps),
      if fillEnd > 0 then (fillEnd - 1) / ps else 0,
      if Straddles(bs, n, to) then to / ps else 1,
      if Straddles(bs, n, to) then LastPage(bs, ps, LastBefore(bs, to)) else 0)
  }

  /** Where page `p` lies relative to the marked blocks, read off the plan. */
  lemma PlanCases(bs: nat, ps: nat, n: nat, from: nat, to: nat, p: nat)
    requires bs > 0 && ps > 0 && from < to <= n * bs && (to % ps == 0 || to == n * bs)
    requires CeilDiv(from, bs) * bs < to && p < CeilDiv(n * bs, ps)
    ensures var plan := PlanRange(bs, ps, n, from, to);
      var lo, end := CeilDiv(from, bs), RangeEnd(bs, ps, n, to);
      if plan.fillFrom <= p <= plan.fillTo then lo * bs <= p * ps && p * ps + ps <= end
      else if p == plan.first then plan.firstCount == StartsOn(bs, ps, lo, p)
      else if plan.InTail(p) then end <= p * ps && p <= LastPage(bs, ps, LastBefore(bs, end))
      else p < plan.first || (end <= p * ps && LastPage(bs, ps, LastBefore(bs, end)) < p)
    ensures var plan := PlanRange(bs, ps, n, from, to);
      && plan.first == FirstPage(bs, ps, CeilDiv(from, bs))
      && (p == plan.first ==> plan.firstCount <= StartsOn(bs, ps, CeilDiv(from, bs), p))
      && (plan.InTail(p) ==>
        && p != plan.first && RangeEnd(bs, ps, n, to) <= p * ps
        && p <= LastPage(bs, ps, LastBefore(bs, RangeEnd(bs, ps, n, to))))
  {
    hide LastPage, CeilDiv, StartsOn;
    var plan := PlanRange(bs, ps, n, from, to);
    var lo, end := CeilDiv(from, bs), RangeEnd(bs, ps, n, to);
    CeilBounds(0, to, bs);
    FirstPageGeometry(bs, ps, 0, from, lo);
    LastBlockGeometry(bs, ps, n, to);
    RangeEndFacts(bs, ps, n, to);
    RangePages(bs, ps, n, lo, to, FillEnd(bs, n, to), p);
    AlignedStep(p, end, ps);
    FillOrFirst(bs, ps, lo, p);
  }

  /** A page whose first block starts at or before it is the first page or later. */
  lemma FillOrFirst(bs: nat, ps: nat, lo: nat, p: nat)
    requires bs > 0 && ps > 0
    ensures var f0 := FirstPage(bs, ps, lo);
      && (p < f0 ==> p * ps + ps <= lo * bs)
      && (f0 < p ==> lo * bs <= p * ps)
  {
    var f0 := FirstPage(bs, ps, lo);
    assert (p + 1) * ps == p * ps + ps;
    DivBounds(p + 1, lo * bs, ps);
    DivBounds(p, lo * bs, ps);
  }

  /** Range marking is right for one page. */
  lemma RangeOnPage(bs: nat, ps: nat, mask: nat, marked: set<nat>, n: nat, from: nat, to: nat, p: nat, c: nat)
    requires bs > 0 && ps > 0 && FullPagesBlockCountMax(bs, ps) <= mask
    requires CounterOk(bs, ps, mask, marked, p, c)
    requires from < to <= n * bs && (to % ps == 0 || to == n * bs)
    requires CeilDiv(from, bs) * bs < to && p < CeilDiv(n * bs, ps)
    requires marked !! RangeBlocks(bs, ps, n, from, to)
    ensures var plan := PlanRange(bs, ps, n, from, to);
      && CounterOk(bs, ps, mask, marked + RangeBlocks(bs, ps, n, from, to), p, plan.Apply(mask, p, c))
      && (p == plan.first ==> c + plan.firstCount <= mask)
      && (plan.InTail(p) ==> c < mask && p != plan.first)
  {
    hide CounterOk, LastPage, FullPagesBlockCountMax, BlocksOn, CeilDiv, PlanRange;
    var lo, end := CeilDiv(from, bs), RangeEnd(bs, ps, n, to);
    RangeEndFacts(bs, ps, n, to);
    PlanCases(bs, ps, n, from, to, p);
    MarkInterval(bs, ps, mask, marked, lo, end, p, c);
  }

  lemma RangeRow(bs: nat, ps: nat, mask: nat, off: nat, marked: set<nat>, row: seq<nat>, n: nat, from: nat, to: nat)
    requires bs > 0 && ps > 0 && FullPagesBlockCountMax(bs, ps) <= mask
    requires RowOk(bs, ps, mask, off, marked, row)
    requires from < to <= n * bs && (to % ps == 0 || to == n * bs)
    requires CeilDiv(from, bs) * bs < to && off + |row| <= CeilDiv(n * bs, ps)
    requires marked !! RangeBlocks(bs, ps, n, from, to)
    ensures var plan := PlanRange(bs, ps, n, from, to);
      && RowOk(bs, ps, mask, off, marked + RangeBlocks(bs, ps, n, from, to), plan.ApplyRow(mask, off, row))
      && forall j: nat | j < |row| ::
           && (off + j == plan.first ==> row[j] + plan.firstCount <= mask)
           && (plan.InTail(off + j) ==> row[j] < mask && off + j != plan.first)
  {
    hide CounterOk, FullPagesBlockCountMax, CeilDiv, RangeBlocks, PlanRange;
    var plan := PlanRange(bs, ps, n, from, to);
    forall j: nat | j < |row|
      ensures CounterOk(bs, ps, mask, marked + RangeBlocks(bs, ps, n, from, to), off + j,
                        plan.ApplyRow(mask, off, row)[j])
      ensures off + j == plan.first ==> row[j] + plan.firstCount <= mask
      ensures plan.InTail(off + j) ==> row[j] < mask && off + j != plan.first
    {
      RangeOnPage(bs, ps, mask, marked, n, from, to, off + j, row[j]);
    }
  }

  /** The addresses computed by markRangeAsAllCounted fall on the pages of the plan:
      the first page, ... */
  lemma RangeStart(bs: nat, ps: nat, n: nat, off: nat, from: nat, to: nat)
    requires bs > 0 && ps > 0 && off * ps <= from
    ensures RoundUp(from, bs) == CeilDiv(from, bs) * bs
    ensures RoundUp(from, bs) >= to ==> RangeBlocks(bs, ps, n, from, to) == {}
    ensures var plan, firstBlock := PlanRange(bs, ps, n, from, to), RoundUp(from, bs);
      var x := RoundDown(firstBlock, ps);
      && x <= firstBlock < x + ps
      && x / ps == plan.first == FirstPage(bs, ps, CeilDiv(from, bs)) >= off
      && (firstBlock != x ==> CeilDiv(x + ps - firstBlock, bs) == plan.firstCount > 0)
      && (firstBlock == x ==> plan.firstCount == 0)
      && var x1 := if firstBlock != x then RoundUp(x + 1, ps) else x;
      && x1 == plan.fillFrom * ps && x1 / ps == plan.fillFrom >= plan.first
      && (firstBlock == x ==> plan.fillFrom == plan.first)
  {
    hide CeilDiv, FirstPage, LastPage, FillEnd, Straddles;
    var lo := CeilDiv(from, bs);
    FirstPageGeometry(bs, ps, off, from, lo);
    AddMulDiv(0, CeilDiv(lo * bs, ps), ps);
  }

  /** ... and the last block and the end of the filling. */
  lemma RangeFinish(bs: nat, ps: nat, n: nat, off: nat, from: nat, to: nat)
    requires bs > 0 && ps > 0 && off * ps <= from < to <= n * bs
    requires to % ps == 0 || to == n * bs
    ensures var plan, y := PlanRange(bs, ps, n, from, to), RoundDown(to - 1, bs) + bs;
      var fillEnd := if y == n * bs then n * bs else to;
      && y > 0 && fillEnd > 0 && (fillEnd - 1) / ps == plan.fillTo
      && (plan.fillFrom * ps < fillEnd <==> plan.fillFrom <= plan.fillTo)
      && if y != n * bs && y != to then
           to / ps == plan.tailFrom >= off && (y - 1) / ps == plan.tailTo >= plan.tailFrom
         else plan.tailTo < plan.tailFrom
  {
    hide FirstPage, LastPage, StartsOn;
    var lo, fillEnd := CeilDiv(from, bs), FillEnd(bs, n, to);
    LastBlockGeometry(bs, ps, n, to);
    DivBounds(off, to, ps);
    DivBounds(CeilDiv(lo * bs, ps), fillEnd - 1, ps);
  }

  lemma FirstPageGeometry(bs: nat, ps: nat, off: nat, from: nat, lo: nat)
    requires bs > 0 && ps > 0 && off * ps <= from && lo == CeilDiv(from, bs)
    ensures var f0, f1 := FirstPage(bs, ps, lo), CeilDiv(lo * bs, ps);
      && f0 * ps / ps == f0 && off <= f0
      && RoundDown(lo * bs, ps) == f0 * ps
      && f0 * ps <= lo * bs < f0 * ps + ps
      && CeilDiv(f0 * ps + ps - lo * bs, bs) > 0
      && (lo * bs != f0 * ps ==> RoundUp(f0 * ps + 1, ps) == f0 * ps + ps && f1 == f0 + 1)
      && (lo * bs == f0 * ps ==> f1 == f0)
      && (f0 * ps + ps) / ps == f0 + 1
  {
    var f0 := FirstPage(bs, ps, lo);
    CeilFacts(from, bs);
    DivFacts(lo * bs, ps);
    assert (f0 + 1) * ps == f0 * ps + ps;
    assert (f0 - 1) * ps == f0 * ps - ps;
    DivBounds(off, lo * bs, ps);
    AddMulDiv(0, f0, ps);
    AddMulDiv(0, f0 + 1, ps);
    CeilBounds(0, f0 * ps + ps - lo * bs, bs);
    if lo * bs != f0 * ps {
      CeilUnique(f0 * ps + 1, ps, f0 + 1);
      CeilUnique(lo * bs, ps, f0 + 1);
    } else {
      CeilUnique(lo * bs, ps, f0);
    }
  }

  lemma LastBlockGeometry(bs: nat, ps: nat, n: nat, to: nat)
    requires bs > 0 && ps > 0 && 0 < to <= n * bs
    requires to % ps == 0 || to == n * bs
    ensures var hi := CeilDiv(to, bs);
      && hi > 0 && RoundDown(to - 1, bs) + bs == hi * bs && to <= hi * bs
      && (hi * bs == n * bs <==> hi == n)
      && (hi * bs - 1) / ps == LastPage(bs, ps, LastBefore(bs, to))
      && (hi != n && hi * bs != to ==> to / ps <= LastPage(bs, ps, LastBefore(bs, to)))
      && (hi != n && hi * bs == to ==> LastPage(bs, ps, LastBefore(bs, to)) < to / ps)
  {
    var hi := CeilDiv(to, bs);
    CeilFacts(to, bs);
    CeilBounds(0, to, bs);
    assert (hi - 1) * bs == hi * bs - bs;
    DivUnique(to - 1, bs, hi - 1);
    if hi * bs == n * bs {
      SameProduct(bs, hi, n);
    }
    RangeEndFacts(bs, ps, n, to);
    DivFacts(to, ps);
    DivBounds(to / ps, hi * bs - 1, ps);
  }

  lemma TrailingCount(bs: nat, ps: nat, n: nat, count: nat)
    requires bs > 0 && ps > 0
    requires n * bs <= RoundUp(n * bs, ps)
    requires count == (RoundUp(RoundUp(n * bs, ps) - n * bs, bs) + bs - 1) / bs
    ensures Trailing(bs, ps, n) == Interval(n, n + count)
  {
    var x := RoundUp(n * bs, ps) - n * bs;
    var q := CeilDiv(x, bs);
    CeilUnique(q * bs, bs, q);
    CeilFacts(x, bs);
    assert (q - 1) * bs == q * bs - bs;
    CeilShift(RoundUp(n * bs, ps), bs, n, q);
  }

  lemma LastBlock(bs: nat, n: nat)
    requires bs > 0 && n > 0
    ensures n * bs / bs == n && (n - 1) * bs + bs == n * bs
  {
    AddMulDiv(0, n, bs);
  }

  lemma TrailingRow(bs: nat, ps: nat, mask: nat, off: nat, marked: set<nat>, row: seq<nat>, n: nat,
                    index: int, count: nat)
    requires bs > 0 && ps > 0 && n > 0 && FullPagesBlockCountMax(bs, ps) <= mask
    requires RowOk(bs, ps, mask, off, marked, row) && marked !! Trailing(bs, ps, n)
    requires count > 0 && Trailing(bs, ps, n) == Interval(n, n + count)
    requires off + |row| == CeilDiv(n * bs, ps) && |row| > 0
    requires off + index == FirstPage(bs, ps, n)
    ensures 0 <= index < |row| && row[index] + count <= mask
    ensures var row': seq<nat> := row[index := row[index] + count];
      RowOk(bs, ps, mask, off, marked + Trailing(bs, ps, n), row')
  {
    hide CounterOk, LastPage, FirstPage, FullPagesBlockCountMax, CeilDiv, Trailing;
    TrailingPage(bs, ps, n, count);
    forall j: nat | j < |row|
      ensures j == index ==> row[j] + count <= mask
      ensures CounterOk(bs, ps, mask, marked + Trailing(bs, ps, n), off + j,
                        row[j] + if j == index then count else 0)
    {
      TrailingOnPage(bs, ps, mask, marked, n, count, off + j, row[j]);
    }
  }

  /** Pretend blocks exist only when the region ends inside its last page, and they
      start on that page. */
  lemma TrailingPage(bs: nat, ps: nat, n: nat, count: nat)
    requires bs > 0 && ps > 0 && n > 0
    requires count > 0 && Trailing(bs, ps, n) == Interval(n, n + count)
    ensures n * bs < RoundUp(n * bs, ps)
    ensures FirstPage(bs, ps, n) + 1 == CeilDiv(n * bs, ps)
    ensures CeilDiv(RoundUp(n * bs, ps), bs) == n + count
  {
    var end, last := RoundUp(n * bs, ps), CeilDiv(n * bs, ps) - 1;
    CeilFacts(n * bs, ps);
    assert (n - 1) * bs == n * bs - bs;
    assert n in Interval(n, n + count);
    if end == n * bs {
      CeilUnique(end, bs, n);
      assert false;
    }
    assert (last + 1) * ps == last * ps + ps;
    DivUnique(n * bs, ps, last);
    CeilTail(bs, n, end);
    SameInterval(n, CeilDiv(end, bs), n + count);
  }

  lemma TrailingOnPage(bs: nat, ps: nat, mask: nat, marked: set<nat>, n: nat, count: nat, p: nat, c: nat)
    requires bs > 0 && ps > 0 && n > 0 && FullPagesBlockCountMax(bs, ps) <= mask
    requires CounterOk(bs, ps, mask, marked, p, c) && marked !! Trailing(bs, ps, n)
    requires count > 0 && Trailing(bs, ps, n) == Interval(n, n + count)
    requires p < CeilDiv(n * bs, ps)
    ensures p == FirstPage(bs, ps, n) ==> c + count <= mask
    ensures CounterOk(bs, ps, mask, marked + Trailing(bs, ps, n), p,
                      c + if p == FirstPage(bs, ps, n) then count else 0)
  {
    hide CounterOk, LastPage, FirstPage, FullPagesBlockCountMax, CeilDiv;
    var end := RoundUp(n * bs, ps);
    TrailingPage(bs, ps, n, count);
    AddMulMod(0, CeilDiv(n * bs, ps), ps);
    MarkInterval(bs, ps, mask, marked, n, end, p, c);
    CeilTail(bs, n, end);
    var last := FirstPage(bs, ps, n);
    assert (last + 1) * ps == last * ps + ps;
  }

  lemma SameInterval(lo: nat, a: nat, b: nat)
    requires lo < a && lo < b && Interval(lo, a) == Interval(lo, b)
    ensures a == b
  {
    assert Max(a, b) - 1 in Interval(lo, Max(a, b));
  }

  lemma RealBlocksNotTrailing(bs: nat, ps: nat, ptrBytes: nat, regionSize: nat, ptrs: seq<nat>)
    requires bs > 0 && ps > 0 && regionSize % bs == 0
    requires ProperPointers(bs, ptrBytes, regionSize, ptrs)
    ensures BlockSet(bs, ptrBytes, ptrs) !! Trailing(bs, ps, regionSize / bs)
  {
    hide RoundUp, CeilDiv, BlockOf;
    forall x | x in ptrs ensures BlockOf(bs, ptrBytes, x) < regionSize / bs {
      BlockInRegion(bs, ptrBytes, regionSize, x);
    }
  }

  lemma BlockInRegion(bs: nat, ptrBytes: nat, regionSize: nat, x: nat)
    requires bs > 0 && regionSize % bs == 0 && x * ptrBytes < regionSize
    ensures BlockOf(bs, ptrBytes, x) < regionSize / bs
  {
    assert regionSize == (regionSize / bs) * bs;
    DivBounds(regionSize / bs, x * ptrBytes, bs);
  }

  /** A block that does not cross a page boundary ends on the page it starts on. */
  lemma WithinPage(bs: nat, ps: nat, b: nat)
    requires bs > 0 && ps > 0 && ps % bs == 0
    ensures FirstPage(bs, ps, b) == LastPage(bs, ps, b)
  {
    var q, f := ps / bs, FirstPage(bs, ps, b);
    assert ps == bs * q;
    DivFacts(b * bs, ps);
    assert (f + 1) * (bs * q) == bs * ((f + 1) * q);
    UnitGap(bs, b, (f + 1) * q);
    DivUnique(b * bs + bs - 1, ps, f);
  }

  lemma MaxFits(bs: nat, ps: nat)
    requires bs > 0 && 0 < ps < WORD_LIMIT
    ensures FullPagesBlockCountMax(bs, ps) < WORD_LIMIT
  {
    DivFacts(ps, bs);
    if bs > 1 {
      MulMono(2, bs, ps / bs);
    }
  }

  /** The decision for each page of one region: release it iff the region is not
      skipped and every block on the page is marked. */
  ghost function PageDecisions(bs: nat, ps: nat, off: nat, n: nat, marked: set<nat>, skip: bool): seq<bool>
    requires bs > 0
  {
    seq(n, j requires 0 <= j => !skip && PageFree(bs, ps, marked, off + j))
  }

  ghost function Decisions(bs: nat, ps: nat, off: nat, n: nat, marked: seq<set<nat>>, skip: seq<bool>): seq<bool>
    requires bs > 0 && |marked| == |skip|
  {
    if marked == [] then [] else
      var last := |marked| - 1;
      Decisions(bs, ps, off, n, marked[..last], skip[..last]) + PageDecisions(bs, ps, off, n, marked[last], skip[last])
  }

  /** Capping the counter of a free page keeps the counters right. */
  lemma RowsFilled(bs: nat, ps: nat, mask: nat, off: nat, marked: seq<set<nat>>, rows: seq<seq<nat>>, r: nat, j: nat)
    requires bs > 0 && RowsOk(bs, ps, mask, off, marked, rows) && r < |rows| == |marked| && j < |rows[r]|
    requires PageFree(bs, ps, marked[r], off + j)
    ensures RowsOk(bs, ps, mask, off, marked, SetCount(rows, r, j, mask))
  {
    hide PageFree;
    CounterFill(bs, ps, mask, marked[r], off + j);
  }

  /** One page: the counter against the number of blocks on the page. */
  method DecidePage(context: PageReleaseContext, tracker: FreePagesRangeTracker, r: nat, j: nat, blocksPerPage: nat)
    requires context.Valid() && context.pageMap.IsAllocated() && tracker.Valid()
    requires r < context.numberOfRegions && j < context.pagesCount
    requires blocksPerPage == BlockCount(context.blockSize, context.pageSize, context.releasePageOffset + j)
    modifies context.pageMap`counts, context.pageMap.data, tracker
    ensures context.Valid() && tracker.Valid()
    ensures tracker.decisions == old(tracker.decisions)
      + [PageFree(context.blockSize, context.pageSize, context.marked[r], context.releasePageOffset + j)]
  {
    hide RowsOk, PageFree, BlockCount, RegionPageMap.Valid, FreePagesRangeTracker.Valid;
    hide SameBlockCountPerPage, FullPagesBlockCountMax;
    var pageMap := context.pageMap;
    ghost var bs, ps, off := context.blockSize, context.pageSize, context.releasePageOffset;
    ghost var rows := pageMap.counts;
    CounterOfRows(bs, ps, pageMap.counterMask, off, context.marked, rows, r, j);
    CounterDecides(bs, ps, pageMap.counterMask, context.marked[r], off + j, rows[r][j]);
    var canRelease := pageMap.UpdateAsAllCountedIf(r, j, blocksPerPage);
    if canRelease {
      RowsFilled(bs, ps, pageMap.counterMask, off, context.marked, rows, r, j);
    }
    tracker.ProcessNextPage(canRelease);
  }

  lemma CounterOfRows(bs: nat, ps: nat, mask: nat, off: nat, marked: seq<set<nat>>, rows: seq<seq<nat>>, r: nat, j: nat)
    requires bs > 0 && RowsOk(bs, ps, mask, off, marked, rows) && r < |rows| == |marked| && j < |rows[r]|
    ensures CounterOk(bs, ps, mask, marked[r], off + j, rows[r][j])
  {
  }

  /** Fast path: every page carries the same number of blocks. */
  method DecideRegionSameCount(context: PageReleaseContext, tracker: FreePagesRangeTracker, r: nat)
    requires context.Valid() && context.pageMap.IsAllocated() && tracker.Valid()
    requires r < context.numberOfRegions && context.sameBlockCountPerPage
    modifies context.pageMap`counts, context.pageMap.data, tracker
    ensures context.Valid() && tracker.Valid()
    ensures tracker.decisions == old(tracker.decisions) + PageDecisions(context.blockSize, context.pageSize,
      context.releasePageOffset, context.pagesCount, context.marked[r], false)
  {
    hide RowsOk, PageFree, BlockCount, RegionPageMap.Valid, FreePagesRangeTracker.Valid;
    ghost var want := PageDecisions(context.blockSize, context.pageSize,
      context.releasePageOffset, context.pagesCount, context.marked[r], false);
    var j := 0;
    while j < context.pagesCount
      invariant j <= context.pagesCount
      invariant context.Valid() && tracker.Valid() && context.pageMap.data == old(context.pageMap.data)
      invariant context.pageMap.IsAllocated()
      invariant tracker.decisions == old(tracker.decisions) + want[..j]
    {
      BlocksPerPageCorrect(context.blockSize, context.pageSize, context.releasePageOffset + j);
      DecidePage(context, tracker, r, j, context.fullPagesBlockCountMax);
      assert want[..j + 1] == want[..j] + [want[j]];
      j := j + 1;
    }
    assert want[..j] == want;
  }

  /** Slow path: the number of blocks on each page is found by walking the block
      boundaries from the first page on. */
  method DecideRegionWalking(context: PageReleaseContext, tracker: FreePagesRangeTracker, r: nat)
    requires context.Valid() && context.pageMap.IsAllocated() && tracker.Valid()
    requires r < context.numberOfRegions && !context.sameBlockCountPerPage
    modifies context.pageMap`counts, context.pageMap.data, tracker
    ensures context.Valid() && tracker.Valid()
    ensures tracker.decisions == old(tracker.decisions) + PageDecisions(context.blockSize, context.pageSize,
      context.releasePageOffset, context.pagesCount, context.marked[r], false)
  {
    hide RowsOk, PageFree, BlockCount, RegionPageMap.Valid, FreePagesRangeTracker.Valid, RoundUp, WalkCount, WalkNext;
    var bs, ps := context.blockSize, context.pageSize;
    ghost var off := context.releasePageOffset;
    ghost var want := PageDecisions(bs, ps, off, context.pagesCount, context.marked[r], false);
    var pn := if bs < ps then ps / bs else 1;
    var pnc := pn * bs;
    var prevPageBoundary := 0;
    var currentBoundary := 0;
    if context.releasePageOffset > 0 {
      prevPageBoundary := context.releasePageOffset * ps;
      currentBoundary := RoundUp(prevPageBoundary, bs);
    } else {
      RoundUpZero(bs);
    }
    var j := 0;
    while j < context.pagesCount
      invariant j <= context.pagesCount
      invariant context.Valid() && tracker.Valid() && context.pageMap.data == old(context.pageMap.data)
      invariant context.pageMap.IsAllocated()
      invariant prevPageBoundary == (off + j) * ps && currentBoundary == RoundUp(prevPageBoundary, bs)
      invariant tracker.decisions == old(tracker.decisions) + want[..j]
    {
      WalkStep(bs, ps, off + j);
      var pageBoundary := prevPageBoundary + ps;
      var blocksPerPage;
      blocksPerPage, currentBoundary := WalkPage(bs, ps, pn, pnc, prevPageBoundary, currentBoundary);
      assert (off + j + 1) * ps == (off + j) * ps + ps;
      prevPageBoundary := pageBoundary;
      DecidePage(context, tracker, r, j, blocksPerPage);
      assert want[..j + 1] == want[..j] + [want[j]];
      j := j + 1;
    }
    assert want[..j] == want;
  }

  /** One page of the incremental walk. */
  method WalkPage(bs: nat, ps: nat, pn: nat, pnc: nat, prevPageBoundary: nat, boundary: nat)
    returns (blocksPerPage: nat, currentBoundary: nat)
    requires bs > 0 && ps > 0 && pn == (if bs < ps then ps / bs else 1) && pnc == pn * bs
    ensures blocksPerPage == WalkCount(bs, ps, prevPageBoundary, boundary)
    ensures currentBoundary == WalkNext(bs, ps, prevPageBoundary, boundary)
  {
    var pageBoundary := prevPageBoundary + ps;
    blocksPerPage, currentBoundary := pn, boundary;
    if currentBoundary < pageBoundary {
      if currentBoundary > prevPageBoundary {
        blocksPerPage := blocksPerPage + 1;
      }
      currentBoundary := currentBoundary + pnc;
      if currentBoundary < pageBoundary {
        blocksPerPage := blocksPerPage + 1;
        currentBoundary := currentBoundary + bs;
      }
    }
  }

  lemma RoundUpZero(bs: nat)
    requires bs > 0
    ensures RoundUp(0, bs) == 0
  {
    CeilUnique(0, bs, 0);
  }

  /** Releases exactly the pages whose blocks are all marked, as maximal ranges. */
  method ReleaseFreeMemoryToOS(context: PageReleaseContext, skipRegion: seq<bool>)
    returns (released: seq<(nat, nat)>, ghost pages: seq<PageRange>)
    requires context.Valid() && context.pageMap.IsAllocated() && |skipRegion| == context.numberOfRegions
    modifies context.pageMap`counts, context.pageMap.data
    ensures context.Valid()
    ensures MaximalRuns(Decisions(context.blockSize, context.pageSize, context.releasePageOffset,
      context.pagesCount, context.marked, skipRegion), pages)
    ensures |released| == |pages| && forall k | 0 <= k < |pages| ::
      released[k] == (pages[k].from * context.pageSize, pages[k].to * context.pageSize)
  {
    hide RowsOk, PageFree, BlockCount, RegionPageMap.Valid, FreePagesRangeTracker.Valid, PageDecisions;
    hide MaximalRuns, SameBlockCountPerPage, FullPagesBlockCountMax;
    var tracker := new FreePagesRangeTracker(context.pageSize);
    ghost var bs, ps, off, n := context.blockSize, context.pageSize, context.releasePageOffset, context.pagesCount;
    ghost var marked := context.marked;
    var r := 0;
    while r < context.numberOfRegions
      invariant r <= context.numberOfRegions
      invariant context.Valid() && tracker.Valid() && context.pageMap.data == old(context.pageMap.data)
      invariant context.pageMap.IsAllocated()
      invariant tracker.decisions == Decisions(bs, ps, off, n, marked[..r], skipRegion[..r])
    {
      assert marked[..r + 1][..r] == marked[..r] && skipRegion[..r + 1][..r] == skipRegion[..r];
      if skipRegion[r] {
        SkippedRegion(bs, ps, off, n, marked[r]);
        tracker.SkipPages(context.pagesCount);
      } else if context.sameBlockCountPerPage {
        DecideRegionSameCount(context, tracker, r);
      } else {
        DecideRegionWalking(context, tracker, r);
      }
      r := r + 1;
    }
    assert marked[..r] == marked && skipRegion[..r] == skipRegion;
    tracker.Finish();
    released, pages := tracker.released, tracker.pages;
  }

  lemma SkippedRegion(bs: nat, ps: nat, off: nat, n: nat, marked: set<nat>)
    requires bs > 0
    ensures PageDecisions(bs, ps, off, n, marked, true) == seq(n, _ => false)
  {
  }
}

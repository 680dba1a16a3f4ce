/** The grid of equally sized blocks laid over equally sized pages, and the block
    count per page that the release code derives from the two sizes.  Block `b`
    covers [b * bs, (b + 1) * bs) and page `p` covers [p * ps, (p + 1) * ps), both
    relative to the start of the region. */
module BlockGrid {
  import opened Arithmetic

  predicate Touches(bs: nat, ps: nat, b: nat, p: nat) {
    b * bs < p * ps + ps && p * ps < b * bs + bs
  }

  /** First block on page `p`, and the block after the last one. */
  function FirstBlock(bs: nat, ps: nat, p: nat): nat
    requires bs > 0
  {
    p * ps / bs
  }

  function EndBlock(bs: nat, ps: nat, p: nat): nat
    requires bs > 0
  {
    CeilDiv(p * ps + ps, bs)
  }

  lemma TouchesIff(bs: nat, ps: nat, b: nat, p: nat)
    requires bs > 0
    ensures Touches(bs, ps, b, p) <==> FirstBlock(bs, ps, p) <= b < EndBlock(bs, ps, p)
  {
    assert (b + 1) * bs == b * bs + bs;
    DivBounds(b + 1, p * ps, bs);
    CeilBounds(b, p * ps + ps, bs);
  }

  /** A block touches exactly the pages of its first to its last byte. */
  lemma TouchedPages(bs: nat, ps: nat, b: nat, p: nat)
    requires bs > 0 && ps > 0
    ensures Touches(bs, ps, b, p) <==> b * bs / ps <= p <= (b * bs + bs - 1) / ps
    ensures b * bs / ps <= (b * bs + bs - 1) / ps
  {
    assert (p + 1) * ps == p * ps + ps;
    DivBounds(p + 1, b * bs, ps);
    DivBounds(p, b * bs + bs - 1, ps);
    DivFacts(b * bs, ps);
    DivBounds(b * bs / ps, b * bs + bs - 1, ps);
  }

  function BlocksOn(bs: nat, ps: nat, p: nat): (blocks: set<nat>)
    requires bs > 0
    ensures forall b: nat :: b in blocks <==> Touches(bs, ps, b, p)
  {
    assert forall b: nat {:trigger Touches(bs, ps, b, p)} ::
      Touches(bs, ps, b, p) <==> FirstBlock(bs, ps, p) <= b < EndBlock(bs, ps, p) by {
      forall b: nat { TouchesIff(bs, ps, b, p); }
    }
    Interval(FirstBlock(bs, ps, p), EndBlock(bs, ps, p))
  }

  function Interval(lo: nat, hi: nat): (r: set<nat>)
    ensures forall b: nat :: b in r <==> lo <= b < hi
  {
    if hi <= lo then {} else Interval(lo, hi - 1) + {hi - 1}
  }

  lemma {:induction false} IntervalSize(lo: nat, hi: nat)
    requires lo <= hi
    ensures |Interval(lo, hi)| == hi - lo
  {
    if lo == hi {
    } else {
      IntervalSize(lo, hi - 1);
      assert hi - 1 !in Interval(lo, hi - 1);
      assert Interval(lo, hi) == Interval(lo, hi - 1) + {hi - 1};
    }
  }

  function BlockCount(bs: nat, ps: nat, p: nat): nat
    requires bs > 0
  {
    |BlocksOn(bs, ps, p)|
  }

  lemma BlockCountIs(bs: nat, ps: nat, p: nat)
    requires bs > 0 && ps > 0
    ensures BlockCount(bs, ps, p) == EndBlock(bs, ps, p) - FirstBlock(bs, ps, p) > 0
  {
    DivFacts(p * ps, bs);
    CeilBounds(FirstBlock(bs, ps, p), p * ps + ps, bs);
    IntervalSize(FirstBlock(bs, ps, p), EndBlock(bs, ps, p));
  }

  /** The block count when page `p` starts `a` bytes into its first block. */
  lemma CountFromOffset(bs: nat, ps: nat, p: nat, q: nat)
    requires bs > 0 && ps > 0
    requires var a := p * ps - FirstBlock(bs, ps, p) * bs;
      q * bs - bs < a + ps <= q * bs
    ensures BlockCount(bs, ps, p) == q
  {
    BlockCountIs(bs, ps, p);
    CeilShift(p * ps + ps, bs, FirstBlock(bs, ps, p), q);
  }

  lemma CeilShift(x: nat, bs: nat, f: nat, q: nat)
    requires bs > 0 && f * bs + q * bs - bs < x <= f * bs + q * bs
    ensures CeilDiv(x, bs) == f + q
  {
    assert (f + q) * bs == f * bs + q * bs;
    assert (f + q - 1) * bs == f * bs + q * bs - bs;
    CeilUnique(x, bs, f + q);
  }

  lemma CountBound(bs: nat, ps: nat, p: nat, q: nat)
    requires bs > 0 && ps > 0
    requires var a := p * ps - FirstBlock(bs, ps, p) * bs;
      a + ps <= q * bs
    ensures BlockCount(bs, ps, p) <= q
  {
    BlockCountIs(bs, ps, p);
    CeilShiftBound(p * ps + ps, bs, FirstBlock(bs, ps, p), q);
  }

  lemma CeilShiftBound(x: nat, bs: nat, f: nat, q: nat)
    requires bs > 0 && x <= f * bs + q * bs
    ensures CeilDiv(x, bs) <= f + q
  {
    assert (f + q) * bs == f * bs + q * bs;
    CeilBounds(f + q, x, bs);
  }

  /** PageReleaseContext's constructor: does every page carry the same number of
      blocks, and what is the largest number a page can carry? */
  predicate SameBlockCountPerPage(bs: nat, ps: nat)
    requires bs > 0 && ps > 0
  {
    if bs <= ps then
      ps % bs == 0 || bs % (ps % bs) == 0
    else
      bs % ps == 0
  }

  function FullPagesBlockCountMax(bs: nat, ps: nat): nat
    requires bs > 0 && ps > 0
  {
    if bs <= ps then
      if ps % bs == 0 then ps / bs
      else if bs % (ps % bs) == 0 then ps / bs + 1
      else ps / bs + 2
    else
      if bs % ps == 0 then 1 else 2
  }

  /** A distance that is a multiple of `unit` and below a multiple of `unit` is at
      least one unit below it. */
  lemma UnitGap(unit: nat, x: int, m: int)
    requires unit > 0 && unit * x < unit * m
    ensures unit * x + unit <= unit * m
  {
    MulCancel(x, m, unit);
    MulMono(x + 1, m, unit);
  }

  /** The offset of page `p` into its first block is below the block size, and a
      multiple of every unit that divides both sizes. */
  lemma PageOffset(bs: nat, ps: nat, p: nat, unit: nat, m: nat, n: nat)
    requires bs > 0 && unit > 0 && bs == unit * m && ps == unit * n
    ensures 0 <= p * ps - FirstBlock(bs, ps, p) * bs
    ensures p * ps - FirstBlock(bs, ps, p) * bs + unit <= bs
  {
    var f := FirstBlock(bs, ps, p);
    DivFacts(p * ps, bs);
    assert (f + 1) * bs == f * bs + bs;
    assert p * (unit * n) == unit * (p * n);
    assert f * (unit * m) == unit * (f * m);
    var x := p * n - f * m;
    assert unit * x == p * ps - f * bs;
    UnitGap(unit, x, m);
  }

  /** The constructor's classification is right for every page. */
  lemma BlocksPerPageCorrect(bs: nat, ps: nat, p: nat)
    requires bs > 0 && ps > 0
    ensures BlockCount(bs, ps, p) <= FullPagesBlockCountMax(bs, ps)
    ensures SameBlockCountPerPage(bs, ps) ==> BlockCount(bs, ps, p) == FullPagesBlockCountMax(bs, ps)
  {
    var q, r := ps / bs, ps % bs;
    assert ps == q * bs + r;
    PageOffset(bs, ps, p, 1, bs, ps);
    if bs > ps {
      if bs % ps == 0 {
        PageOffset(bs, ps, p, ps, bs / ps, 1);
        CountFromOffset(bs, ps, p, 1);
      } else {
        CountBound(bs, ps, p, 2);
      }
    } else if r == 0 {
      PageOffset(bs, ps, p, bs, 1, q);
      CountFromOffset(bs, ps, p, q);
    } else if bs % r == 0 {
      SharedUnit(bs, ps, p, q, r);
    } else {
      assert (q + 2) * bs == q * bs + 2 * bs;
      CountBound(bs, ps, p, q + 2);
    }
  }

  lemma SharedUnit(bs: nat, ps: nat, p: nat, q: nat, r: nat)
    requires 0 < r < bs && ps == q * bs + r && bs % r == 0
    ensures BlockCount(bs, ps, p) == q + 1
  {
    var m := bs / r;
    assert bs == r * m;
    assert q * (r * m) + r == r * (q * m + 1);
    PageOffset(bs, ps, p, r, m, q * m + 1);
    assert (q + 1) * bs == q * bs + bs;
    CountFromOffset(bs, ps, p, q + 1);
  }

  /** One page of the slow path of releaseFreeMemoryToOS. */
  function WalkCount(bs: nat, ps: nat, prev: nat, cur: nat): nat
    requires bs > 0 && ps > 0
  {
    var pn := if bs < ps then ps / bs else 1;
    if cur < prev + ps then
      (if cur > prev then pn + 1 else pn) + (if cur + pn * bs < prev + ps then 1 else 0)
    else pn
  }

  function WalkNext(bs: nat, ps: nat, prev: nat, cur: nat): nat
    requires bs > 0 && ps > 0
  {
    var pn := if bs < ps then ps / bs else 1;
    if cur < prev + ps then
      cur + pn * bs + (if cur + pn * bs < prev + ps then bs else 0)
    else cur
  }

  /** The walk keeps `cur` at the first block boundary not before the page, and
      counts the blocks of each page exactly, from any starting page. */
  lemma WalkStep(bs: nat, ps: nat, p: nat)
    requires bs > 0 && ps > 0 && !SameBlockCountPerPage(bs, ps)
    ensures WalkCount(bs, ps, p * ps, RoundUp(p * ps, bs)) == BlockCount(bs, ps, p)
    ensures WalkNext(bs, ps, p * ps, RoundUp(p * ps, bs)) == RoundUp(p * ps + ps, bs)
  {
    BlockCountIs(bs, ps, p);
    WalkAt(bs, ps, p * ps);
  }

  lemma WalkAt(bs: nat, ps: nat, prev: nat)
    requires bs > 0 && ps > 0 && bs != ps
    ensures WalkCount(bs, ps, prev, RoundUp(prev, bs)) == CeilDiv(prev + ps, bs) - prev / bs
    ensures WalkNext(bs, ps, prev, RoundUp(prev, bs)) == RoundUp(prev + ps, bs)
  {
    var first := CeilDiv(prev, bs);
    CeilFacts(prev, bs);
    assert (first - 1) * bs == first * bs - bs;
    DivUnique(prev, bs, if first * bs > prev then first - 1 else first);
    if bs < ps {
      WalkSmallBlocks(bs, ps, prev, first);
    } else {
      WalkLargeBlocks(bs, ps, prev, first);
    }
  }

  lemma WalkSmallBlocks(bs: nat, ps: nat, prev: nat, first: nat)
    requires 0 < bs < ps && prev <= first * bs < prev + bs
    ensures var starts := CeilDiv(prev + ps, bs) - first;
      && WalkCount(bs, ps, prev, first * bs) == starts + (if first * bs > prev then 1 else 0)
      && WalkNext(bs, ps, prev, first * bs) == RoundUp(prev + ps, bs)
  {
    var cur, q, r := first * bs, ps / bs, ps % bs;
    assert ps == q * bs + r;
    var n := if cur + q * bs < prev + ps then q + 1 else q;
    assert (q + 1) * bs == q * bs + bs;
    Starts(bs, prev, ps, first, n);
  }

  lemma WalkLargeBlocks(bs: nat, ps: nat, prev: nat, first: nat)
    requires 0 < ps < bs && prev <= first * bs < prev + bs
    ensures var starts := CeilDiv(prev + ps, bs) - first;
      && WalkCount(bs, ps, prev, first * bs) == starts + (if first * bs > prev then 1 else 0)
      && WalkNext(bs, ps, prev, first * bs) == RoundUp(prev + ps, bs)
  {
    var n := if first * bs < prev + ps then 1 else 0;
    Starts(bs, prev, ps, first, n);
  }

  /** `n` blocks start on the page when the n-th boundary after the first one is
      the first at or past its end. */
  lemma Starts(bs: nat, prev: nat, ps: nat, first: nat, n: nat)
    requires bs > 0
    requires first * bs + n * bs - bs < prev + ps <= first * bs + n * bs
    ensures CeilDiv(prev + ps, bs) == first + n
    ensures RoundUp(prev + ps, bs) == first * bs + n * bs
  {
    CeilShift(prev + ps, bs, first, n);
    assert (first + n) * bs == first * bs + n * bs;
  }
}

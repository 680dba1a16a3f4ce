/** Where the ranges of a page release lie in memory (release.h RegionReleaseRecorder). */
module ReleaseRecorder {

  import opened Arithmetic
  import opened BlockGrid
  import opened PageRanges

  /** releasePageRangeToOS for each range [from, to), which counts from `base` + `offset`:
      the addresses given back, as pairs of the first and the one behind the last. */
  function Recorded(base: nat, offset: nat, ranges: seq<(nat, nat)>): (given: seq<(nat, nat)>)
    ensures |given| == |ranges|
    ensures forall k | 0 <= k < |ranges| :: given[k] == (base + offset + ranges[k].0, base + offset + ranges[k].1)
  {
    seq(|ranges|, k requires 0 <= k < |ranges| => (base + offset + ranges[k].0, base + offset + ranges[k].1))
  }

  /** Each range of addresses is a range of whole pages, `first` pages into the region. */
  ghost predicate PagesAt(given: seq<(nat, nat)>, base: nat, ps: nat, first: nat, pages: seq<PageRange>) {
    |given| == |pages| && Separated(pages) && forall k | 0 <= k < |pages| ::
      given[k] == (base + (first + pages[k].from) * ps, base + (first + pages[k].to) * ps)
  }

  lemma RecordedPages(base: nat, ps: nat, first: nat, ranges: seq<(nat, nat)>, pages: seq<PageRange>)
    requires |ranges| == |pages| && Separated(pages)
    requires forall k | 0 <= k < |pages| :: ranges[k] == (pages[k].from * ps, pages[k].to * ps)
    ensures first * ps >= 0 && PagesAt(Recorded(base, first * ps, ranges), base, ps, first, pages)
  {
    forall k | 0 <= k < |pages|
      ensures first * ps + pages[k].from * ps == (first + pages[k].from) * ps
      ensures first * ps + pages[k].to * ps == (first + pages[k].to) * ps
    {
    }
  }

  /** The page `p` of the region that begins at `base` is given back. */
  ghost predicate GivenBack(given: seq<(nat, nat)>, base: nat, ps: nat, p: nat) {
    exists k :: 0 <= k < |given| && given[k].0 <= base + p * ps && base + p * ps + ps <= given[k].1
  }

  lemma GivenBackIff(given: seq<(nat, nat)>, base: nat, ps: nat, first: nat, pages: seq<PageRange>, p: nat)
    requires ps > 0 && PagesAt(given, base, ps, first, pages)
    ensures GivenBack(given, base, ps, p) <==> InSome(pages, p - first)
  {
    forall k | 0 <= k < |pages|
      ensures pages[k].from <= p - first < pages[k].to <==>
        given[k].0 <= base + p * ps && base + p * ps + ps <= given[k].1
    {
      assert (p + 1) * ps == p * ps + ps;
      MulOrder(first + pages[k].from, p, ps);
      MulOrder(p + 1, first + pages[k].to, ps);
    }
  }

  lemma MulOrder(a: int, b: int, d: nat)
    requires d > 0
    ensures a <= b <==> a * d <= b * d
  {
    if a <= b {
      MulMono(a, b, d);
    } else {
      MulMono(b + 1, a, d);
    }
  }

  /** No byte of [start, start + size) is given back. */
  predicate Spared(given: seq<(nat, nat)>, start: nat, size: nat) {
    forall k | 0 <= k < |given| :: start + size <= given[k].0 || given[k].1 <= start
  }

  /** A block none of whose pages is among the ranges is spared. */
  lemma UntouchedIsSpared(given: seq<(nat, nat)>, base: nat, ps: nat, first: nat, pages: seq<PageRange>,
                          bs: nat, b: nat)
    requires bs > 0 && ps > 0 && PagesAt(given, base, ps, first, pages)
    requires forall q: nat | InSome(pages, q) :: !Touches(bs, ps, b, first + q)
    ensures b * bs >= 0 && Spared(given, base + b * bs, bs)
  {
    forall k | 0 <= k < |given| ensures base + b * bs + bs <= given[k].0 || given[k].1 <= base + b * bs {
      if given[k].0 < base + b * bs + bs && base + b * bs < given[k].1 {
        var q := CommonPage(ps, first, pages[k].from, pages[k].to, bs, b);
        var given := InSome(pages, q);
        assert false;
      }
    }
  }

  /** A block that overlaps a run of pages touches one of them. */
  lemma CommonPage(ps: nat, first: nat, from: nat, to: nat, bs: nat, b: nat) returns (q: nat)
    requires ps > 0 && bs > 0 && from < to
    requires (first + from) * ps < b * bs + bs && b * bs < (first + to) * ps
    ensures from <= q < to && Touches(bs, ps, b, first + q)
  {
    var p := b * bs / ps;
    DivFacts(b * bs, ps);
    assert (p + 1) * ps == p * ps + ps;
    DivBounds(first + to, b * bs, ps);
    if p < first + from {
      MulMono(p + 1, first + from, ps);
      q := from;
    } else {
      q := p - first;
    }
  }
}

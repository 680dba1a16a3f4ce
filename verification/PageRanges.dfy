/** FreePagesRangeTracker of release.h: turns a stream of per-page decisions into
    the page ranges handed to the release recorder. */
module PageRanges {

  datatype PageRange = PageRange(from: nat, to: nat)

  ghost predicate InSome(ranges: seq<PageRange>, p: int) {
    exists k :: 0 <= k < |ranges| && ranges[k].from <= p < ranges[k].to
  }

  /** Ascending, pairwise separated ranges of at least one page. */
  ghost predicate Separated(ranges: seq<PageRange>) {
    && (forall k | 0 <= k < |ranges| :: ranges[k].from < ranges[k].to)
    && (forall i, j | 0 <= i < j < |ranges| :: ranges[i].to < ranges[j].from)
  }

  /** The ranges are exactly the maximal runs of `true` in `decisions`. */
  ghost predicate MaximalRuns(decisions: seq<bool>, ranges: seq<PageRange>) {
    && Separated(ranges)
    && forall p: nat :: InSome(ranges, p) <==> p < |decisions| && decisions[p]
  }

  /** Such ranges are maximal: the pages next to a range are not released. */
  lemma RunsAreMaximal(decisions: seq<bool>, ranges: seq<PageRange>, k: nat)
    requires MaximalRuns(decisions, ranges) && k < |ranges|
    ensures ranges[k].to <= |decisions|
    ensures ranges[k].from > 0 ==> !decisions[ranges[k].from - 1]
    ensures ranges[k].to < |decisions| ==> !decisions[ranges[k].to]
  {
    assert InSome(ranges, ranges[k].to - 1);
    assert !InSome(ranges, ranges[k].to) by {
      forall j | 0 <= j < |ranges| ensures !(ranges[j].from <= ranges[k].to < ranges[j].to) {
      }
    }
    assert !InSome(ranges, ranges[k].from - 1) by {
      forall j | 0 <= j < |ranges| ensures !(ranges[j].from <= ranges[k].from - 1 < ranges[j].to) {
      }
    }
  }

  /** ... and they are determined by the decisions. */
  lemma {:induction false} RunsAreUnique(decisions: seq<bool>, a: seq<PageRange>, b: seq<PageRange>)
    requires MaximalRuns(decisions, a) && MaximalRuns(decisions, b)
    ensures a == b
    decreases |a|
  {
    assert a != [] ==> InSome(a, a[0].from);
    assert b != [] ==> InSome(b, b[0].from);
    if a == [] || b == [] {
    } else {
      LastRunsAgree(decisions, a, b);
      var last := a[|a| - 1];
      var rest := seq(last.from, i requires 0 <= i < last.from => i < |decisions| && decisions[i]);
      DropLastRun(decisions, rest, a);
      DropLastRun(decisions, rest, b);
      RunsAreUnique(rest, a[..|a| - 1], b[..|b| - 1]);
      assert a == a[..|a| - 1] + [last] && b == b[..|b| - 1] + [last];
    }
  }

  lemma LastRunsAgree(decisions: seq<bool>, a: seq<PageRange>, b: seq<PageRange>)
    requires MaximalRuns(decisions, a) && MaximalRuns(decisions, b) && a != [] && b != []
    ensures a[|a| - 1] == b[|b| - 1]
  {
    LastRunEnds(decisions, a, b);
    LastRunEnds(decisions, b, a);
    LastRunStarts(decisions, a, b);
    LastRunStarts(decisions, b, a);
  }

  lemma LastRunEnds(decisions: seq<bool>, a: seq<PageRange>, b: seq<PageRange>)
    requires MaximalRuns(decisions, a) && MaximalRuns(decisions, b) && a != [] && b != []
    ensures a[|a| - 1].to <= b[|b| - 1].to
  {
    var x := a[|a| - 1];
    assert InSome(a, x.to - 1);
    var j :| 0 <= j < |b| && b[j].from <= x.to - 1 < b[j].to;
  }

  lemma LastRunStarts(decisions: seq<bool>, a: seq<PageRange>, b: seq<PageRange>)
    requires MaximalRuns(decisions, a) && MaximalRuns(decisions, b) && a != [] && b != []
    requires a[|a| - 1].to == b[|b| - 1].to
    ensures b[|b| - 1].from <= a[|a| - 1].from
  {
    var x, y := a[|a| - 1], b[|b| - 1];
    if x.from < y.from {
      assert InSome(a, y.from - 1);
      RunsAreMaximal(decisions, b, |b| - 1);
      assert false;
    }
  }

  lemma DropLastRun(decisions: seq<bool>, rest: seq<bool>, a: seq<PageRange>)
    requires MaximalRuns(decisions, a) && a != []
    requires |rest| == a[|a| - 1].from
    requires forall i | 0 <= i < |rest| :: rest[i] == (i < |decisions| && decisions[i])
    ensures MaximalRuns(rest, a[..|a| - 1])
  {
    var a' := a[..|a| - 1];
    forall p: nat ensures InSome(a', p) <==> p < |rest| && rest[p] {
      if InSome(a', p) {
        var k :| 0 <= k < |a'| && a'[k].from <= p < a'[k].to;
        assert a[k] == a'[k];
        assert InSome(a, p);
      }
      if p < |rest| && rest[p] {
        assert InSome(a, p);
        var k :| 0 <= k < |a| && a[k].from <= p < a[k].to;
        assert a'[k] == a[k];
      }
    }
  }

  class FreePagesRangeTracker {
    const pageSize: nat
    var inRange: bool
    var currentPage: nat
    var currentRangeStatePage: nat
    /** Byte ranges handed to the recorder so far. */
    var released: seq<(nat, nat)>
    ghost var pages: seq<PageRange>
    ghost var decisions: seq<bool>

    ghost predicate Recorded()
      reads this
    {
      |released| == |pages| && forall k | 0 <= k < |pages| ::
        released[k] == (pages[k].from * pageSize, pages[k].to * pageSize)
    }

    /** Everything before the open range is recorded as maximal runs. */
    ghost predicate Valid()
      reads this
    {
      var closed := if inRange then currentRangeStatePage else currentPage;
      && Recorded()
      && currentPage == |decisions|
      && (inRange ==> closed < currentPage && forall p | closed <= p < currentPage :: decisions[p])
      && MaximalRuns(decisions[..closed], pages)
      && forall k | 0 <= k < |pages| :: pages[k].to < closed
    }

    constructor (pageSize: nat)
      ensures Valid() && decisions == [] && released == []
      ensures this.pageSize == pageSize
    {
      this.pageSize := pageSize;
      inRange, currentPage, currentRangeStatePage := false, 0, 0;
      released, pages, decisions := [], [], [];
    }

    /** Records the open range, if any.  Until another page is skipped or kept, the
        last range may touch the current page. */
    method CloseOpenedRange()
      requires Valid()
      modifies this
      ensures !inRange && currentPage == old(currentPage) && decisions == old(decisions)
      ensures Recorded() && MaximalRuns(decisions, pages)
    {
      if inRange {
        released := released + [(currentRangeStatePage * pageSize, currentPage * pageSize)];
        Extend(decisions, currentRangeStatePage, pages);
        pages := pages + [PageRange(currentRangeStatePage, currentPage)];
        inRange := false;
      }
      assert decisions[..|decisions|] == decisions;
    }

    method ProcessNextPage(release: bool)
      requires Valid()
      modifies this
      ensures Valid() && decisions == old(decisions) + [release]
    {
      if release {
        if !inRange {
          currentRangeStatePage := currentPage;
          inRange := true;
        }
        assert (decisions + [release])[..currentRangeStatePage] == decisions[..currentRangeStatePage];
      } else {
        CloseOpenedRange();
        AppendKept(decisions, 1, pages);
        assert decisions + [release] == decisions + seq(1, _ => false);
        RunsWithin(decisions, pages);
      }
      decisions := decisions + [release];
      currentPage := currentPage + 1;
      assert decisions[..|decisions|] == decisions;
    }

    method SkipPages(n: nat)
      requires Valid() && n > 0
      modifies this
      ensures Valid() && decisions == old(decisions) + seq(n, _ => false)
    {
      CloseOpenedRange();
      AppendKept(decisions, n, pages);
      RunsWithin(decisions, pages);
      decisions := decisions + seq(n, _ => false);
      currentPage := currentPage + n;
      assert decisions[..|decisions|] == decisions;
    }

    method Finish()
      requires Valid()
      modifies this
      ensures decisions == old(decisions)
      ensures Recorded() && MaximalRuns(decisions, pages)
    {
      CloseOpenedRange();
    }
  }

  lemma RunsWithin(decisions: seq<bool>, pages: seq<PageRange>)
    requires MaximalRuns(decisions, pages)
    ensures forall k | 0 <= k < |pages| :: pages[k].to <= |decisions|
  {
    forall k | 0 <= k < |pages| ensures pages[k].to <= |decisions| {
      RunsAreMaximal(decisions, pages, k);
    }
  }

  lemma AppendKept(decisions: seq<bool>, n: nat, pages: seq<PageRange>)
    requires MaximalRuns(decisions, pages)
    ensures MaximalRuns(decisions + seq(n, _ => false), pages)
  {
  }

  /** Closing a run that reaches the end of the decisions. */
  lemma Extend(decisions: seq<bool>, closed: nat, pages: seq<PageRange>)
    requires closed < |decisions| && MaximalRuns(decisions[..closed], pages)
    requires forall p | closed <= p < |decisions| :: decisions[p]
    requires forall k | 0 <= k < |pages| :: pages[k].to < closed
    ensures MaximalRuns(decisions, pages + [PageRange(closed, |decisions|)])
  {
    var pages' := pages + [PageRange(closed, |decisions|)];
    forall p: nat ensures InSome(pages', p) <==> p < |decisions| && decisions[p] {
      assert pages'[|pages|] == PageRange(closed, |decisions|);
      if InSome(pages', p) {
        var k :| 0 <= k < |pages'| && pages'[k].from <= p < pages'[k].to;
        if k < |pages| {
          assert InSome(pages, p);
        }
      }
      if p < closed && decisions[p] {
        assert InSome(pages, p);
        var k :| 0 <= k < |pages| && pages[k].from <= p < pages[k].to;
        assert pages'[k] == pages[k];
      }
    }
  }
}

/** What one page counter means: the number of marked blocks on the page, or the
    all-counted value once every block on the page is marked. */
module PageMarks {
  import opened BlockGrid

  function MarkedOn(bs: nat, ps: nat, marked: set<nat>, p: nat): nat
    requires bs > 0
  {
    |marked * BlocksOn(bs, ps, p)|
  }

  ghost predicate PageFree(bs: nat, ps: nat, marked: set<nat>, p: nat)
    requires bs > 0
  {
    BlocksOn(bs, ps, p) <= marked
  }

  ghost predicate CounterOk(bs: nat, ps: nat, mask: nat, marked: set<nat>, p: nat, c: nat)
    requires bs > 0
  {
    c == MarkedOn(bs, ps, marked, p) || (c == mask && PageFree(bs, ps, marked, p))
  }

  lemma SubsetSize(a: set<nat>, b: set<nat>)
    ensures |a * b| <= |b|
    ensures |a * b| == |b| <==> b <= a
  {
    assert b == (a * b) + (b - a);
    assert (a * b) !! (b - a);
    assert |b| == |a * b| + |b - a|;
    if b <= a {
      assert b - a == {};
    } else {
      var x :| x in b && x !in a;
      assert x in b - a;
    }
  }

  /** The test made on a counter decides exactly whether every block on the page is
      marked: neither a partial count nor a capped one is mistaken for it. */
  lemma CounterDecides(bs: nat, ps: nat, mask: nat, marked: set<nat>, p: nat, c: nat)
    requires bs > 0 && ps > 0 && FullPagesBlockCountMax(bs, ps) <= mask
    requires CounterOk(bs, ps, mask, marked, p, c)
    ensures c in {mask, BlockCount(bs, ps, p)} <==> PageFree(bs, ps, marked, p)
  {
    BlocksPerPageCorrect(bs, ps, p);
    SubsetSize(marked, BlocksOn(bs, ps, p));
  }

  /** Marking blocks that do not touch the page leaves its counter right. */
  lemma CounterUntouched(bs: nat, ps: nat, mask: nat, marked: set<nat>, more: set<nat>, p: nat, c: nat)
    requires bs > 0 && CounterOk(bs, ps, mask, marked, p, c)
    requires more !! BlocksOn(bs, ps, p)
    ensures CounterOk(bs, ps, mask, marked + more, p, c)
  {
    assert (marked + more) * BlocksOn(bs, ps, p) == marked * BlocksOn(bs, ps, p);
  }

  /** Marking new blocks means adding their number, which never overflows the
      counter and never meets an all-counted page. */
  lemma CounterAdd(bs: nat, ps: nat, mask: nat, marked: set<nat>, more: set<nat>, p: nat, c: nat)
    requires bs > 0 && ps > 0 && FullPagesBlockCountMax(bs, ps) <= mask
    requires CounterOk(bs, ps, mask, marked, p, c)
    requires marked !! more && more * BlocksOn(bs, ps, p) != {}
    ensures c == MarkedOn(bs, ps, marked, p) < mask
    ensures c + MarkedOn(bs, ps, more, p) <= mask
    ensures CounterOk(bs, ps, mask, marked + more, p, c + MarkedOn(bs, ps, more, p))
  {
    var on := BlocksOn(bs, ps, p);
    var b :| b in more * on;
    assert b in on && b !in marked;
    BlocksPerPageCorrect(bs, ps, p);
    SubsetSize(marked + more, on);
    assert (marked + more) * on == marked * on + more * on;
    assert marked * on !! more * on;
    assert |more * on| > 0;
  }

  lemma CounterFill(bs: nat, ps: nat, mask: nat, marked: set<nat>, p: nat)
    requires bs > 0 && PageFree(bs, ps, marked, p)
    ensures CounterOk(bs, ps, mask, marked, p, mask)
  {
  }
}

/** What a shared arena means, apart from how its free list is linked: page ranges,
    the free list as a sequence, outstanding ranges, and the two ways a state changes
    (shared_arena_linux.cpp store and retrieve). */
module ArenaModel {

  /** Pages [off, off + pages) of one arena's data area. */
  datatype Range = Range(off: nat, pages: nat) {
    function End(): nat { off + pages }

    predicate Has(p: nat) { off <= p < off + pages }

    predicate Apart(other: Range) { End() <= other.off || other.End() <= off }
  }

  /** `live` are the ranges handed out and not yet stored back; `stranded` are those taken
      by a retrieve whose header placement then failed. */
  datatype ArenaState = ArenaState(total: nat, bump: nat, free: seq<Range>, live: set<Range>, stranded: set<Range>)

  predicate InFree(free: seq<Range>, p: nat) {
    exists i | 0 <= i < |free| :: free[i].Has(p)
  }

  predicate InHeld(held: set<Range>, p: nat) {
    exists r | r in held :: r.Has(p)
  }

  /** Address order; neighbours may touch. */
  predicate Ordered(free: seq<Range>) {
    && (forall i | 0 <= i < |free| :: free[i].pages > 0)
    && (forall i, j | 0 <= i < j < |free| :: free[i].End() <= free[j].off)
  }

  /** Address order with at least one page between neighbours. */
  predicate Gapped(free: seq<Range>) {
    && (forall i | 0 <= i < |free| :: free[i].pages > 0)
    && (forall i, j | 0 <= i < j < |free| :: free[i].End() < free[j].off)
  }

  predicate HeldApart(held: set<Range>) {
    && (forall r | r in held :: r.pages > 0)
    && (forall r, s | r in held && s in held && r != s :: r.Apart(s))
  }

  predicate FreeApart(free: seq<Range>, held: set<Range>) {
    forall i, r | 0 <= i < |free| && r in held :: free[i].Apart(r)
  }

  /** Every page below the bump offset is in a free block, outstanding or stranded, and
      no page is in two of them; no two free blocks touch. */
  ghost predicate Inv(s: ArenaState) {
    && s.bump <= s.total
    && Gapped(s.free)
    && HeldApart(s.live + s.stranded)
    && s.live !! s.stranded
    && FreeApart(s.free, s.live + s.stranded)
    && forall p: nat :: p < s.bump <==> (InFree(s.free, p) || InHeld(s.live, p) || InHeld(s.stranded, p))
  }

  /** The partition, page by page. */
  lemma PagesPartitioned(s: ArenaState, p: nat)
    requires Inv(s)
    ensures p < s.bump ==> InFree(s.free, p) || InHeld(s.live, p) || InHeld(s.stranded, p)
    ensures p >= s.bump ==> !InFree(s.free, p) && !InHeld(s.live, p) && !InHeld(s.stranded, p)
    ensures !(InFree(s.free, p) && InHeld(s.live, p))
    ensures !(InFree(s.free, p) && InHeld(s.stranded, p))
    ensures !(InHeld(s.live, p) && InHeld(s.stranded, p))
  {
    var held := s.live + s.stranded;
    if InFree(s.free, p) {
      var i :| 0 <= i < |s.free| && s.free[i].Has(p);
      assert forall r | r in held :: !r.Has(p) by {
        forall r | r in held ensures !r.Has(p) {
          assert s.free[i].Apart(r);
        }
      }
    }
    if InHeld(s.live, p) && InHeld(s.stranded, p) {
      var r :| r in s.live && r.Has(p);
      var t :| t in s.stranded && t.Has(p);
      assert r in held && t in held && r != t;
      var apart := r.Apart(t);
      assert false;
    }
  }

  /** Gapped lists are canonical: the covered pages determine the list, so naming the
      pages a list covers says everything about it. */
  lemma {:induction false} GappedIsCanonical(f: seq<Range>, g: seq<Range>)
    requires Gapped(f) && Gapped(g)
    requires forall p: nat :: InFree(f, p) <==> InFree(g, p)
    ensures f == g
    decreases |f|
  {
    if f == [] {
      if g != [] {
        assert g[0].Has(g[0].off);
        assert InFree(g, g[0].off);
        assert false;
      }
    } else {
      assert f[0].Has(f[0].off);
      assert InFree(f, f[0].off) && InFree(g, f[0].off);
      FirstBlockAgrees(f, g);
      FirstBlockAgrees(g, f);
      FirstEndAgrees(f, g);
      FirstEndAgrees(g, f);
      assert f[0] == g[0];
      forall p: nat ensures InFree(f[1..], p) <==> InFree(g[1..], p) {
        TailCovers(f, p);
        TailCovers(g, p);
      }
      GappedIsCanonical(f[1..], g[1..]);
      assert f == [f[0]] + f[1..] && g == [g[0]] + g[1..];
    }
  }

  lemma FirstBlockAgrees(f: seq<Range>, g: seq<Range>)
    requires Gapped(f) && Gapped(g) && f != [] && g != []
    requires forall p: nat :: InFree(f, p) <==> InFree(g, p)
    ensures f[0].off >= g[0].off
  {
    assert f[0].Has(f[0].off);
    assert InFree(f, f[0].off) && InFree(g, f[0].off);
    var j :| 0 <= j < |g| && g[j].Has(f[0].off);
    assert j > 0 ==> g[0].End() < g[j].off;
  }

  lemma FirstEndAgrees(f: seq<Range>, g: seq<Range>)
    requires Gapped(f) && Gapped(g) && f != [] && g != [] && f[0].off == g[0].off
    requires forall p: nat :: InFree(f, p) <==> InFree(g, p)
    ensures f[0].End() <= g[0].End()
  {
    if f[0].End() > g[0].End() {
      assert f[0].Has(g[0].End());
      assert InFree(f, g[0].End());
      FirstEndIsNotCovered(g);
      assert false;
    }
  }

  lemma FirstEndIsNotCovered(g: seq<Range>)
    requires Gapped(g) && g != []
    ensures !InFree(g, g[0].End())
  {
    forall j | 0 <= j < |g| ensures !g[j].Has(g[0].End()) {
      assert j > 0 ==> g[0].End() < g[j].off;
    }
  }

  lemma TailCovers(f: seq<Range>, p: nat)
    requires Gapped(f) && f != []
    ensures InFree(f[1..], p) <==> (InFree(f, p) && !f[0].Has(p))
  {
    if InFree(f[1..], p) {
      var i :| 0 <= i < |f[1..]| && f[1..][i].Has(p);
      assert f[i + 1].Has(p) && f[0].End() < f[i + 1].off;
    }
    if InFree(f, p) && !f[0].Has(p) {
      var i :| 0 <= i < |f| && f[i].Has(p);
      assert f[1..][i - 1].Has(p);
    }
  }

  /** The first block of minimal size among those with at least `need` pages. */
  predicate IsBestFit(free: seq<Range>, need: nat, k: nat) {
    && k < |free| && free[k].pages >= need
    && (forall j | 0 <= j < |free| && free[j].pages >= need :: free[k].pages <= free[j].pages)
    && (forall j | 0 <= j < k && free[j].pages >= need :: free[k].pages < free[j].pages)
  }

  predicate HasFit(free: seq<Range>, need: nat) {
    exists i | 0 <= i < |free| :: free[i].pages >= need
  }

  /** The free list once its block `k` has given up its last `need` pages. */
  function CutTail(free: seq<Range>, k: nat, need: nat): seq<Range>
    requires k < |free| && need <= free[k].pages
  {
    if free[k].pages == need then free[..k] + free[k + 1..]
    else free[k := Range(free[k].off, free[k].pages - need)]
  }

  /** Taking `need` pages out of the free list, or failing that above the bump offset. */
  ghost predicate Takes(free: seq<Range>, bump: nat, total: nat, need: nat,
                        free': seq<Range>, bump': nat, r: Range) {
    r.pages == need &&
    if HasFit(free, need) then
      && bump' == bump
      && exists k: nat :: IsBestFit(free, need, k) && r.End() == free[k].End() && free' == CutTail(free, k, need)
    else
      free' == free && r.off == bump && bump' == bump + need <= total
  }

  /** Giving `r` back: the free list again has no two neighbours touching and covers
      exactly the pages of `r` in addition. */
  ghost predicate Gives(free: seq<Range>, r: Range, free': seq<Range>) {
    && Gapped(free')
    && forall p: nat :: InFree(free', p) <==> (InFree(free, p) || r.Has(p))
  }

  lemma GivesIsDeterministic(free: seq<Range>, r: Range, f: seq<Range>, g: seq<Range>)
    requires Gives(free, r, f) && Gives(free, r, g)
    ensures f == g
  {
    GappedIsCanonical(f, g);
  }

  /** The three ways the books change: a range is handed out, is lost to a failed
      placement, or comes back. */
  ghost predicate Hands(s: ArenaState, s': ArenaState, need: nat, r: Range) {
    && Takes(s.free, s.bump, s.total, need, s'.free, s'.bump, r)
    && s' == s.(free := s'.free, bump := s'.bump, live := s.live + {r})
  }

  ghost predicate Strands(s: ArenaState, s': ArenaState, need: nat, r: Range) {
    && Takes(s.free, s.bump, s.total, need, s'.free, s'.bump, r)
    && s' == s.(free := s'.free, bump := s'.bump, stranded := s.stranded + {r})
  }

  ghost predicate Returns(s: ArenaState, s': ArenaState, r: Range) {
    && r in s.live && Gives(s.free, r, s'.free)
    && s' == s.(free := s'.free, live := s.live - {r})
  }

  predicate CanTake(s: ArenaState, need: nat) {
    HasFit(s.free, need) || s.bump + need <= s.total
  }

  // ------------------------------------------------------------------ taking

  lemma AroundBlock(free: seq<Range>, k: nat)
    requires Gapped(free) && k < |free|
    ensures forall j | 0 <= j < k :: free[j].End() < free[k].off
    ensures forall j | k < j < |free| :: free[k].End() < free[j].off
  {
  }

  lemma CutTailCovers(free: seq<Range>, k: nat, need: nat, p: nat)
    requires Gapped(free) && k < |free| && 0 < need <= free[k].pages
    ensures var r := Range(free[k].End() - need, need);
      InFree(CutTail(free, k, need), p) <==> (InFree(free, p) && !r.Has(p))
  {
    hide Gapped, CutTail;
    AroundBlock(free, k);
    var r := Range(free[k].End() - need, need);
    var cut := CutTail(free, k, need);
    CutTailAt(free, k, need);
    if InFree(cut, p) {
      var i :| 0 <= i < |cut| && cut[i].Has(p);
      var j := if free[k].pages == need && i >= k then i + 1 else i;
      assert free[j].Has(p);
    }
    if InFree(free, p) && !r.Has(p) {
      var j :| 0 <= j < |free| && free[j].Has(p);
      assert cut[if free[k].pages == need && j > k then j - 1 else j].Has(p);
    }
  }

  /** The blocks of the list after a cut, by position. */
  lemma CutTailAt(free: seq<Range>, k: nat, need: nat)
    requires k < |free| && 0 < need <= free[k].pages
    ensures
      var cut := CutTail(free, k, need);
      && |cut| == (if free[k].pages == need then |free| - 1 else |free|)
      && (forall i | 0 <= i < |cut| && i < k :: cut[i] == free[i])
      && (free[k].pages != need ==> cut[k] == Range(free[k].off, free[k].pages - need))
      && (forall i | 0 <= i < |cut| && free[k].pages != need && i > k :: cut[i] == free[i])
      && (forall i | 0 <= i < |cut| && free[k].pages == need && i >= k :: cut[i] == free[i + 1])
  {
  }

  lemma CutTailGapped(free: seq<Range>, k: nat, need: nat)
    requires Gapped(free) && k < |free| && 0 < need <= free[k].pages
    ensures Gapped(CutTail(free, k, need))
  {
    var cut := CutTail(free, k, need);
    if free[k].pages == need {
      forall i, j | 0 <= i < j < |cut| ensures cut[i].End() < cut[j].off {
        var i', j' := if i < k then i else i + 1, if j < k then j else j + 1;
        assert cut[i] == free[i'] && cut[j] == free[j'];
      }
    }
  }

  lemma CutTailApart(free: seq<Range>, k: nat, need: nat, held: set<Range>)
    requires Gapped(free) && k < |free| && 0 < need <= free[k].pages && FreeApart(free, held)
    ensures var r := Range(free[k].End() - need, need);
      FreeApart(CutTail(free, k, need), held + {r})
  {
    var r := Range(free[k].End() - need, need);
    var cut := CutTail(free, k, need);
    forall i, h | 0 <= i < |cut| && h in held + {r} ensures cut[i].Apart(h) {
      var j := if free[k].pages == need && i >= k then i + 1 else i;
      if h in held {
        assert free[j].Apart(h);
      } else if j < k {
        assert free[j].End() < free[k].off;
      } else if j > k {
        assert free[k].End() < free[j].off;
      }
    }
  }

  /** The range taken was no one's: it overlaps nothing handed out or stranded, and
      every page of it was in a free block or above the bump offset. */
  lemma TakenIsFresh(s: ArenaState, need: nat, free': seq<Range>, bump': nat, r: Range)
    requires Inv(s) && need > 0 && Takes(s.free, s.bump, s.total, need, free', bump', r)
    ensures r.pages == need && r.End() <= bump' <= s.total && s.bump <= bump'
    ensures forall h | h in s.live + s.stranded :: r.Apart(h)
    ensures forall p: nat | r.Has(p) :: InFree(s.free, p) || p >= s.bump
    ensures FreeApart(free', s.live + s.stranded + {r}) && Gapped(free')
    ensures forall p: nat :: (InFree(free', p) || r.Has(p)) <==> (InFree(s.free, p) || s.bump <= p < bump')
  {
    hide Gapped, HeldApart, FreeApart, HasFit, CutTail, Inv;
    BumpInside(s);
    if HasFit(s.free, need) {
      var k: nat :| IsBestFit(s.free, need, k) && r.End() == s.free[k].End() && free' == CutTail(s.free, k, need);
      CutIsFresh(s, need, k, r);
    } else {
      BumpIsFresh(s, r);
    }
  }

  lemma BumpInside(s: ArenaState)
    requires Inv(s)
    ensures s.bump <= s.total && Gapped(s.free)
  {
  }

  lemma CutIsFresh(s: ArenaState, need: nat, k: nat, r: Range)
    requires Inv(s) && k < |s.free| && 0 < need <= s.free[k].pages
    requires r == Range(s.free[k].End() - need, need)
    ensures r.End() <= s.bump
    ensures forall h | h in s.live + s.stranded :: r.Apart(h)
    ensures forall p: nat | r.Has(p) :: InFree(s.free, p)
    ensures var cut := CutTail(s.free, k, need);
      && FreeApart(cut, s.live + s.stranded + {r}) && Gapped(cut)
      && forall p: nat :: (InFree(cut, p) || r.Has(p)) <==> InFree(s.free, p)
  {
    hide Gapped, HeldApart;
    var held := s.live + s.stranded;
    CutTailGapped(s.free, k, need);
    CutTailApart(s.free, k, need, held);
    var last := s.free[k].End() - 1;
    assert s.free[k].Has(last);
    assert InFree(s.free, last);
    forall h | h in held ensures r.Apart(h) {
      assert s.free[k].Apart(h);
    }
    var cut := CutTail(s.free, k, need);
    forall p: nat
      ensures (InFree(cut, p) || r.Has(p)) <==> InFree(s.free, p)
      ensures r.Has(p) ==> InFree(s.free, p)
    {
      hide CutTail;
      CutTailCovers(s.free, k, need, p);
      if r.Has(p) {
        assert s.free[k].Has(p);
      }
    }
  }

  lemma BumpIsFresh(s: ArenaState, r: Range)
    requires Inv(s) && r.off == s.bump && r.pages > 0
    ensures forall h | h in s.live + s.stranded :: r.Apart(h)
    ensures FreeApart(s.free, s.live + s.stranded + {r})
  {
    hide HeldApart;
    var held := s.live + s.stranded;
    forall h | h in held ensures r.Apart(h) {
      BelowBump(s, h);
    }
    forall i, h | 0 <= i < |s.free| && h in held + {r} ensures s.free[i].Apart(h) {
      var last := s.free[i].End() - 1;
      assert s.free[i].Has(last);
      assert InFree(s.free, last);
    }
  }

  lemma BelowBump(s: ArenaState, h: Range)
    requires Inv(s) && h in s.live + s.stranded
    ensures h.pages > 0 && h.End() <= s.bump
  {
    var last := h.End() - 1;
    assert h.pages > 0;
    assert h.Has(last);
    if h in s.live {
      assert InHeld(s.live, last);
    } else {
      assert InHeld(s.stranded, last);
    }
  }

  /** A retrieve that succeeds, or that strands its pages, keeps the invariant. */
  lemma TakeKeepsInv(s: ArenaState, need: nat, free': seq<Range>, bump': nat, r: Range)
    requires Inv(s) && need > 0 && Takes(s.free, s.bump, s.total, need, free', bump', r)
    ensures Inv(s.(free := free', bump := bump', live := s.live + {r}))
    ensures Inv(s.(free := free', bump := bump', stranded := s.stranded + {r}))
  {
    hide Gapped, FreeApart, Takes;
    TakenIsFresh(s, need, free', bump', r);
    var held := s.live + s.stranded;
    assert (s.live + {r}) + s.stranded == held + {r};
    assert s.live + (s.stranded + {r}) == held + {r};
    forall a, b | a in held + {r} && b in held + {r} && a != b ensures a.Apart(b) {
    }
    assert HeldApart(held + {r});
    assert r !in held by {
      if r in held {
        var apart := r.Apart(r);
        assert false;
      }
    }
    forall p: nat
      ensures InHeld(s.live + {r}, p) <==> (InHeld(s.live, p) || r.Has(p))
      ensures InHeld(s.stranded + {r}, p) <==> (InHeld(s.stranded, p) || r.Has(p))
    {
      HeldPlus(s.live, r, p);
      HeldPlus(s.stranded, r, p);
    }
  }

  lemma HeldPlus(held: set<Range>, r: Range, p: nat)
    ensures InHeld(held + {r}, p) <==> (InHeld(held, p) || r.Has(p))
  {
    if InHeld(held, p) {
      var h :| h in held && h.Has(p);
      assert h in held + {r};
    }
    if r.Has(p) {
      assert r in held + {r};
    }
  }

  // ------------------------------------------------------------------ giving back

  lemma HeldMinus(held: set<Range>, r: Range, p: nat)
    requires r in held && HeldApart(held)
    ensures InHeld(held - {r}, p) <==> (InHeld(held, p) && !r.Has(p))
  {
    if InHeld(held - {r}, p) {
      var h :| h in held - {r} && h.Has(p);
      assert h.Apart(r);
    }
    if InHeld(held, p) && !r.Has(p) {
      var h :| h in held && h.Has(p);
      assert h in held - {r};
    }
  }

  /** A store keeps the invariant. */
  lemma GiveKeepsInv(s: ArenaState, r: Range, free': seq<Range>)
    requires Inv(s) && r in s.live && Gives(s.free, r, free')
    ensures Inv(s.(free := free', live := s.live - {r}))
  {
    hide Gapped;
    var held := s.live + s.stranded;
    assert HeldApart(s.live);
    forall p: nat ensures InHeld(s.live - {r}, p) <==> (InHeld(s.live, p) && !r.Has(p)) {
      HeldMinus(s.live, r, p);
    }
    forall p: nat | r.Has(p) ensures InHeld(s.live, p) {
    }
    assert (s.live - {r}) + s.stranded == held - {r};
    forall i, h | 0 <= i < |free'| && h in held - {r} ensures free'[i].Apart(h) {
      GivenBlockApart(s, r, free', i, h);
    }
    assert FreeApart(free', held - {r});
    assert HeldApart(held - {r});
  }

  lemma GivenBlockApart(s: ArenaState, r: Range, free': seq<Range>, i: nat, h: Range)
    requires Inv(s) && r in s.live && Gives(s.free, r, free')
    requires i < |free'| && h in s.live + s.stranded && h != r
    ensures free'[i].Apart(h)
  {
    if !free'[i].Apart(h) {
      BelowBump(s, h);
      var p := if free'[i].off < h.off then h.off else free'[i].off;
      assert free'[i].Has(p) && h.Has(p);
      assert InFree(free', p);
      if InFree(s.free, p) {
        var j :| 0 <= j < |s.free| && s.free[j].Has(p);
        var apart := s.free[j].Apart(h);
        assert false;
      } else {
        assert r.Has(p) && r in s.live + s.stranded;
        var apart := r.Apart(h);
        assert false;
      }
    }
  }

  /** Handing out a range and taking it straight back puts the free list back as it was;
      a range from above the bump offset joins the list instead. */
  lemma HandThenReturn(s: ArenaState, s1: ArenaState, s2: ArenaState, need: nat, r: Range)
    requires Inv(s) && need > 0 && Hands(s, s1, need, r) && Returns(s1, s2, r)
    ensures s2.live == s.live && s2.stranded == s.stranded
    ensures HasFit(s.free, need) ==> s2 == s
    ensures !HasFit(s.free, need) ==> s2.bump == s.bump + need && Gives(s.free, r, s2.free)
  {
    hide Gapped, FreeApart, HeldApart, InFree;
    TakenIsFresh(s, need, s1.free, s1.bump, r);
    assert r !in s.live by {
      if r in s.live {
        var apart := r.Apart(r);
        assert false;
      }
    }
    if HasFit(s.free, need) {
      GappedIsCanonical(s2.free, s.free);
    }
  }
}

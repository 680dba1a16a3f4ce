/** Coalescing on a free list kept in address order: where a block goes in, joining it
    with a touching neighbour, and why the result is the gapped list of all pages
    (shared_arena_linux.cpp store). */
module FreeBlockList {

  import opened ArenaModel

  /** The place of `off` in address order. */
  predicate IsPlace(free: seq<Range>, off: nat, k: nat) {
    && k <= |free|
    && (forall i | 0 <= i < k :: free[i].off < off)
    && (forall i | k <= i < |free| :: off < free[i].off)
  }

  function InsertAt(free: seq<Range>, k: nat, r: Range): seq<Range>
    requires k <= |free|
  {
    free[..k] + [r] + free[k..]
  }

  function Join(free: seq<Range>, i: nat): seq<Range>
    requires i + 1 < |free|
  {
    free[..i] + [Range(free[i].off, free[i].pages + free[i + 1].pages)] + free[i + 2..]
  }

  predicate Touch(free: seq<Range>, i: nat)
    requires i + 1 < |free|
  {
    free[i].End() == free[i + 1].off
  }

  function MergeNext(free: seq<Range>, k: nat): seq<Range> {
    if k + 1 < |free| && Touch(free, k) then Join(free, k) else free
  }

  function MergePrevious(free: seq<Range>, k: nat): seq<Range> {
    if 0 < k < |free| && Touch(free, k - 1) then Join(free, k - 1) else free
  }

  function Coalesced(free: seq<Range>, k: nat, r: Range): seq<Range>
    requires k <= |free|
  {
    MergePrevious(MergeNext(InsertAt(free, k, r), k), k)
  }

  predicate ApartFromAll(free: seq<Range>, r: Range) {
    forall i | 0 <= i < |free| :: free[i].Apart(r)
  }

  /** In address order, and apart at every boundary but those before and after `k`
      that are allowed to touch. */
  predicate GappedBut(free: seq<Range>, k: nat, before: bool, after: bool) {
    && Ordered(free)
    && forall i, j | 0 <= i < j < |free| && free[i].End() == free[j].off ::
         j == i + 1 && ((before && j == k) || (after && i == k))
  }

  /** Apart blocks lie wholly on their side of the place. */
  lemma PlaceSplits(free: seq<Range>, k: nat, r: Range)
    requires Gapped(free) && IsPlace(free, r.off, k) && r.pages > 0 && ApartFromAll(free, r)
    ensures forall i | 0 <= i < k :: free[i].End() <= r.off
    ensures forall i | k <= i < |free| :: r.End() <= free[i].off
    ensures forall i | 0 <= i < k - 1 :: free[i].End() < r.off
    ensures forall i | k < i < |free| :: r.End() < free[i].off
  {
    forall i | 0 <= i < |free| ensures if i < k then free[i].End() <= r.off else r.End() <= free[i].off {
      assert free[i].Apart(r);
    }
    forall i | 0 <= i < k - 1 ensures free[i].End() < r.off {
      assert free[i].End() < free[k - 1].off;
    }
    forall i | k < i < |free| ensures r.End() < free[i].off {
      assert free[k].End() < free[i].off;
    }
  }

  lemma InsertOrdered(free: seq<Range>, k: nat, r: Range)
    requires Gapped(free) && IsPlace(free, r.off, k) && r.pages > 0 && ApartFromAll(free, r)
    ensures GappedBut(InsertAt(free, k, r), k, true, true)
  {
    var f := InsertAt(free, k, r);
    PlaceSplits(free, k, r);
    assert f[k] == r;
    assert forall i | 0 <= i < k :: f[i] == free[i];
    assert forall i | k < i < |f| :: f[i] == free[i - 1];
  }

  lemma JoinGapped(free: seq<Range>, i: nat, k: nat, before: bool, after: bool)
    requires i + 1 < |free| && GappedBut(free, k, before, after) && Touch(free, i)
    ensures i == k ==> GappedBut(Join(free, i), k, before, false)
    ensures i + 1 == k && !after ==> GappedBut(Join(free, i), i, false, false)
  {
    var f := Join(free, i);
    forall a, b | 0 <= a < b < |f|
      ensures f[a].End() <= f[b].off
      ensures f[a].End() == f[b].off ==> b == a + 1
      ensures i == k && f[a].End() == f[b].off ==> before && b == k
      ensures i + 1 == k && !after ==> f[a].End() != f[b].off
    {
      var a', b' := if a < i then a else a + 1, if b <= i then b else b + 1;
      assert f[a].End() == free[a'].End();
      assert f[b].off == free[b'].off;
    }
  }

  lemma MergeNextGapped(free: seq<Range>, k: nat)
    requires k < |free| && GappedBut(free, k, true, true)
    ensures GappedBut(MergeNext(free, k), k, true, false)
    ensures k < |MergeNext(free, k)|
  {
    if k + 1 < |free| && Touch(free, k) {
      JoinGapped(free, k, k, true, true);
    }
  }

  lemma MergePreviousGapped(free: seq<Range>, k: nat)
    requires k < |free| && GappedBut(free, k, true, false)
    ensures Gapped(MergePrevious(free, k))
  {
    if k > 0 && Touch(free, k - 1) {
      JoinGapped(free, k - 1, k, true, false);
    }
  }

  lemma InsertCovers(free: seq<Range>, k: nat, r: Range, p: nat)
    requires k <= |free|
    ensures InFree(InsertAt(free, k, r), p) <==> (InFree(free, p) || r.Has(p))
  {
    var f := InsertAt(free, k, r);
    if r.Has(p) {
      assert f[k].Has(p);
    }
    if InFree(free, p) {
      var i :| 0 <= i < |free| && free[i].Has(p);
      assert f[if i < k then i else i + 1].Has(p);
    }
    if InFree(f, p) && !r.Has(p) {
      var i :| 0 <= i < |f| && f[i].Has(p);
      assert free[if i < k then i else i - 1].Has(p);
    }
  }

  lemma JoinCovers(free: seq<Range>, i: nat, p: nat)
    requires i + 1 < |free| && Touch(free, i)
    ensures InFree(Join(free, i), p) <==> InFree(free, p)
  {
    var f := Join(free, i);
    if InFree(free, p) {
      var j :| 0 <= j < |free| && free[j].Has(p);
      assert f[if j <= i then j else j - 1].Has(p);
    }
    if InFree(f, p) {
      var j :| 0 <= j < |f| && f[j].Has(p);
      if j == i {
        assert free[i].Has(p) || free[i + 1].Has(p);
      } else {
        assert free[if j < i then j else j + 1].Has(p);
      }
    }
  }

  /** Inserting a block at its place and joining it with its two neighbours where they
      touch gives back exactly its pages. */
  lemma CoalescedGives(free: seq<Range>, k: nat, r: Range)
    requires Gapped(free) && IsPlace(free, r.off, k) && r.pages > 0 && ApartFromAll(free, r)
    ensures Gives(free, r, Coalesced(free, k, r))
  {
    hide Gapped, GappedBut;
    var f1 := InsertAt(free, k, r);
    var f2 := MergeNext(f1, k);
    InsertOrdered(free, k, r);
    MergeNextGapped(f1, k);
    MergePreviousGapped(f2, k);
    forall p: nat ensures InFree(Coalesced(free, k, r), p) <==> (InFree(free, p) || r.Has(p)) {
      hide InFree;
      InsertCovers(free, k, r, p);
      if k + 1 < |f1| && Touch(f1, k) {
        JoinCovers(f1, k, p);
      }
      if 0 < k < |f2| && Touch(f2, k - 1) {
        JoinCovers(f2, k - 1, p);
      }
    }
  }
}

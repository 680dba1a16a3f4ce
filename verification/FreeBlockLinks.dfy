/** The intrusive doubly linked free list: block headers live in the first bytes of the
    free pages themselves (shared_arena.h FreeBlockHeader).  Memory is a sequence of
    headers, one for each data page; every surgery is a function on it. */
module FreeBlockLinks {

  import opened ArenaModel
  import opened FreeBlockList

  const LIST_END: nat := 0xFFFF_FFFF
  const FREE_BLOCK_MAGIC: nat := 0xF4EE_B10C

  datatype FreeBlockHeader = FreeBlockHeader(prev: nat, next: nat, size: nat, magic: nat)

  /** The offset of a list position, or the end marker on either side of the list. */
  function OffAt(free: seq<Range>, i: int): nat {
    if 0 <= i < |free| then free[i].off else LIST_END
  }

  function HeaderAt(free: seq<Range>, i: nat): FreeBlockHeader
    requires i < |free|
  {
    FreeBlockHeader(OffAt(free, i - 1), OffAt(free, i + 1), free[i].pages, FREE_BLOCK_MAGIC)
  }

  /** The blocks of `free`, in order, doubly linked from `head`. */
  ghost predicate Linked(memory: seq<FreeBlockHeader>, head: nat, free: seq<Range>) {
    && head == OffAt(free, 0)
    && forall i | 0 <= i < |free| :: LinkedAt(memory, free, i)
  }

  predicate LinkedAt(memory: seq<FreeBlockHeader>, free: seq<Range>, i: nat)
    requires i < |free|
  {
    free[i].End() <= |memory| && free[i].off < |memory| && memory[free[i].off] == HeaderAt(free, i)
  }

  /** sharedArenaFreeBlockLooksValid */
  predicate LooksValid(block: FreeBlockHeader, off: nat, total: nat) {
    && block.magic == FREE_BLOCK_MAGIC && block.size != 0
    && off < total && block.size <= total - off
    && (block.prev != LIST_END ==> block.prev < total)
    && (block.next != LIST_END ==> block.next < total)
  }

  /** Every block reached in a linked list passes the corruption check. */
  lemma LinkedLooksValid(memory: seq<FreeBlockHeader>, head: nat, free: seq<Range>, i: nat)
    requires Ordered(free) && Linked(memory, head, free) && i < |free|
    ensures free[i].off < |memory| && LooksValid(memory[free[i].off], free[i].off, |memory|)
  {
    assert LinkedAt(memory, free, i);
    if i > 0 {
      assert LinkedAt(memory, free, i - 1);
    }
    if i + 1 < |free| {
      assert LinkedAt(memory, free, i + 1);
    }
  }

  lemma OffsetsDistinct(free: seq<Range>)
    requires Ordered(free)
    ensures forall i, j | 0 <= i < j < |free| :: free[i].off < free[j].off
  {
    forall i, j | 0 <= i < j < |free| ensures free[i].off < free[j].off {
      assert free[i].End() <= free[j].off;
    }
  }

  lemma GappedIsOrdered(free: seq<Range>)
    requires Gapped(free)
    ensures Ordered(free)
  {
  }

  lemma HeaderOf(memory: seq<FreeBlockHeader>, head: nat, free: seq<Range>, i: nat)
    requires Linked(memory, head, free) && i < |free|
    ensures free[i].End() <= |memory| && free[i].off < |memory| && memory[free[i].off] == HeaderAt(free, i)
  {
    assert LinkedAt(memory, free, i);
  }

  lemma OffsetInside(memory: seq<FreeBlockHeader>, head: nat, free: seq<Range>, i: int)
    requires Linked(memory, head, free)
    ensures 0 <= i < |free| ==> free[i].off < |memory|
  {
    if 0 <= i < |free| {
      HeaderOf(memory, head, free, i);
    }
  }

  function SetNext(memory: seq<FreeBlockHeader>, off: nat, next: nat): (m: seq<FreeBlockHeader>)
    ensures |m| == |memory|
  {
    if off < |memory| then memory[off := memory[off].(next := next)] else memory
  }

  function SetPrev(memory: seq<FreeBlockHeader>, off: nat, prev: nat): (m: seq<FreeBlockHeader>)
    ensures |m| == |memory|
  {
    if off < |memory| then memory[off := memory[off].(prev := prev)] else memory
  }

  // ------------------------------------------------------------------ linking in

  function Inserting(memory: seq<FreeBlockHeader>, free: seq<Range>, k: nat, r: Range): (m: seq<FreeBlockHeader>)
    requires r.off < |memory|
    ensures |m| == |memory|
  {
    var written := memory[r.off := FreeBlockHeader(OffAt(free, k - 1), OffAt(free, k), r.pages, FREE_BLOCK_MAGIC)];
    SetPrev(SetNext(written, OffAt(free, k - 1), r.off), OffAt(free, k), r.off)
  }

  lemma InsertingLinks(memory: seq<FreeBlockHeader>, head: nat, free: seq<Range>, k: nat, r: Range)
    requires |memory| < LIST_END && k <= |free| && r.End() <= |memory| && r.pages > 0
    requires Ordered(free) && Ordered(InsertAt(free, k, r)) && Linked(memory, head, free)
    ensures Linked(Inserting(memory, free, k, r), if k == 0 then r.off else head, InsertAt(free, k, r))
  {
    var f := InsertAt(free, k, r);
    var m := Inserting(memory, free, k, r);
    forall i | 0 <= i < |f| ensures LinkedAt(m, f, i) {
      InsertedHeader(memory, head, free, k, r, i);
    }
  }

  lemma InsertedHeader(memory: seq<FreeBlockHeader>, head: nat, free: seq<Range>, k: nat, r: Range, i: nat)
    requires |memory| < LIST_END && k <= |free| && r.End() <= |memory| && r.pages > 0
    requires Ordered(InsertAt(free, k, r)) && Linked(memory, head, free) && i <= |free|
    ensures
      var f := InsertAt(free, k, r);
      f[i].End() <= |memory| && f[i].off < |memory| && Inserting(memory, free, k, r)[f[i].off] == HeaderAt(f, i)
  {
    hide Ordered, Linked, InsertAt, Inserting;
    OffsetsDistinct(InsertAt(free, k, r));
    InsertedOffsets(free, k, r, i);
    InsertedOffsets(free, k, r, k);
    if k > 0 {
      InsertedOffsets(free, k, r, k - 1);
      HeaderOf(memory, head, free, k - 1);
    }
    if k < |free| {
      InsertedOffsets(free, k, r, k + 1);
      HeaderOf(memory, head, free, k);
    }
    if i != k {
      HeaderOf(memory, head, free, if i < k then i else i - 1);
    }
    InsertingAt(memory, free, k, r, InsertAt(free, k, r)[i].off);
  }

  lemma InsertingAt(memory: seq<FreeBlockHeader>, free: seq<Range>, k: nat, r: Range, o: nat)
    requires |memory| < LIST_END && o < |memory| && r.off < |memory|
    requires OffAt(free, k - 1) != r.off && OffAt(free, k) != r.off
    ensures
      var prev, next, block := OffAt(free, k - 1), OffAt(free, k), memory[o];
      Inserting(memory, free, k, r)[o] ==
        if o == r.off then
          FreeBlockHeader(prev, next, r.pages, FREE_BLOCK_MAGIC)
        else
          FreeBlockHeader(if o == next then r.off else block.prev, if o == prev then r.off else block.next,
                          block.size, block.magic)
  {
    hide OffAt;
  }

  lemma InsertedOffsets(free: seq<Range>, k: nat, r: Range, i: nat)
    requires k <= |free| && i <= |free|
    ensures
      var f := InsertAt(free, k, r);
      && |f| == |free| + 1
      && f[i] == (if i < k then free[i] else if i == k then r else free[i - 1])
      && OffAt(f, i - 1) == (if i - 1 == k then r.off else OffAt(free, if i - 1 < k then i - 1 else i - 2))
      && OffAt(f, i + 1) == (if i + 1 == k then r.off else OffAt(free, if i + 1 < k then i + 1 else i))
  {
  }

  // ------------------------------------------------------------------ joining

  function Joining(memory: seq<FreeBlockHeader>, free: seq<Range>, i: nat): (m: seq<FreeBlockHeader>)
    requires i + 1 < |free| && free[i].off < |memory| && free[i + 1].off < |memory|
  {
    var block := memory[free[i].off].(size := free[i].pages + free[i + 1].pages, next := OffAt(free, i + 2));
    var relinked := SetPrev(memory[free[i].off := block], OffAt(free, i + 2), free[i].off);
    relinked[free[i + 1].off := relinked[free[i + 1].off].(magic := 0)]
  }

  lemma JoiningLinks(memory: seq<FreeBlockHeader>, head: nat, free: seq<Range>, i: nat)
    requires |memory| < LIST_END && i + 1 < |free| && free[i].off < |memory| && free[i + 1].off < |memory|
    requires Ordered(free) && Touch(free, i) && Linked(memory, head, free)
    ensures Linked(Joining(memory, free, i), head, Join(free, i))
  {
    var f := Join(free, i);
    var m := Joining(memory, free, i);
    forall j | 0 <= j < |f| ensures LinkedAt(m, f, j) {
      JoinedHeader(memory, head, free, i, j);
    }
  }

  lemma JoinOffsets(free: seq<Range>, i: nat, j: nat)
    requires i + 1 < |free| && j + 1 < |free|
    ensures
      var f := Join(free, i);
      && |f| == |free| - 1
      && f[j].off == free[if j <= i then j else j + 1].off
      && f[j].pages == (if j == i then free[i].pages + free[i + 1].pages else free[if j < i then j else j + 1].pages)
      && OffAt(f, j - 1) == OffAt(free, if j - 1 <= i then j - 1 else j)
      && OffAt(f, j + 1) == OffAt(free, if j + 1 <= i then j + 1 else j + 2)
  {
  }

  lemma JoinedHeader(memory: seq<FreeBlockHeader>, head: nat, free: seq<Range>, i: nat, j: nat)
    requires |memory| < LIST_END && i + 1 < |free| && free[i].off < |memory| && free[i + 1].off < |memory|
    requires Ordered(free) && Touch(free, i) && Linked(memory, head, free) && j + 1 < |free|
    ensures
      var f := Join(free, i);
      f[j].End() <= |memory| && f[j].off < |memory| && Joining(memory, free, i)[f[j].off] == HeaderAt(f, j)
  {
    hide Ordered, Linked, Join;
    OffsetsDistinct(free);
    JoinOffsets(free, i, j);
    var j' := if j <= i then j else j + 1;
    HeaderOf(memory, head, free, i + 1);
    HeaderOf(memory, head, free, j');
    if i + 2 < |free| {
      HeaderOf(memory, head, free, i + 2);
    }
  }

  // ------------------------------------------------------------------ taking out

  function Unlinking(memory: seq<FreeBlockHeader>, free: seq<Range>, k: nat): (m: seq<FreeBlockHeader>)
    requires k < |free| && free[k].off < |memory|
    ensures |m| == |memory|
  {
    var relinked := SetPrev(SetNext(memory, OffAt(free, k - 1), OffAt(free, k + 1)), OffAt(free, k + 1),
                            OffAt(free, k - 1));
    relinked[free[k].off := relinked[free[k].off].(magic := 0)]
  }

  lemma UnlinkingLinks(memory: seq<FreeBlockHeader>, head: nat, free: seq<Range>, k: nat)
    requires |memory| < LIST_END && k < |free| && free[k].off < |memory|
    requires Gapped(free) && Linked(memory, head, free)
    ensures Linked(Unlinking(memory, free, k), if k == 0 then OffAt(free, 1) else head, CutTail(free, k, free[k].pages))
  {
    GappedIsOrdered(free);
    var f := CutTail(free, k, free[k].pages);
    var m := Unlinking(memory, free, k);
    forall j | 0 <= j < |f| ensures LinkedAt(m, f, j) {
      UnlinkedHeader(memory, head, free, k, j);
    }
  }

  lemma CutOffsets(free: seq<Range>, k: nat, j: nat)
    requires k < |free| && j + 1 < |free|
    ensures
      var f := CutTail(free, k, free[k].pages);
      && |f| == |free| - 1
      && f[j] == free[if j < k then j else j + 1]
      && OffAt(f, j - 1) == OffAt(free, if j - 1 < k then j - 1 else j)
      && OffAt(f, j + 1) == OffAt(free, if j + 1 < k then j + 1 else j + 2)
  {
  }

  lemma UnlinkedHeader(memory: seq<FreeBlockHeader>, head: nat, free: seq<Range>, k: nat, j: nat)
    requires |memory| < LIST_END && k < |free| && free[k].off < |memory|
    requires Ordered(free) && Linked(memory, head, free) && j + 1 < |free|
    ensures
      var f := CutTail(free, k, free[k].pages);
      f[j].End() <= |memory| && f[j].off < |memory| && Unlinking(memory, free, k)[f[j].off] == HeaderAt(f, j)
  {
    hide Ordered, Linked, CutTail;
    OffsetsDistinct(free);
    CutOffsets(free, k, j);
    HeaderOf(memory, head, free, if j < k then j else j + 1);
    OffsetInside(memory, head, free, k - 1);
    OffsetInside(memory, head, free, k + 1);
  }

  /** Undoing an unlink with nothing but what the unlinked header still holds. */
  function Relinking(memory: seq<FreeBlockHeader>, off: nat): (m: seq<FreeBlockHeader>)
    requires off < |memory|
    ensures |m| == |memory|
  {
    var block := memory[off].(magic := FREE_BLOCK_MAGIC);
    SetPrev(SetNext(memory[off := block], block.prev, off), block.next, off)
  }

  lemma RelinkingUndoes(memory: seq<FreeBlockHeader>, head: nat, free: seq<Range>, k: nat)
    requires |memory| < LIST_END && k < |free| && free[k].off < |memory|
    requires Gapped(free) && Linked(memory, head, free)
    ensures Relinking(Unlinking(memory, free, k), free[k].off) == memory
  {
    hide Ordered, Gapped, Linked;
    GappedIsOrdered(free);
    OffsetsDistinct(free);
    HeaderOf(memory, head, free, k);
    if k > 0 {
      HeaderOf(memory, head, free, k - 1);
    }
    if k + 1 < |free| {
      HeaderOf(memory, head, free, k + 1);
    }
    var back := Relinking(Unlinking(memory, free, k), free[k].off);
    forall i | 0 <= i < |memory| ensures back[i] == memory[i] {
    }
  }

  lemma ShrinkingLinks(memory: seq<FreeBlockHeader>, head: nat, free: seq<Range>, k: nat, need: nat)
    requires |memory| < LIST_END && k < |free| && need < free[k].pages && free[k].off < |memory|
    requires Gapped(free) && Linked(memory, head, free)
    ensures
      var off := free[k].off;
      Linked(memory[off := memory[off].(size := free[k].pages - need)], head, CutTail(free, k, need))
  {
    hide Gapped, Ordered;
    GappedIsOrdered(free);
    var f := CutTail(free, k, need);
    var off := free[k].off;
    var m := memory[off := memory[off].(size := free[k].pages - need)];
    forall j | 0 <= j < |f| ensures LinkedAt(m, f, j) {
      ShrunkHeader(memory, head, free, k, need, j);
    }
  }

  lemma ShrunkHeader(memory: seq<FreeBlockHeader>, head: nat, free: seq<Range>, k: nat, need: nat, j: nat)
    requires k < |free| && need < free[k].pages && free[k].off < |memory| && j < |free|
    requires Ordered(free) && Linked(memory, head, free)
    ensures
      var f := CutTail(free, k, need);
      var off := free[k].off;
      f[j].End() <= |memory| && f[j].off < |memory|
      && memory[off := memory[off].(size := free[k].pages - need)][f[j].off] == HeaderAt(f, j)
  {
    hide Ordered, Linked;
    OffsetsDistinct(free);
    HeaderOf(memory, head, free, j);
    HeaderOf(memory, head, free, k);
    var f := CutTail(free, k, need);
    assert OffAt(f, j - 1) == OffAt(free, j - 1) && OffAt(f, j + 1) == OffAt(free, j + 1);
  }

  /** Writing a page outside every free block leaves the list alone. */
  lemma WriteElsewhere(memory: seq<FreeBlockHeader>, head: nat, free: seq<Range>, p: nat, block: FreeBlockHeader)
    requires Linked(memory, head, free) && p < |memory| && !InFree(free, p)
    requires forall i | 0 <= i < |free| :: free[i].pages > 0
    ensures Linked(memory[p := block], head, free)
  {
    var m := memory[p := block];
    forall i | 0 <= i < |free| ensures LinkedAt(m, free, i) {
      assert LinkedAt(memory, free, i) && free[i].Has(free[i].off);
      assert InFree(free, free[i].off);
    }
  }
}

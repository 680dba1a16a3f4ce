/** One core's shared arena (shared_arena_linux.cpp store and retrieve): best fit with a
    tail split over the free list, a bump offset behind it, coalescing on the way back,
    and an operation log whose refusal leaves everything as it was. */
module SharedArena {

  import opened ArenaAddresses
  import opened ArenaModel
  import opened FreeBlockLinks
  import opened FreeBlockList
  import opened LogRing

  /** How a retrieve ended; the source tells its caller only whether it was `Handed`. */
  datatype Outcome = Exhausted | Misplaced | LogFull | Handed

  class Arena {
    const coreId: nat
    /** The header at the start of every data page. */
    const blocks: array<FreeBlockHeader>
    var bump: nat
    var head: nat
    var freeCount: nat
    var donatedBytes: nat
    var retrievedBytes: nat
    var donateCount: nat
    var retrieveCount: nat
    ghost var free: seq<Range>
    ghost var live: set<Range>
    ghost var stranded: set<Range>

    ghost function State(): ArenaState
      reads this
    {
      ArenaState(TOTAL_PAGES, bump, free, live, stranded)
    }

    /** The list in memory is `free`. */
    ghost predicate ListOk()
      reads this, blocks
    {
      && blocks.Length == TOTAL_PAGES
      && Linked(blocks[..], head, free)
      && freeCount == |free|
    }

    ghost predicate Valid()
      reads this, blocks
    {
      && ListOk()
      && Inv(State())
      && donatedBytes < U64 && retrievedBytes < U64 && retrieveCount < U32
      && retrieveCount == Wrap(donateCount + |live|)
    }

    constructor (coreId: nat)
      ensures Valid() && fresh(blocks) && this.coreId == coreId
      ensures bump == 0 && live == {} && stranded == {} && free == []
    {
      this.coreId := coreId;
      blocks := new FreeBlockHeader[TOTAL_PAGES](_ => FreeBlockHeader(0, 0, 0, 0));
      bump, head, freeCount := 0, LIST_END, 0;
      donatedBytes, retrievedBytes, donateCount, retrieveCount := 0, 0, 0, 0;
      free, live, stranded := [], {}, {};
    }

    /** The owner of outstanding pages may write anything there, header bytes included. */
    method UserWrite(p: nat, block: FreeBlockHeader)
      requires Valid() && InHeld(live, p)
      modifies blocks
      ensures Valid()
    {
      hide Linked;
      assert p < TOTAL_PAGES && !InFree(free, p) by { PagesPartitioned(State(), p); }
      WriteElsewhere(blocks[..], head, free, p, block);
      hide Inv, InHeld, InFree;
      ghost var memory := blocks[..];
      blocks[p] := block;
      assert blocks[..] == memory[p := block];
    }

    // ---------------------------------------------------------------- store

    /** The walk of store: the neighbours between which `off` belongs. */
    method FindPlace(off: nat) returns (prev: nat, next: nat, ghost k: nat)
      requires ListOk() && Ordered(free)
      requires forall i | 0 <= i < |free| :: free[i].off != off
      ensures IsPlace(free, off, k)
      ensures prev == OffAt(free, k - 1) && next == OffAt(free, k)
      ensures (prev == LIST_END || prev < off) && (next == LIST_END || off < next)
    {
      hide Linked, Ordered, IsPlace;
      HeadOf(blocks[..], head, free);
      k := 0;
      prev := LIST_END;
      next := head;
      while next != LIST_END
        invariant k <= |free| && prev == OffAt(free, k - 1) && next == OffAt(free, k)
        invariant k > 0 ==> free[k - 1].off < off
        decreases |free| - k
      {
        HeaderOf(blocks[..], head, free, k);
        LinkedLooksValid(blocks[..], head, free, k);
        if !LooksValid(blocks[next], next, TOTAL_PAGES) {
          // The list would be reset here.
          assert false;
        }
        if next > off {
          break;
        }
        prev := next;
        next := blocks[next].next;
        k := k + 1;
      }
      if next == LIST_END {
        EndOfScan(blocks[..], head, free, k);
      }
      PlaceFound(free, off, k);
    }

    static lemma PlaceFound(free: seq<Range>, off: nat, k: nat)
      requires Ordered(free) && k <= |free|
      requires (k > 0 ==> free[k - 1].off < off) && (k < |free| ==> off < free[k].off)
      ensures IsPlace(free, off, k)
    {
      OffsetsDistinct(free);
    }

    /** Writes the header of `r` and links it between its neighbours. */
    method LinkIn(r: Range, prev: nat, next: nat, ghost k: nat)
      requires ListOk() && Ordered(free)
      requires IsPlace(free, r.off, k) && r.pages > 0 && r.End() <= TOTAL_PAGES
      requires Ordered(InsertAt(free, k, r))
      requires prev == OffAt(free, k - 1) && next == OffAt(free, k)
      modifies this`head, this`freeCount, this`free, blocks
      ensures ListOk() && free == InsertAt(old(free), k, r)
    {
      ghost var memory := blocks[..];
      InsertingLinks(memory, head, free, k, r);
      if prev != LIST_END {
        HeaderOf(memory, head, free, k - 1);
      }
      if next != LIST_END {
        HeaderOf(memory, head, free, k);
      }
      hide Linked, Ordered;
      blocks[r.off] := FreeBlockHeader(prev, next, r.pages, FREE_BLOCK_MAGIC);
      if prev != LIST_END {
        blocks[prev] := blocks[prev].(next := r.off);
      } else {
        head := r.off;
      }
      if next != LIST_END {
        blocks[next] := blocks[next].(prev := r.off);
      }
      freeCount := freeCount + 1;
      assert blocks[..] == Inserting(memory, free, k, r);
      free := InsertAt(free, k, r);
    }

    static lemma JoinLength(free: seq<Range>, i: nat)
      requires i + 1 < |free|
      ensures |Join(free, i)| == |free| - 1
    {
    }

    /** Joins the block at `off` with the one behind it, which it touches. */
    method Absorb(off: nat, ghost i: nat)
      requires ListOk() && Ordered(free)
      requires i + 1 < |free| && free[i].off == off && Touch(free, i)
      modifies this`freeCount, this`free, blocks
      ensures ListOk() && free == Join(old(free), i)
    {
      hide Linked, Ordered;
      ghost var memory := blocks[..];
      HeaderOf(memory, head, free, i);
      HeaderOf(memory, head, free, i + 1);
      if i + 2 < |free| {
        HeaderOf(memory, head, free, i + 2);
      }
      OffsetsDistinct(free);
      JoiningLinks(memory, head, free, i);
      hide Join, Touch;
      var next := blocks[off].next;
      var block := blocks[next];
      blocks[off] := blocks[off].(size := blocks[off].size + block.size, next := block.next);
      if block.next != LIST_END {
        blocks[block.next] := blocks[block.next].(prev := off);
      }
      blocks[next] := blocks[next].(magic := 0);
      freeCount := freeCount - 1;
      assert blocks[..] == Joining(memory, free, i);
      JoinLength(free, i);
      free := Join(free, i);
    }

    /** The list part of store. */
    method InsertAndMerge(r: Range)
      requires Valid() && r in live
      modifies this`head, this`freeCount, this`free, blocks
      ensures ListOk() && Gives(old(free), r, free)
    {
      hide Inv, Linked, Ordered, Gapped, ApartFromAll, GappedBut, Gives, InsertAt, Join, MergeNext, MergePrevious,
           Touch;
      LiveRange(State(), r);
      GappedIsOrdered(free);
      ghost var was := free;
      var prev, next, k := FindPlace(r.off);
      CoalescedGives(was, k, r);
      PlaceInList(blocks[..], head, was, r.off, k);
      hide IsPlace;
      InsertOrdered(was, k, r);
      ghost var inserted, merged := InsertAt(was, k, r), MergeNext(InsertAt(was, k, r), k);
      OrderedBut(inserted, k, true, true);
      MergeNextLooks(was, k, r);
      MergeNextGapped(inserted, k);
      OrderedBut(merged, k, true, false);
      MergePreviousLooks(was, k, r);
      LinkIn(r, prev, next, k);
      if next != LIST_END && r.End() == next {
        Absorb(r.off, k);
      }
      if prev != LIST_END {
        HeaderOf(blocks[..], head, free, k - 1);
        if prev + blocks[prev].size == r.off {
          Absorb(prev, k - 1);
        }
      }
    }

    static lemma PlaceInList(memory: seq<FreeBlockHeader>, head: nat, free: seq<Range>, off: nat, k: nat)
      requires IsPlace(free, off, k) && Linked(memory, head, free) && |memory| < LIST_END
      ensures k <= |free|
      ensures OffAt(free, k) != LIST_END <==> k < |free|
      ensures OffAt(free, k - 1) != LIST_END <==> k > 0
    {
      if k < |free| {
        HeaderOf(memory, head, free, k);
      }
      if k > 0 {
        HeaderOf(memory, head, free, k - 1);
      }
    }

    /** The test for a touching successor, in terms of the list before the insertion. */
    static lemma MergeNextLooks(was: seq<Range>, k: nat, r: Range)
      requires k <= |was|
      ensures
        var inserted := InsertAt(was, k, r);
        && |inserted| == |was| + 1 && inserted[k] == r
        && (k < |was| && r.End() == was[k].off <==> k + 1 < |inserted| && Touch(inserted, k))
        && MergeNext(inserted, k) == if k < |was| && r.End() == was[k].off then Join(inserted, k) else inserted
    {
    }

    /** The test for a touching predecessor, likewise. */
    static lemma MergePreviousLooks(was: seq<Range>, k: nat, r: Range)
      requires k <= |was|
      ensures
        var merged := MergeNext(InsertAt(was, k, r), k);
        && k < |merged| && merged[k].off == r.off
        && (k > 0 ==> merged[k - 1] == was[k - 1])
        && (k > 0 && was[k - 1].End() == r.off <==> k > 0 && Touch(merged, k - 1))
        && MergePrevious(merged, k) == if k > 0 && was[k - 1].End() == r.off then Join(merged, k - 1) else merged
    {
    }

    static lemma LiveRange(s: ArenaState, r: Range)
      requires Inv(s) && r in s.live
      ensures r.pages > 0 && r.End() <= s.bump <= s.total && ApartFromAll(s.free, r) && Gapped(s.free)
      ensures forall i | 0 <= i < |s.free| :: s.free[i].off != r.off
    {
      BelowBump(s, r);
      forall i | 0 <= i < |s.free| ensures s.free[i].Apart(r) && s.free[i].off != r.off {
        var apart := s.free[i].Apart(r);
      }
    }

    static lemma OrderedBut(free: seq<Range>, k: nat, before: bool, after: bool)
      requires GappedBut(free, k, before, after)
      ensures Ordered(free)
    {
    }

    /** Nothing the allocator keeps has changed. */
    twostate predicate Untouched()
      reads this, blocks
    {
      && State() == old(State()) && blocks[..] == old(blocks[..])
      && head == old(head) && freeCount == old(freeCount)
      && donatedBytes == old(donatedBytes) && retrievedBytes == old(retrievedBytes)
      && donateCount == old(donateCount) && retrieveCount == old(retrieveCount)
    }

    /** Gives pages back.  A caller may name only a range that is outstanding, or one the
        guard refuses.  `ring` is the log of the core the caller runs on, `first` and
        `second` how far its consumer gets while store waits for room in it. */
    method Store(commitBase: nat, commitSize: nat, ring: Ring, first: nat, second: nat) returns (ok: bool)
      requires Valid() && ring.Valid()
      requires Accepts(coreId, commitBase, commitSize) ==> StoreRange(coreId, commitBase, commitSize) in live
      modifies this`head, this`freeCount, this`free, this`live, this`donatedBytes, this`donateCount
      modifies blocks, ring, ring.entries
      ensures Valid() && ring.Valid() && ring.consumed >= old(ring.consumed)
      ensures ok ==> Accepts(coreId, commitBase, commitSize)
      ensures !ok ==> Untouched() && ring.produced == old(ring.produced)
      ensures !ok && Accepts(coreId, commitBase, commitSize) ==> |ring.produced| == ring.consumed + ring.capacity
      ensures ok ==>
        var r := StoreRange(coreId, commitBase, commitSize);
        && Returns(old(State()), State(), r)
        && ring.produced == old(ring.produced) + [LogEntry(Free, coreId, r.off, r.pages)]
        && donatedBytes == Plus64(old(donatedBytes), commitSize) && donateCount == Wrap(old(donateCount) + 1)
    {
      hide Linked, Inv, Gives, StoreRange;
      var r := StoreRange(coreId, commitBase, commitSize);
      if !Accepts(coreId, commitBase, commitSize) {
        return false;
      }
      assert r.off == PageOff(coreId, commitBase) && r.pages == Wrap(commitSize / PAGE_SIZE) by {
        RangeParts(coreId, commitBase, commitSize);
      }
      ok := ring.Append(Free, coreId, r.off, commitSize, first, second);
      if !ok {
        return;
      }
      ghost var before := State();
      InsertAndMerge(r);
      GiveKeepsInv(before, r, free);
      live := live - {r};
      donatedBytes := Plus64(donatedBytes, commitSize);
      CountStored(donateCount, |live|);
      donateCount := Wrap(donateCount + 1);
    }

    static lemma RangeParts(coreId: nat, commitBase: nat, commitSize: nat)
      ensures StoreRange(coreId, commitBase, commitSize) ==
        Range(PageOff(coreId, commitBase), Wrap(commitSize / PAGE_SIZE))
    {
    }

    static lemma CountStored(count: nat, left: nat)
      ensures Wrap(Wrap(count + 1) + left) == Wrap(count + (left + 1))
    {
    }

    // ------------------------------------------------------------- retrieve

    /** The best-fit scan: the first block of least sufficient size. */
    method FindBestFit(need: nat) returns (best: nat, ghost k: nat)
      requires ListOk() && Ordered(free) && 0 < need < U32
      ensures best == LIST_END <==> !HasFit(free, need)
      ensures best != LIST_END ==> IsBestFit(free, need, k) && best == free[k].off
    {
      hide Linked, Ordered, IsBestFit, HasFit;
      best, k := LIST_END, 0;
      var bestPages := LIST_END;
      ghost var c: nat := 0;
      NoFitYet(free, need);
      if freeCount != 0 {
        HeadOf(blocks[..], head, free);
        var cur := head;
        while cur != LIST_END
          invariant c <= |free| && cur == OffAt(free, c)
          invariant best == LIST_END ==> bestPages == LIST_END && !HasFit(free[..c], need)
          invariant best != LIST_END ==>
            k < c && best == free[k].off && bestPages == free[k].pages < LIST_END && IsBestFit(free[..c], need, k)
          decreases |free| - c
        {
          HeaderOf(blocks[..], head, free, c);
          LinkedLooksValid(blocks[..], head, free, c);
          if !LooksValid(blocks[cur], cur, TOTAL_PAGES) {
            // The list would be reset here.
            assert false;
          }
          ScanStep(free, need, c, best != LIST_END, k);
          if blocks[cur].size >= need && blocks[cur].size < bestPages {
            bestPages := blocks[cur].size;
            best, k := cur, c;
            if bestPages == need {
              ExactIsBest(free, need, c);
              return;
            }
          }
          cur := blocks[cur].next;
          c := c + 1;
        }
        EndOfScan(blocks[..], head, free, c);
      }
      assert free[..c] == free;
      if best != LIST_END {
        BestIsFit(free, need, k);
      }
    }

    static lemma HeadOf(memory: seq<FreeBlockHeader>, head: nat, free: seq<Range>)
      requires Linked(memory, head, free)
      ensures head == OffAt(free, 0)
    {
    }

    static lemma BestIsFit(free: seq<Range>, need: nat, k: nat)
      requires IsBestFit(free, need, k)
      ensures HasFit(free, need) && k < |free| && need <= free[k].pages
    {
    }

    static lemma TakesFromBlock(free: seq<Range>, bump: nat, need: nat, k: nat)
      requires IsBestFit(free, need, k)
      ensures k < |free| && need <= free[k].pages
      ensures Takes(free, bump, TOTAL_PAGES, need, CutTail(free, k, need), bump, Range(free[k].End() - need, need))
    {
      BestIsFit(free, need, k);
    }

    static lemma TakesFromBump(s: ArenaState, need: nat)
      requires !HasFit(s.free, need)
      ensures CanTake(s, need) <==> s.bump + need <= s.total
      ensures CanTake(s, need) ==> Takes(s.free, s.bump, s.total, need, s.free, s.bump + need, Range(s.bump, need))
    {
    }

    static lemma NoFitYet(free: seq<Range>, need: nat)
      ensures !HasFit(free[..0], need)
    {
    }

    static lemma EndOfScan(memory: seq<FreeBlockHeader>, head: nat, free: seq<Range>, c: nat)
      requires Linked(memory, head, free) && |memory| < LIST_END && c <= |free| && OffAt(free, c) == LIST_END
      ensures c == |free|
    {
      if c < |free| {
        HeaderOf(memory, head, free, c);
      }
    }

    /** One more block scanned. */
    static lemma ScanStep(free: seq<Range>, need: nat, c: nat, found: bool, k: nat)
      requires c < |free| && need > 0
      requires !found ==> !HasFit(free[..c], need)
      requires found ==> k < c && IsBestFit(free[..c], need, k)
      ensures free[c].pages >= need && (!found || free[c].pages < free[k].pages) ==> IsBestFit(free[..c + 1], need, c)
      ensures found && (free[c].pages < need || free[c].pages >= free[k].pages) ==> IsBestFit(free[..c + 1], need, k)
      ensures !found && free[c].pages < need ==> !HasFit(free[..c + 1], need)
    {
      var before, after := free[..c], free[..c + 1];
      assert after[c] == free[c];
      forall j | 0 <= j < c ensures after[j] == before[j] {
      }
      if found {
        assert before[k] == free[k];
      }
      if !found {
        forall j | 0 <= j < c ensures after[j].pages < need {
          assert before[j].pages < need;
        }
      }
    }

    /** A block of exactly the needed size ends the scan: no other can be smaller, and
        none before it is as small. */
    static lemma ExactIsBest(free: seq<Range>, need: nat, c: nat)
      requires c < |free| && free[c].pages == need && IsBestFit(free[..c + 1], need, c)
      ensures IsBestFit(free, need, c) && HasFit(free, need)
    {
      forall j | 0 <= j < c && free[j].pages >= need ensures free[c].pages < free[j].pages {
        assert free[..c + 1][j] == free[j];
      }
    }

    /** Takes the last `need` pages of the block at `best`: the whole block is unlinked,
        a longer one shrinks. */
    method TakeFromBlock(best: nat, need: nat, ghost k: nat) returns (off: nat)
      requires ListOk() && Gapped(free) && k < |free| && best == free[k].off && 0 < need <= free[k].pages
      modifies this`head, this`freeCount, this`free, blocks
      ensures ListOk() && free == CutTail(old(free), k, need)
      ensures off == old(free)[k].End() - need && best < blocks.Length
      ensures blocks[..] == (if need == old(free)[k].pages then Unlinking(old(blocks[..]), old(free), k)
        else old(blocks[..])[best := old(blocks[best]).(size := old(free)[k].pages - need)])
      ensures head == if need == old(free)[k].pages && k == 0 then OffAt(old(free), 1) else old(head)
    {
      hide Linked, Gapped, CutTail;
      ghost var memory := blocks[..];
      GappedIsOrdered(free);
      HeaderOf(memory, head, free, k);
      CutLength(free, k, need);
      var block := blocks[best];
      var remainder := block.size - need;
      if remainder == 0 {
        UnlinkingLinks(memory, head, free, k);
        UnlinkNeighbours(memory, head, free, k);
        if block.prev != LIST_END {
          blocks[block.prev] := blocks[block.prev].(next := block.next);
        } else {
          head := block.next;
        }
        if block.next != LIST_END {
          blocks[block.next] := blocks[block.next].(prev := block.prev);
        }
        blocks[best] := blocks[best].(magic := 0);
        freeCount := freeCount - 1;
        off := best;
        assert blocks[..] == Unlinking(memory, free, k);
      } else {
        ShrinkingLinks(memory, head, free, k, need);
        off := best + remainder;
        blocks[best] := blocks[best].(size := remainder);
        assert blocks[..] == memory[best := memory[best].(size := free[k].pages - need)];
      }
      free := CutTail(free, k, need);
    }

    static lemma CutLength(free: seq<Range>, k: nat, need: nat)
      requires k < |free| && need <= free[k].pages
      ensures |CutTail(free, k, need)| == if need == free[k].pages then |free| - 1 else |free|
    {
    }

    static lemma UnlinkNeighbours(memory: seq<FreeBlockHeader>, head: nat, free: seq<Range>, k: nat)
      requires Linked(memory, head, free) && k < |free| && Ordered(free) && |memory| < LIST_END
      ensures (k > 0 <==> OffAt(free, k - 1) != LIST_END) && (k > 0 ==> free[k - 1].off < free[k].off)
      ensures (k + 1 < |free| <==> OffAt(free, k + 1) != LIST_END)
      ensures k + 1 < |free| ==> free[k + 1].off < |memory| && free[k].off < free[k + 1].off
      ensures k == 0 <==> head == free[k].off
    {
      OffsetsDistinct(free);
      HeaderOf(memory, head, free, k);
      if k > 0 {
        HeaderOf(memory, head, free, k - 1);
        HeaderOf(memory, head, free, 0);
      }
      if k + 1 < |free| {
        HeaderOf(memory, head, free, k + 1);
      }
    }

    /** The rollback of a block taken whole. */
    method Relink(best: nat, ghost memory: seq<FreeBlockHeader>, ghost oldHead: nat, ghost was: seq<Range>,
                  ghost k: nat)
      requires blocks.Length == TOTAL_PAGES == |memory| && Gapped(was) && Linked(memory, oldHead, was)
      requires k < |was| && best == was[k].off < |memory|
      requires blocks[..] == Unlinking(memory, was, k) && head == if k == 0 then OffAt(was, 1) else oldHead
      modifies this`head, this`freeCount, blocks
      ensures blocks[..] == memory && head == oldHead && freeCount == old(freeCount) + 1
    {
      hide Linked, Gapped;
      GappedIsOrdered(was);
      HeaderOf(memory, oldHead, was, k);
      UnlinkNeighbours(memory, oldHead, was, k);
      RelinkingUndoes(memory, oldHead, was, k);
      ghost var unlinked := blocks[..];
      blocks[best] := blocks[best].(magic := FREE_BLOCK_MAGIC);
      var block := blocks[best];
      if block.prev != LIST_END {
        blocks[block.prev] := blocks[block.prev].(next := best);
      } else {
        head := best;
      }
      if block.next != LIST_END {
        blocks[block.next] := blocks[block.next].(prev := best);
      }
      freeCount := freeCount + 1;
      assert blocks[..] == Relinking(unlinked, best);
    }

    /** The arena is `was` but for `need` pages taken at `off`: the tail of the block at
        `best`, or pages above the bump offset. */
    static ghost predicate TookFrom(was: ArenaState, memory: seq<FreeBlockHeader>, oldHead: nat,
                                    now: ArenaState, memoryNow: seq<FreeBlockHeader>, headNow: nat,
                                    best: nat, need: nat, off: nat, k: nat)
    {
      && now == was.(free := now.free, bump := now.bump)
      && |memory| == TOTAL_PAGES
      && if best == LIST_END then
        now.free == was.free && memoryNow == memory && headNow == oldHead && now.bump == was.bump + need
      else
        && now.bump == was.bump && IsBestFit(was.free, need, k) && best == was.free[k].off < TOTAL_PAGES
        && off == was.free[k].End() - need && now.free == CutTail(was.free, k, need)
        && memoryNow == (if need == was.free[k].pages then Unlinking(memory, was.free, k)
          else memory[best := memory[best].(size := was.free[k].pages - need)])
        && headNow == if need == was.free[k].pages && k == 0 then OffAt(was.free, 1) else oldHead
    }

    /** Takes `need` pages from the free list or, failing that, above the bump offset. */
    method TakePages(need: nat) returns (taken: bool, best: nat, off: nat, ghost k: nat)
      requires Valid() && 0 < need < 0x2000_0000
      modifies this`head, this`freeCount, this`free, this`bump, blocks
      ensures ListOk()
      ensures taken ==>
        && off + need <= TOTAL_PAGES
        && Takes(old(free), old(bump), TOTAL_PAGES, need, free, bump, Range(off, need))
        && TookFrom(old(State()), old(blocks[..]), old(head), State(), blocks[..], head, best, need, off, k)
      ensures !taken ==> !CanTake(old(State()), need) && Untouched()
    {
      hide Linked, Ordered, Gapped, Inv, CutTail, HasFit, Takes, CanTake, IsBestFit;
      BumpInside(State());
      GappedIsOrdered(free);
      best, k := FindBestFit(need);
      if best != LIST_END {
        BestIsFit(free, need, k);
        CutTailGapped(free, k, need);
        HeaderOf(blocks[..], head, free, k);
        TakesFromBlock(free, bump, need, k);
        off := TakeFromBlock(best, need, k);
        taken := true;
      } else {
        off := 0;
        TakesFromBump(State(), need);
        if Wrap(bump + need) > TOTAL_PAGES {
          taken := false;
        } else {
          off, taken := bump, true;
          bump := bump + need;
        }
      }
    }

    /** The rollback of retrieve after a refused log entry. */
    method PutBack(best: nat, need: nat, off: nat, ghost k: nat,
                   ghost was: ArenaState, ghost memory: seq<FreeBlockHeader>, ghost oldHead: nat)
      requires ListOk() && Inv(was) && Linked(memory, oldHead, was.free) && need > 0
      requires TookFrom(was, memory, oldHead, State(), blocks[..], head, best, need, off, k)
      modifies this`head, this`freeCount, this`free, this`bump, blocks
      ensures ListOk() && State() == was && blocks[..] == memory && head == oldHead
    {
      hide Linked, Ordered, Gapped, HeldApart, FreeApart, InHeld, InFree, CutTail, PageAddr;
      if best != LIST_END {
        CutLength(was.free, k, need);
        HeaderOf(memory, oldHead, was.free, k);
        PageOffInvertsPageAddr(coreId, off);
        PageOffInvertsPageAddr(coreId, best);
        if PageAddr(coreId, off) == PageAddr(coreId, best) {
          Relink(best, memory, oldHead, was.free, k);
        } else {
          blocks[best] := blocks[best].(size := blocks[best].size + need);
          assert blocks[..] == memory;
        }
        free := was.free;
      } else {
        bump := bump - need;
      }
    }

    /** Accounts for the pages taken and logs them; if the log refuses, undoes it all. */
    method LogTaken(best: nat, need: nat, off: nat, neededSize: nat, ring: Ring, first: nat, second: nat,
                    ghost k: nat, ghost was: ArenaState, ghost memory: seq<FreeBlockHeader>, ghost oldHead: nat)
      returns (ok: bool)
      requires ListOk() && Inv(was) && Linked(memory, oldHead, was.free) && ring.Valid()
      requires TookFrom(was, memory, oldHead, State(), blocks[..], head, best, need, off, k)
      requires 0 < need < U32 && off < U32 && neededSize == need * PAGE_SIZE
      requires retrievedBytes < U64 && retrieveCount < U32
      modifies this, blocks, ring, ring.entries
      ensures ring.Valid() && ring.consumed >= old(ring.consumed)
      ensures donatedBytes == old(donatedBytes) && donateCount == old(donateCount)
      ensures ListOk()
      ensures ok ==>
        && State() == old(State()) && ring.produced == old(ring.produced) + [LogEntry(Alloc, coreId, off, need)]
        && retrievedBytes == Plus64(old(retrievedBytes), neededSize) && retrieveCount == Wrap(old(retrieveCount) + 1)
      ensures !ok ==>
        && |ring.produced| == ring.consumed + ring.capacity && ring.produced == old(ring.produced)
        && State() == was && blocks[..] == memory && head == oldHead
        && retrievedBytes == old(retrievedBytes) && retrieveCount == old(retrieveCount)
    {
      hide Linked, Inv, Takes, PageAddr, PageOff, TookFrom, Wrap, Plus64, Minus64;
      PageOffInvertsPageAddr(coreId, off);
      WholePages(need);
      Minus64Undoes(retrievedBytes, neededSize);
      Wrap32Undoes(retrieveCount);
      retrievedBytes := Plus64(retrievedBytes, neededSize);
      retrieveCount := Wrap(retrieveCount + 1);
      ok := ring.Append(Alloc, coreId, PageOff(coreId, PageAddr(coreId, off)), neededSize, first, second);
      if !ok {
        PutBack(best, need, off, k, was, memory, oldHead);
        retrievedBytes := Minus64(retrievedBytes, neededSize);
        retrieveCount := Wrap(retrieveCount - 1);
      }
    }

    static lemma TakenIsNew(s: ArenaState, need: nat, free': seq<Range>, bump': nat, r: Range)
      requires Inv(s) && need > 0 && Takes(s.free, s.bump, s.total, need, free', bump', r)
      ensures r !in s.live && CanTake(s, need)
    {
      TakenIsFresh(s, need, free', bump', r);
      if r in s.live {
        var apart := r.Apart(r);
        assert false;
      }
    }

    static lemma CountRetrieved(count: nat, held: nat, retrieved: nat)
      requires retrieved < U32 && retrieved == Wrap(count + held)
      ensures Wrap(retrieved + 1) == Wrap(count + (held + 1)) < U32
    {
    }

    /** What becomes of the pages taken. */
    static lemma HandedOrStranded(s: ArenaState, taken: ArenaState, need: nat, r: Range)
      requires Takes(s.free, s.bump, s.total, need, taken.free, taken.bump, r)
      requires taken == s.(free := taken.free, bump := taken.bump)
      ensures Hands(s, taken.(live := taken.live + {r}), need, r)
      ensures Strands(s, taken.(stranded := taken.stranded + {r}), need, r)
    {
      hide Takes;
    }

    /** The second half of retrieve, once pages have been taken at `off`. */
    method PlaceAndLog(size: nat, alignment: nat, headersSize: nat, best: nat, off: nat,
                       ring: Ring, first: nat, second: nat,
                       ghost k: nat, ghost was: ArenaState, ghost memory: seq<FreeBlockHeader>, ghost oldHead: nat)
      returns (ok: bool, commitBase: nat, commitSize: nat, headerPos: int, ghost outcome: Outcome)
      requires ListOk() && Inv(was) && Linked(memory, oldHead, was.free) && ring.Valid()
      requires 0 < headersSize <= MAX_HEADERS_SIZE && size < MAX_MALLOC_SIZE && 0 < alignment <= MAX_ALIGNMENT
      requires off < U32 && retrievedBytes < U64 && retrieveCount < U32
      requires TookFrom(was, memory, oldHead, State(), blocks[..], head, best, NeededPages(size, headersSize), off, k)
      modifies this, blocks, ring, ring.entries
      ensures ListOk() && ring.Valid() && ring.consumed >= old(ring.consumed)
      ensures donatedBytes == old(donatedBytes) && donateCount == old(donateCount)
      ensures ok == outcome.Handed? && !outcome.Exhausted?
      ensures
        var r := Range(off, NeededPages(size, headersSize));
        && (outcome.Misplaced? <==> !CanPlace(coreId, r, size, alignment, headersSize))
        && (outcome.Misplaced? ==> State() == old(State()).(stranded := old(stranded) + {r}))
        && (ok ==> State() == old(State()).(live := old(live) + {r}))
        && (ok ==> ring.produced == old(ring.produced) + [LogEntry(Alloc, coreId, r.off, r.pages)])
      ensures outcome.LogFull? ==>
        && |ring.produced| == ring.consumed + ring.capacity
        && State() == was && blocks[..] == memory && head == oldHead
      ensures !ok ==>
        && ring.produced == old(ring.produced)
        && retrievedBytes == old(retrievedBytes) && retrieveCount == old(retrieveCount)
      ensures ok ==>
        && commitBase == PageAddr(coreId, off) && commitSize == NeededPages(size, headersSize) * PAGE_SIZE
        && size + headersSize <= commitSize < size + headersSize + PAGE_SIZE
        && commitBase <= headerPos && headerPos + headersSize + size <= commitBase + commitSize
        && commitBase + commitSize < headerPos + headersSize + size + alignment
        && (headerPos + headersSize) % alignment == 0
        && retrievedBytes == Plus64(old(retrievedBytes), commitSize) && retrieveCount == Wrap(old(retrieveCount) + 1)
    {
      hide Linked, Inv, PageAddr, PageOff, HeaderPos, NeededSize, NeededPages, Placeable, Wrap, Plus64, TookFrom;
      NeededSizeFacts(size, headersSize);
      PageOffInvertsPageAddr(coreId, off);
      ok := false;
      commitBase, commitSize := PageAddr(coreId, off), NeededSize(size, headersSize);
      PlacementFacts(commitBase, size, alignment, headersSize);
      PlaceableMeans(commitBase, size, alignment, headersSize);
      headerPos := HeaderPos(commitBase, size, alignment, headersSize);
      var need := NeededPages(size, headersSize);
      if headerPos < commitBase || headerPos + headersSize > commitBase + commitSize {
        outcome := Misplaced;
        stranded := stranded + {Range(off, need)};
        return;
      }
      ok := LogTaken(best, need, off, commitSize, ring, first, second, k, was, memory, oldHead);
      if ok {
        live := live + {Range(off, need)};
        outcome := Handed;
      } else {
        outcome := LogFull;
      }
    }

    /** Hands out a range with room for `size` bytes behind `headersSize` bytes of headers
        at an address aligned to `alignment`.  When it cannot, the allocator's state is as
        before, except that pages already taken stay lost if the header does not fit. */
    method Retrieve(size: nat, alignment: nat, headersSize: nat, ring: Ring, first: nat, second: nat)
      returns (ok: bool, commitBase: nat, commitSize: nat, headerPos: int, ghost outcome: Outcome, ghost r: Range)
      requires Valid() && ring.Valid()
      requires 0 < headersSize <= MAX_HEADERS_SIZE && size < MAX_MALLOC_SIZE && 0 < alignment <= MAX_ALIGNMENT
      modifies this, blocks, ring, ring.entries
      ensures Valid() && ring.Valid() && ring.consumed >= old(ring.consumed)
      ensures ok == outcome.Handed?
      ensures outcome.Exhausted? <==> !CanTake(old(State()), NeededPages(size, headersSize))
      ensures outcome.Exhausted? || outcome.LogFull? ==> Untouched()
      ensures outcome.LogFull? ==> |ring.produced| == ring.consumed + ring.capacity
      ensures outcome.Misplaced? ==> Strands(old(State()), State(), NeededPages(size, headersSize), r)
      ensures outcome.Misplaced? <==>
        CanTake(old(State()), NeededPages(size, headersSize)) && !CanPlace(coreId, r, size, alignment, headersSize)
      ensures PAGE_SIZE % alignment == 0 ==> (outcome.Misplaced? <==>
        CanTake(old(State()), NeededPages(size, headersSize)) && !HeaderFits(size, alignment, headersSize))
      ensures !ok ==> ring.produced == old(ring.produced)
      ensures ok ==>
        && Hands(old(State()), State(), NeededPages(size, headersSize), r)
        && CanPlace(coreId, r, size, alignment, headersSize)
        && ring.produced == old(ring.produced) + [LogEntry(Alloc, coreId, r.off, r.pages)]
        && commitBase == PageAddr(coreId, r.off) && commitSize == r.pages * PAGE_SIZE && r.End() <= TOTAL_PAGES
        && commitBase == ARENA_BASE + coreId * ARENA_CAPACITY + ARENA_HEADER_SIZE + r.off * PAGE_SIZE
        && commitBase + commitSize <= ARENA_BASE + (coreId + 1) * ARENA_CAPACITY
        && size + headersSize <= commitSize < size + headersSize + PAGE_SIZE
        && commitBase <= headerPos && headerPos + headersSize + size <= commitBase + commitSize
        && commitBase + commitSize < headerPos + headersSize + size + alignment
        && (headerPos + headersSize) % alignment == 0
        && retrievedBytes == Plus64(old(retrievedBytes), commitSize) && retrieveCount == Wrap(old(retrieveCount) + 1)
    {
      hide Linked, Inv, Takes, CanTake, PageAddr, NeededSize, NeededPages, CanPlace, HeaderFits, Wrap, Plus64, TookFrom;
      hide Ring.Valid, Hands, Strands;
      ok, commitBase, commitSize, headerPos := false, 0, 0, 0;
      NeededSizeFacts(size, headersSize);
      var need := NeededPages(size, headersSize);
      ghost var before, memory, oldHead := State(), blocks[..], head;
      var taken, best, off, k := TakePages(need);
      r := Range(off, need);
      if !taken {
        outcome := Exhausted;
        return;
      }
      TakenIsNew(before, need, free, bump, r);
      PagesInArena(coreId, r);
      TakeKeepsInv(before, need, free, bump, r);
      HandedOrStranded(before, State(), need, r);
      RoomIsKnown(off, size, alignment, headersSize);
      CountRetrieved(donateCount, |live|, retrieveCount);
      ok, commitBase, commitSize, headerPos, outcome :=
        PlaceAndLog(size, alignment, headersSize, best, off, ring, first, second, k, before, memory, oldHead);
    }

    /** Whether the header fits does not depend on where the pages are. */
    lemma RoomIsKnown(off: nat, size: nat, alignment: nat, headersSize: nat)
      requires 0 < headersSize <= MAX_HEADERS_SIZE && size < MAX_MALLOC_SIZE && alignment > 0 && off < U32
      ensures PAGE_SIZE % alignment == 0 ==>
        (CanPlace(coreId, Range(off, NeededPages(size, headersSize)), size, alignment, headersSize)
         <==> HeaderFits(size, alignment, headersSize))
    {
      hide Placeable, HeaderFits, PageAddr;
      if PAGE_SIZE % alignment == 0 {
        PlaceableIff(coreId, off, size, alignment, headersSize);
      }
    }
  }
}

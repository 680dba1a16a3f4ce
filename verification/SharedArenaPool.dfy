/** All arenas and all log rings together (shared_arena.h SharedArenaPool): a block comes
    back to the arena its address lies in, while the entry about it goes to whichever
    ring belongs to the core and process of the caller. */
module SharedArenaPool {

  import opened ArenaAddresses
  import opened ArenaLog
  import opened ArenaModel
  import opened Arithmetic
  import opened LogRing
  import opened SharedArena

  const MAX_CORES: nat := 16

  /** getOwningArena */
  function OwningCore(va: nat): int {
    (va - ARENA_BASE) / ARENA_CAPACITY
  }

  /** isArenaAddr, the check the caller of store makes first. */
  predicate IsArenaAddr(cores: nat, va: nat) {
    ARENA_BASE <= va < ARENA_BASE + cores * ARENA_CAPACITY
  }

  lemma OwnerInRange(cores: nat, va: nat)
    requires IsArenaAddr(cores, va)
    ensures 0 <= OwningCore(va) < cores
  {
  }

  /** Every page of an arena is routed back to that arena. */
  lemma PageIsRoutedHome(c: nat, off: nat)
    requires off < TOTAL_PAGES
    ensures OwningCore(PageAddr(c, off)) == c
  {
    var d := PageAddr(c, off) - ARENA_BASE;
    assert d == c * ARENA_CAPACITY + ARENA_HEADER_SIZE + off * PAGE_SIZE;
    assert ARENA_HEADER_SIZE + off * PAGE_SIZE < ARENA_CAPACITY;
  }

  class Pool {
    const arenas: seq<Arena>
    const rings: seq<Ring>
    ghost var log: seq<Logged>

    ghost predicate Distinct()
    {
      && (forall i, j | 0 <= i < j < |arenas| :: arenas[i] != arenas[j] && arenas[i].blocks != arenas[j].blocks)
      && (forall i, j | 0 <= i < j < |rings| :: rings[i] != rings[j] && rings[i].entries != rings[j].entries)
    }

    /** Core `c`'s books are in order and agree with the replay of the whole log. */
    ghost predicate CoreOk(c: nat)
      requires c < |arenas|
      reads this, arenas[c], arenas[c].blocks
    {
      && arenas[c].coreId == c && arenas[c].Valid()
      && Consistent(log, c) && Replay(log, c) == Outstanding(arenas[c].live)
    }

    ghost predicate RingOk(i: nat)
      requires i < |rings|
      reads this, rings[i], rings[i].entries
    {
      rings[i].Valid() && rings[i].produced == Project(log, i)
    }

    ghost predicate Valid()
      reads this, arenas, (set a | a in arenas :: a.blocks), rings, (set r | r in rings :: r.entries)
    {
      && |arenas| <= MAX_CORES && Distinct()
      && (forall c | 0 <= c < |arenas| :: CoreOk(c))
      && (forall i | 0 <= i < |rings| :: RingOk(i))
    }

    constructor (arenas: seq<Arena>, rings: seq<Ring>)
      requires |arenas| <= MAX_CORES
      requires forall i, j | 0 <= i < j < |arenas| :: arenas[i] != arenas[j] && arenas[i].blocks != arenas[j].blocks
      requires forall i, j | 0 <= i < j < |rings| :: rings[i] != rings[j] && rings[i].entries != rings[j].entries
      requires forall c | 0 <= c < |arenas| :: arenas[c].coreId == c && arenas[c].Valid() && arenas[c].live == {}
      requires forall i | 0 <= i < |rings| :: rings[i].Valid() && rings[i].produced == []
      ensures Valid() && this.arenas == arenas && this.rings == rings
    {
      hide Arena.Valid, Ring.Valid;
      this.arenas, this.rings, log := arenas, rings, [];
      new;
      assert Outstanding({}) == {};
    }

    /** The kernel reads some ring. */
    method KernelConsumes(i: nat, n: nat)
      requires Valid() && i < |rings|
      modifies rings[i]
      ensures Valid() && rings[i].consumed == Min(old(rings[i].consumed) + n, |rings[i].produced|)
    {
      hide Arena.Valid, Ring.Valid;
      assert RingOk(i);
      rings[i].ConsumerRuns(n);
      forall j | 0 <= j < |rings| ensures RingOk(j) {
        assert old(RingOk(j));
      }
      forall c | 0 <= c < |arenas| ensures CoreOk(c) {
        assert old(CoreOk(c));
      }
    }

    /** Retrieve on core `c`, logging to ring `i`. */
    method Allocate(c: nat, i: nat, size: nat, alignment: nat, headersSize: nat, first: nat, second: nat)
      returns (ok: bool, commitBase: nat, commitSize: nat, headerPos: int, ghost r: Range)
      requires Valid() && c < |arenas| && i < |rings|
      requires 0 < headersSize <= MAX_HEADERS_SIZE && size < MAX_MALLOC_SIZE && 0 < alignment <= MAX_ALIGNMENT
      modifies this, arenas[c], arenas[c].blocks, rings[i], rings[i].entries
      ensures Valid()
      ensures ok <==>
        && CanTake(old(arenas[c].State()), NeededPages(size, headersSize))
        && CanPlace(c, r, size, alignment, headersSize)
        && |old(rings[i].produced)| < rings[i].consumed + rings[i].capacity
      ensures PAGE_SIZE % alignment == 0 ==>
        (ok <==>
          && CanTake(old(arenas[c].State()), NeededPages(size, headersSize))
          && HeaderFits(size, alignment, headersSize)
          && |old(rings[i].produced)| < rings[i].consumed + rings[i].capacity)
      ensures arenas[c].live == if ok then old(arenas[c].live) + {r} else old(arenas[c].live)
      ensures ok ==>
        && (forall h | h in old(arenas[c].live) :: r.Apart(h)) && r.End() <= TOTAL_PAGES
        && commitBase == PageAddr(c, r.off) && commitSize == r.pages * PAGE_SIZE
        && commitBase == ARENA_BASE + c * ARENA_CAPACITY + ARENA_HEADER_SIZE + r.off * PAGE_SIZE
        && commitBase + commitSize <= ARENA_BASE + (c + 1) * ARENA_CAPACITY
        && size + headersSize <= commitSize < size + headersSize + PAGE_SIZE
        && commitBase <= headerPos && headerPos + headersSize + size <= commitBase + commitSize
        && commitBase + commitSize < headerPos + headersSize + size + alignment
        && (headerPos + headersSize) % alignment == 0
      ensures log == if ok then old(log) + [Logged(i, LogEntry(Alloc, c, r.off, r.pages))] else old(log)
    {
      hide Arena.Valid, Ring.Valid, Replay, Consistent, Project, Hands, Strands, CanTake, NeededPages, PageAddr,
           CanPlace, HeaderFits;
      assert CoreOk(c) && RingOk(i);
      rings[i].InBounds();
      ghost var outcome;
      ghost var was := arenas[c].State();
      BooksInOrder(arenas[c]);
      NeededSizeFacts(size, headersSize);
      ok, commitBase, commitSize, headerPos, outcome, r :=
        arenas[c].Retrieve(size, alignment, headersSize, rings[i], first, second);
      ghost var entry := LogEntry(Alloc, c, r.off, r.pages);
      LiveAfter(was, arenas[c].State(), NeededPages(size, headersSize), r, outcome);
      rings[i].InBounds();
      if ok {
        LogHandedOut(log, c, was.live, r, i);
        log := log + [Logged(i, entry)];
      }
      forall j | 0 <= j < |rings| ensures RingOk(j) {
        assert old(RingOk(j));
        ProjectStep(old(log), entry, i, j);
      }
      forall d | 0 <= d < |arenas| ensures CoreOk(d) {
        assert old(CoreOk(d));
        if d != c {
          LogOther(old(log), d, entry, i);
        }
      }
    }

    /** Store on the arena that owns the address, logging to ring `i`. */
    method Release(commitBase: nat, commitSize: nat, i: nat, first: nat, second: nat)
      returns (ok: bool, ghost c: nat, ghost r: Range)
      requires Valid() && i < |rings| && IsArenaAddr(|arenas|, commitBase) && 0 <= OwningCore(commitBase) < |arenas|
      requires Accepts(OwningCore(commitBase), commitBase, commitSize) ==>
        StoreRange(OwningCore(commitBase), commitBase, commitSize) in arenas[OwningCore(commitBase)].live
      modifies this, arenas[OwningCore(commitBase)], arenas[OwningCore(commitBase)].blocks
      modifies rings[i], rings[i].entries
      ensures Valid() && c == OwningCore(commitBase) && r == StoreRange(c, commitBase, commitSize)
      ensures ok <==>
        && Accepts(c, commitBase, commitSize)
        && |old(rings[i].produced)| < rings[i].consumed + rings[i].capacity
      ensures ok ==> r in old(arenas[c].live)
      ensures arenas[c].live == if ok then old(arenas[c].live) - {r} else old(arenas[c].live)
      ensures log == if ok then old(log) + [Logged(i, LogEntry(Free, c, r.off, r.pages))] else old(log)
    {
      hide Arena.Valid, Ring.Valid, Replay, Consistent, Project, StoreRange, Accepts, Gives, OwningCore, IsBlock;
      var core := OwningCore(commitBase);
      c := core;
      r := StoreRange(c, commitBase, commitSize);
      assert CoreOk(c) && RingOk(i);
      rings[i].InBounds();
      BooksInOrder(arenas[c]);
      ghost var was := arenas[c].live;
      ok := arenas[core].Store(commitBase, commitSize, rings[i], first, second);
      ghost var entry := LogEntry(Free, c, r.off, r.pages);
      rings[i].InBounds();
      if ok {
        LogGivenBack(log, c, was, r, i);
        log := log + [Logged(i, entry)];
      }
      forall j | 0 <= j < |rings| ensures RingOk(j) {
        assert old(RingOk(j));
        ProjectStep(old(log), entry, i, j);
      }
      forall d | 0 <= d < |arenas| ensures CoreOk(d) {
        assert old(CoreOk(d));
        if d != c {
          LogOther(old(log), d, entry, i);
        }
      }
    }

    /** A block just handed out goes back to the arena it came from, unless the ring has no
        room for the entry. */
    method AllocateAndRelease(c: nat, i: nat, size: nat, alignment: nat, headersSize: nat, first: nat, second: nat)
      returns (got: bool, back: bool)
      requires Valid() && c < |arenas| && i < |rings|
      requires 0 < headersSize <= MAX_HEADERS_SIZE && size < MAX_MALLOC_SIZE && 0 < alignment <= MAX_ALIGNMENT
      modifies this, arenas[c], arenas[c].blocks, rings[i], rings[i].entries
      ensures Valid() && (back ==> got)
      ensures got ==> (back <==> |rings[i].produced| > |old(rings[i].produced)| + 1)
      ensures got && !back ==> |rings[i].produced| == rings[i].consumed + rings[i].capacity
      ensures back ==> arenas[c].live == old(arenas[c].live)
    {
      hide Pool.Valid, Accepts, StoreRange, CanTake, CanPlace, NeededPages, PageAddr, HeaderFits, OwningCore;
      back := false;
      RingHolds(i);
      ghost var log0 := log;
      var commitBase, commitSize, headerPos;
      ghost var r;
      got, commitBase, commitSize, headerPos, r := Allocate(c, i, size, alignment, headersSize, first, second);
      RingHolds(i);
      if got {
        OutstandingIsAccepted(c, commitBase, commitSize);
        assert IsBlock(c, r, commitBase, commitSize);
        Routed(c, r, commitBase);
        ghost var d, s, log1 := 0, r, log;
        back, d, s := Release(commitBase, commitSize, i, first, second);
        RingHolds(i);
        ProjectStep(log0, LogEntry(Alloc, c, r.off, r.pages), i, i);
        ProjectStep(log1, LogEntry(Free, d, s.off, s.pages), i, i);
      }
    }

    lemma RingHolds(i: nat)
      requires Valid() && i < |rings|
      ensures rings[i].produced == Project(log, i) && |rings[i].produced| <= rings[i].consumed + rings[i].capacity
    {
      assert RingOk(i);
    }

    /** The front end's check and the owner it finds. */
    lemma Routed(c: nat, r: Range, commitBase: nat)
      requires c < |arenas| && r.End() <= TOTAL_PAGES && r.pages > 0 && commitBase == PageAddr(c, r.off)
      ensures IsArenaAddr(|arenas|, commitBase) && OwningCore(commitBase) == c
    {
      PageIsRoutedHome(c, r.off);
      PagesInArena(c, r);
      MulMono(c + 1, |arenas|, ARENA_CAPACITY);
    }

    /** What was handed out passes the guard of store, which then names the same pages. */
    lemma OutstandingIsAccepted(c: nat, commitBase: nat, commitSize: nat)
      requires Valid() && c < |arenas|
      ensures forall s | s in arenas[c].live && IsBlock(c, s, commitBase, commitSize) ::
        Accepts(c, commitBase, commitSize) && StoreRange(c, commitBase, commitSize) == s
    {
      forall s | s in arenas[c].live && IsBlock(c, s, commitBase, commitSize)
        ensures Accepts(c, commitBase, commitSize) && StoreRange(c, commitBase, commitSize) == s
      {
        LiveInArena(c, s);
        PagesInArena(c, s);
        HandedOutIsStorable(c, s);
      }
    }

    lemma LiveInArena(c: nat, s: Range)
      requires Valid() && c < |arenas| && s in arenas[c].live
      ensures s.pages > 0 && s.End() <= TOTAL_PAGES
    {
      assert CoreOk(c);
      BelowBump(arenas[c].State(), s);
    }

    /** No two outstanding blocks, of whichever cores, share a byte, and none lies on the
        header of an arena. */
    lemma BlocksApart(c: nat, r: Range, d: nat, s: Range)
      requires Valid() && c < |arenas| && d < |arenas| && r in arenas[c].live && s in arenas[d].live
      requires c != d || r != s
      ensures
        var here := ARENA_BASE + c * ARENA_CAPACITY + ARENA_HEADER_SIZE + r.off * PAGE_SIZE;
        var there := ARENA_BASE + d * ARENA_CAPACITY + ARENA_HEADER_SIZE + s.off * PAGE_SIZE;
        var header := ARENA_BASE + d * ARENA_CAPACITY;
        && (here + r.pages * PAGE_SIZE <= there || there + s.pages * PAGE_SIZE <= here)
        && (here + r.pages * PAGE_SIZE <= header || header + ARENA_HEADER_SIZE <= here)
    {
      LiveInArena(c, r);
      LiveInArena(d, s);
      if c == d {
        assert CoreOk(c);
        BooksInOrder(arenas[c]);
      }
      BytesApart(c, r, d, s);
      HeadersApart(c, r, d);
    }

    static lemma LiveAfter(s: ArenaState, s': ArenaState, need: nat, r: Range, outcome: Outcome)
      requires Inv(s) && need > 0
      requires outcome.Exhausted? || outcome.LogFull? ==> s' == s
      requires outcome.Misplaced? ==> Strands(s, s', need, r)
      requires outcome.Handed? ==> Hands(s, s', need, r)
      ensures s'.live == if outcome.Handed? then s.live + {r} else s.live
      ensures outcome.Handed? ==> forall h | h in s.live :: r.Apart(h)
    {
      if outcome.Handed? {
        TakenIsFresh(s, need, s'.free, s'.bump, r);
      }
    }

    static lemma BooksInOrder(arena: Arena)
      requires arena.Valid()
      ensures Inv(arena.State()) && HeldApart(arena.live)
    {
    }
  }
}

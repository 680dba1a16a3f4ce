/** Page release end to end (primary64.h releaseToOSMaybe): the groups pulled out of a size
    class's list are fit for marking, and no page given back to the system is touched by a
    block that a user holds, a thread has cached, or the rest of the list records. */
module RegionRelease {

  import opened AllocatorRuns
  import opened Arithmetic
  import opened BatchCache
  import opened BatchClassRegion
  import opened BlockGrid
  import opened ConservedBlocks
  import opened FreeListTypes
  import opened GroupChoice
  import opened GroupLists
  import opened GroupSort
  import opened PackedCounters
  import opened PageRanges
  import opened PageRelease
  import opened PrimaryAllocator
  import opened PrimaryRelease
  import opened RegionFreeList
  import opened RegionMapping
  import opened ReleaseRecorder
  import opened Sequences

  /** The sizes of a class's region, with compact pointers of `ptrBytes` bytes. */
  function GeometryOf(k: SizeClass, ps: nat, ptrBytes: nat): Geometry
    reads k
  {
    Geometry(k.unit * ptrBytes, ps, k.list.span * ptrBytes, ptrBytes, k.carved, k.list.max)
  }

  /** Pages divide groups. */
  ghost predicate PagesFit(k: SizeClass, ps: nat, ptrBytes: nat) {
    0 < ps < WORD_LIMIT && ptrBytes > 0 && k.list.span * ptrBytes % ps == 0
  }

  lemma PositiveProduct(a: nat, b: nat)
    requires a > 0 && b > 0
    ensures a * b > 0
  {
    MulMono(1, a, b);
  }

  /** A carved block of the class, as a pointer. */
  lemma CarvedAt(unit: nat, n: nat, x: nat) returns (i: nat)
    requires x in multiset(Carved(unit, n))
    ensures i < n && x == i * unit
  {
    assert x in Carved(unit, n);
    i :| i < n && Carved(unit, n)[i] == x;
  }

  /** A pointer of the group, in bytes: within the group and the region, on a block boundary. */
  lemma PointerInGroup(unit: nat, span: nat, ptrBytes: nat, i: nat, n: nat, x: nat, base: nat)
    requires unit > 0 && span > 0 && ptrBytes > 0 && i < n && x == i * unit && base == Group(x, span)
    ensures base * ptrBytes <= x * ptrBytes < base * ptrBytes + span * ptrBytes
    ensures base * ptrBytes % (span * ptrBytes) == 0
    ensures x * ptrBytes % (unit * ptrBytes) == 0 && x * ptrBytes < n * (unit * ptrBytes)
  {
    PositiveProduct(span, ptrBytes);
    PositiveProduct(unit, ptrBytes);
    DivFacts(x, span);
    var q := x / span;
    assert (q + 1) * span == q * span + span;
    MulMono(base, x, ptrBytes);
    MulMono(x + 1, base + span, ptrBytes);
    assert (x + 1) * ptrBytes == x * ptrBytes + ptrBytes;
    assert (base + span) * ptrBytes == base * ptrBytes + span * ptrBytes;
    assert base * ptrBytes == q * (span * ptrBytes);
    AddMulMod(0, q, span * ptrBytes);
    assert x * ptrBytes == i * (unit * ptrBytes);
    AddMulMod(0, i, unit * ptrBytes);
    MulMono(i + 1, n, unit * ptrBytes);
    assert (i + 1) * (unit * ptrBytes) == i * (unit * ptrBytes) + unit * ptrBytes;
  }

  /** A group of the list is one that markFreeBlocks can handle. */
  lemma ListGroupFits(k: SizeClass, g: BatchGroup, ps: nat, ptrBytes: nat)
    requires k.Shape() && PagesFit(k, ps, ptrBytes) && GroupOk(g, k.list.max, k.list.span)
    requires multiset(Blocks(g.batches)) <= multiset(Carved(k.unit, k.carved))
    ensures GeometryOf(k, ps, ptrBytes).Ok() && GeometryOf(k, ps, ptrBytes).GroupFits(g)
  {
    hide Carved, Group;
    var geo, ptrs := GeometryOf(k, ps, ptrBytes), Blocks(g.batches);
    forall x | x in ptrs
      ensures Group(x, k.list.span) == g.groupBase && k.carved > 0
      ensures geo.Start(g) <= x * ptrBytes < geo.Start(g) + geo.groupSize && geo.Start(g) % geo.groupSize == 0
      ensures x * ptrBytes % geo.bs == 0 && x * ptrBytes < geo.Size()
    {
      assert x in multiset(ptrs);
      var i := CarvedAt(k.unit, k.carved, x);
      PointerInGroup(k.unit, k.list.span, ptrBytes, i, k.carved, x, g.groupBase);
    }
    PositiveProduct(k.unit, ptrBytes);
    PositiveProduct(k.list.span, ptrBytes);
    BlocksOnce(k.unit, k.carved, ptrs);
    assert g.batches[0].blocks[0] in ptrs;
  }

  lemma BlocksOnce(unit: nat, n: nat, ptrs: seq<nat>)
    requires unit > 0 && multiset(ptrs) <= multiset(Carved(unit, n))
    ensures Distinct(ptrs)
  {
    CarvedDistinct(unit, n);
    forall x: nat ensures multiset(ptrs)[x] <= 1 {
      OnceEach(Carved(unit, n), x);
    }
    DistinctFromCounts(ptrs);
  }

  /** The groups pulled out of a class's list are what markFreeBlocks demands. */
  lemma ReleasedGroupsFit(k: SizeClass, groups: seq<BatchGroup>, ps: nat, ptrBytes: nat)
    requires k.Shape() && PagesFit(k, ps, ptrBytes) && GroupsOk(groups, k.list.max, k.list.span) && groups != []
    requires AllBlocks(groups) <= multiset(Carved(k.unit, k.carved))
    ensures GeometryOf(k, ps, ptrBytes).Ok() && GeometryOf(k, ps, ptrBytes).GroupsFit(groups)
  {
    hide SizeClass.Shape, Carved, AllBlocks, Nodes, Geometry.GroupFits, GroupOk;
    forall i | 0 <= i < |groups|
      ensures GeometryOf(k, ps, ptrBytes).Ok() && GeometryOf(k, ps, ptrBytes).GroupFits(groups[i])
    {
      SplitAt(groups, i);
      assert multiset(Blocks(groups[i].batches)) <= AllBlocks(groups);
      ListGroupFits(k, groups[i], ps, ptrBytes);
    }
    var first := GeometryOf(k, ps, ptrBytes).GroupFits(groups[0]);
  }

  /** What the books say of the groups pulled out. */
  lemma ReleasedAreCarved(a: Allocator, c: nat)
    requires a.Valid() && c < |a.classes|
    ensures
      var k := a.classes[c];
      && k.Shape() && GroupsOk(k.list.released, k.list.max, k.list.span)
      && AllBlocks(k.list.released) <= multiset(Carved(k.unit, k.carved))
  {
    hide Carved, AllBlocks, Nodes, GroupsOk, Sum;
    a.ListIsOk(c);
  }

  /** A user or a thread has the block. */
  ghost predicate InHand(live: multiset<nat>, row: seq<PerClass>, x: nat)
    reads row, (set p | p in row :: p.chunks)
  {
    x in live || exists p :: p in row && p.count <= p.chunks.Length && x in p.chunks[..p.count]
  }

  /** No block in anyone's hands touches a page of `pages`, counted from page `first`. */
  ghost predicate HandsOff(live: multiset<nat>, row: seq<PerClass>, unit: nat, geo: Geometry, first: nat,
                           pages: seq<PageRange>)
    reads row, (set p | p in row :: p.chunks)
  {
    forall q: nat, j: nat | InSome(pages, q) && j < geo.n && Touches(geo.bs, geo.ps, j, first + q) ::
      !InHand(live, row, j * unit)
  }

  /** Nor does one that an allocation may take off the list. */
  ghost predicate OffList(groups: seq<BatchGroup>, unit: nat, geo: Geometry, first: nat, pages: seq<PageRange>) {
    forall q: nat, j: nat | InSome(pages, q) && j < geo.n && Touches(geo.bs, geo.ps, j, first + q) ::
      j * unit !in AllBlocks(groups)
  }

  /** A free block of the groups pulled out is in no one's hands. */
  lemma ReleasedIsNotInUse(a: Allocator, c: nat, x: nat)
    requires a.Valid() && c < |a.classes| && x in AllBlocks(a.classes[c].list.released)
    ensures c < |a.books| == |a.chunks| && !InHand(a.books[c].live, a.chunks[c], x)
    ensures x !in AllBlocks(a.classes[c].list.groups)
  {
    hide Carved, AllBlocks, Nodes, Sum, GroupsOk, Cache.Valid, BatchClass.Valid, Allocator.Wired;
    a.ListIsOk(c);
    var k := a.classes[c];
    CarvedDistinct(k.unit, k.carved);
    OnceEach(Carved(k.unit, k.carved), x);
    var all: multiset<nat> := multiset(Carved(k.unit, k.carved));
    assert all[x] <= 1 && all[x] == k.list.Free()[x] + Sum(a.books[c].cached)[x] + a.books[c].live[x];
    forall t | 0 <= t < |a.chunks[c]| ensures x !in a.chunks[c][t].chunks[..a.chunks[c][t].count] {
      assert HoldsChunks(a.chunks[c][t], a.books[c].cached[t]);
      SumUpdate(a.books[c].cached, t, multiset{});
      assert a.books[c].cached[t][x] <= Sum(a.books[c].cached)[x];
    }
  }

  /** The pointer that records a group's free block. */
  lemma PointerOf(geo: Geometry, g: BatchGroup, j: nat) returns (x: nat)
    requires geo.Ok() && geo.GroupFits(g) && j in geo.FreeBlocks(g)
    ensures x in Blocks(g.batches) && x * geo.ptrBytes == j * geo.bs
  {
    hide Blocks;
    x :| x in Blocks(g.batches) && j == BlockOf(geo.bs, geo.ptrBytes, x);
    PointerIsBlock(geo.bs, geo.ptrBytes, x);
  }

  lemma BlockAddress(unit: nat, ptrBytes: nat, j: nat, x: nat)
    requires ptrBytes > 0 && x * ptrBytes == j * (unit * ptrBytes)
    ensures x == j * unit
  {
    assert j * (unit * ptrBytes) == (j * unit) * ptrBytes;
    SameProduct(ptrBytes, x, j * unit);
  }

  /** A block among the groups' free blocks is recorded in them. */
  lemma FreeBlockIsRecorded(k: SizeClass, groups: seq<BatchGroup>, ps: nat, ptrBytes: nat, j: nat)
    requires k.unit > 0 && ptrBytes > 0
    requires GeometryOf(k, ps, ptrBytes).Ok() && GeometryOf(k, ps, ptrBytes).GroupsFit(groups)
    requires j in GeometryOf(k, ps, ptrBytes).AllFreeBlocks(groups)
    ensures j * k.unit in AllBlocks(groups)
  {
    hide AllBlocks, Blocks, Geometry.AllFreeBlocks, Geometry.FreeBlocks, Geometry.GroupFits, Geometry.Ok;
    var geo := GeometryOf(k, ps, ptrBytes);
    var i := FreeBlockOfSome(geo, groups, j);
    var x := PointerOf(geo, groups[i], j);
    BlockAddress(k.unit, ptrBytes, j, x);
    BlocksIncluded(groups, i, x);
  }

  lemma FreedMeansFree(geo: Geometry, groups: seq<BatchGroup>, p: nat, j: nat)
    requires geo.Ok() && geo.GroupsFit(groups) && groups != [] && Freed(geo, groups, p)
    requires j < geo.n && Touches(geo.bs, geo.ps, j, p)
    ensures j in geo.AllFreeBlocks(groups)
  {
    hide Geometry.GroupsFit, Geometry.AllFreeBlocks, MayWithholdLastPage;
  }

  lemma PagesAreSafe(a: Allocator, c: nat, ps: nat, ptrBytes: nat, geo: Geometry, groups: seq<BatchGroup>,
                     pages: seq<PageRange>)
    requires a.Valid() && c < |a.classes| && ptrBytes > 0
    requires geo == GeometryOf(a.classes[c], ps, ptrBytes) && groups == a.classes[c].list.released != []
    requires geo.Ok() && geo.GroupsFit(groups)
    requires forall q: nat | InSome(pages, q) :: Freed(geo, groups, WindowStart(geo, groups) + q)
    ensures c < |a.books| == |a.chunks|
    ensures HandsOff(a.books[c].live, a.chunks[c], a.classes[c].unit, geo, WindowStart(geo, groups), pages)
    ensures OffList(a.classes[c].list.groups, a.classes[c].unit, geo, WindowStart(geo, groups), pages)
  {
    hide Geometry.GroupsFit, Geometry.AllFreeBlocks, InHand, Freed, WindowStart, InSome, Touches;
    hide Allocator.Valid, AllBlocks;
    PositiveUnit(a, c);
    forall q: nat, j: nat
      | InSome(pages, q) && j < geo.n && Touches(geo.bs, geo.ps, j, WindowStart(geo, groups) + q)
      ensures !InHand(a.books[c].live, a.chunks[c], j * a.classes[c].unit)
      ensures j * a.classes[c].unit !in AllBlocks(a.classes[c].list.groups)
    {
      FreedMeansFree(geo, groups, WindowStart(geo, groups) + q, j);
      FreeBlockIsRecorded(a.classes[c], groups, ps, ptrBytes, j);
      ReleasedIsNotInUse(a, c, j * a.classes[c].unit);
    }
  }

  lemma PositiveUnit(a: Allocator, c: nat)
    requires a.Valid() && c < |a.classes|
    ensures a.Sized() && a.classes[c].unit > 0
  {
    a.ListIsOk(c);
  }

  // ------------------------------------------------------------------ in memory

  /** No byte given back belongs to a block in anyone's hands. */
  ghost predicate HandsSpared(given: seq<(nat, nat)>, regionBeg: nat, ptrBytes: nat, size: nat,
                              live: multiset<nat>, row: seq<PerClass>)
    reads row, (set p | p in row :: p.chunks)
  {
    forall x: nat | InHand(live, row, x) :: Spared(given, regionBeg + x * ptrBytes, size)
  }

  /** Nor to one that an allocation may take off the list. */
  ghost predicate ListSpared(given: seq<(nat, nat)>, regionBeg: nat, ptrBytes: nat, size: nat,
                             groups: seq<BatchGroup>) {
    forall x: nat | x in AllBlocks(groups) :: Spared(given, regionBeg + x * ptrBytes, size)
  }

  /** A block in someone's hands, or on the list, has been carved. */
  lemma InUseIsCarved(a: Allocator, c: nat, x: nat) returns (j: nat)
    requires a.Valid() && c < |a.classes| && c < |a.books| && c < |a.chunks|
    requires InHand(a.books[c].live, a.chunks[c], x) || x in AllBlocks(a.classes[c].list.groups)
    ensures j < a.classes[c].carved && x == j * a.classes[c].unit
  {
    hide Carved, AllBlocks, Nodes, Sum, GroupsOk, Cache.Valid, BatchClass.Valid, Allocator.Wired, Mapping.Inv;
    a.ListIsOk(c);
    var k := a.classes[c];
    var all: multiset<nat> := multiset(Carved(k.unit, k.carved));
    assert all[x] == k.list.Free()[x] + Sum(a.books[c].cached)[x] + a.books[c].live[x];
    if x !in AllBlocks(k.list.groups) && x !in a.books[c].live {
      var p :| p in a.chunks[c] && p.count <= p.chunks.Length && x in p.chunks[..p.count];
      var t :| 0 <= t < |a.chunks[c]| && a.chunks[c][t] == p;
      assert HoldsChunks(a.chunks[c][t], a.books[c].cached[t]);
      SumUpdate(a.books[c].cached, t, multiset{});
      assert a.books[c].cached[t][x] <= Sum(a.books[c].cached)[x];
    }
    j := CarvedAt(k.unit, k.carved, x);
  }

  /** At any time while the groups are out, what has been given back of their pages belongs
      to no block in anyone's hands or on the rest of the list. */
  lemma MemoryIsSafe(a: Allocator, c: nat, ps: nat, ptrBytes: nat, regionBeg: nat, geo: Geometry,
                     groups: seq<BatchGroup>, given: seq<(nat, nat)>, pages: seq<PageRange>)
    requires a.Valid() && c < |a.classes| && ptrBytes > 0
    requires geo == GeometryOf(a.classes[c], ps, ptrBytes) && groups == a.classes[c].list.released != []
    requires geo.Ok() && geo.GroupsFit(groups) && PagesAt(given, regionBeg, ps, WindowStart(geo, groups), pages)
    requires forall q: nat | InSome(pages, q) :: Freed(geo, groups, WindowStart(geo, groups) + q)
    ensures c < |a.books| == |a.chunks|
    ensures HandsSpared(given, regionBeg, ptrBytes, geo.bs, a.books[c].live, a.chunks[c])
    ensures ListSpared(given, regionBeg, ptrBytes, geo.bs, a.classes[c].list.groups)
  {
    hide Geometry.GroupsFit, Geometry.AllFreeBlocks, InHand, Freed, WindowStart, InSome, Touches, PagesAt, Spared;
    hide Allocator.Valid, AllBlocks;
    PagesAreSafe(a, c, ps, ptrBytes, geo, groups, pages);
    var first, k := WindowStart(geo, groups), a.classes[c];
    forall x: nat | InHand(a.books[c].live, a.chunks[c], x) || x in AllBlocks(k.list.groups)
      ensures Spared(given, regionBeg + x * ptrBytes, geo.bs)
    {
      var j := InUseIsCarved(a, c, x);
      UntouchedIsSpared(given, regionBeg, ps, first, pages, geo.bs, j);
      assert j * geo.bs == x * ptrBytes;
    }
  }

  /** Steps 3 and 4 of releaseToOSMaybe, while other threads may use the rest of the list. */
  method ReleasePages(a: Allocator, c: nat, ps: nat, ptrBytes: nat, regionBeg: nat, bufferAvailable: bool)
    returns (released: seq<(nat, nat)>, ghost pages: seq<PageRange>)
    requires a.Valid() && c < |a.classes| && PagesFit(a.classes[c], ps, ptrBytes) && a.classes[c].list.released != []
    ensures a.Valid() && a.books == old(a.books)
    ensures
      var geo, groups := GeometryOf(a.classes[c], ps, ptrBytes), a.classes[c].list.released;
      && geo.Ok() && geo.GroupsFit(groups) && c < |a.books| == |a.chunks|
      && PagesAt(released, regionBeg, ps, WindowStart(geo, groups), pages)
      && (!bufferAvailable ==> released == [])
      && (forall q: nat | InSome(pages, q) :: Freed(geo, groups, WindowStart(geo, groups) + q))
      && HandsOff(a.books[c].live, a.chunks[c], a.classes[c].unit, geo, WindowStart(geo, groups), pages)
      && OffList(a.classes[c].list.groups, a.classes[c].unit, geo, WindowStart(geo, groups), pages)
      && HandsSpared(released, regionBeg, ptrBytes, geo.bs, a.books[c].live, a.chunks[c])
      && ListSpared(released, regionBeg, ptrBytes, geo.bs, a.classes[c].list.groups)
      && (bufferAvailable ==> forall p: nat | p < CeilDiv(geo.Size(), ps) ::
           InSome(pages, p - WindowStart(geo, groups)) <==> Freed(geo, groups, p))
      && (bufferAvailable ==> forall p: nat | p < CeilDiv(geo.Size(), ps) ::
           GivenBack(released, regionBeg, ps, p) <==> Freed(geo, groups, p))
  {
    hide Allocator.Valid, Geometry.GroupFits, CeilDiv, Freed, AllBlocks, GroupsOk, Carved, PagesAt, GivenBack;
    hide HandsOff, OffList, HandsSpared, ListSpared;
    ReleasedAreCarved(a, c);
    ReleasedGroupsFit(a.classes[c], a.classes[c].list.released, ps, ptrBytes);
    ghost var geo, groups := GeometryOf(a.classes[c], ps, ptrBytes), a.classes[c].list.released;
    released, pages := ReleaseFor(a, c, GeometryOf(a.classes[c], ps, ptrBytes), regionBeg, bufferAvailable);
    PagesAreSafe(a, c, ps, ptrBytes, geo, groups, pages);
    MemoryIsSafe(a, c, ps, ptrBytes, regionBeg, geo, groups, released, pages);
  }

  /** ReleaseGroups leaves the allocator alone. */
  method ReleaseFor(a: Allocator, c: nat, geo: Geometry, regionBeg: nat, bufferAvailable: bool)
    returns (released: seq<(nat, nat)>, ghost pages: seq<PageRange>)
    requires a.Valid() && c < |a.classes| && a.classes[c].list.released != []
    requires geo.Ok() && geo.GroupsFit(a.classes[c].list.released)
    ensures a.Valid() && a.books == old(a.books)
    ensures
      var groups := a.classes[c].list.released;
      && PagesAt(released, regionBeg, geo.ps, WindowStart(geo, groups), pages)
      && (!bufferAvailable ==> released == [])
      && (forall q: nat | InSome(pages, q) :: Freed(geo, groups, WindowStart(geo, groups) + q))
      && (bufferAvailable ==> forall p: nat | p < CeilDiv(geo.Size(), geo.ps) ::
           InSome(pages, p - WindowStart(geo, groups)) <==> Freed(geo, groups, p))
      && (bufferAvailable ==> forall p: nat | p < CeilDiv(geo.Size(), geo.ps) ::
           GivenBack(released, regionBeg, geo.ps, p) <==> Freed(geo, groups, p))
  {
    hide Geometry.GroupFits, CeilDiv, Freed, Geometry.Ok, Allocator.CacheOk, ClassBooks, Allocator.BatchOk,
         Allocator.Wired, GivenBack;
    released, pages := ReleaseGroups(geo, a.classes[c].list.released, regionBeg, bufferAvailable);
    RangesAreFreed(geo, a.classes[c].list.released, pages, bufferAvailable, released);
  }

  lemma RangesAreFreed(geo: Geometry, groups: seq<BatchGroup>, pages: seq<PageRange>, bufferAvailable: bool,
                       released: seq<(nat, nat)>)
    requires geo.Ok() && geo.GroupsFit(groups) && groups != [] && |released| == |pages|
    requires !bufferAvailable ==> released == []
    requires forall q: nat | InSome(pages, q) :: WindowStart(geo, groups) + q < CeilDiv(geo.Size(), geo.ps)
    requires bufferAvailable ==> forall p: nat | p < CeilDiv(geo.Size(), geo.ps) ::
      InSome(pages, p - WindowStart(geo, groups)) <==> Freed(geo, groups, p)
    ensures forall q: nat | InSome(pages, q) :: Freed(geo, groups, WindowStart(geo, groups) + q)
  {
    hide Geometry.GroupsFit, CeilDiv, Freed;
    forall q: nat | InSome(pages, q) ensures Freed(geo, groups, WindowStart(geo, groups) + q) {
      var p := WindowStart(geo, groups) + q;
      assert p - WindowStart(geo, groups) == q;
    }
  }

  // ------------------------------------------------------------------ the whole release

  /** What collectGroupsToRelease looks at. */
  function TuningOf(k: SizeClass, ps: nat, ptrBytes: nat, pageDelta: nat): Tuning
    reads k
  {
    Tuning(k.unit * ptrBytes, ps, k.list.span * ptrBytes, ptrBytes, k.carved * (k.unit * ptrBytes), pageDelta)
  }

  /** The groups that a release takes out. */
  function GroupsTaken(groups: seq<BatchGroup>, tuning: Tuning, forceAll: bool, worthwhile: bool): seq<BatchGroup>
    requires tuning.Ok()
  {
    if forceAll then groups else if worthwhile then tuning.Taken(groups) else []
  }

  /** Which memory has been given back: none if no group was taken; else exactly the pages
      that no block in use touches, but for a withheld last page. */
  ghost predicate Exactly(given: seq<(nat, nat)>, regionBeg: nat, geo: Geometry, taken: seq<BatchGroup>,
                          bufferAvailable: bool)
  {
    && (taken == [] || !bufferAvailable ==> given == [])
    && (taken != [] ==> geo.Ok() && geo.GroupsFit(taken))
    && (taken != [] && bufferAvailable ==> forall p: nat | p < CeilDiv(geo.Size(), geo.ps) ::
         GivenBack(given, regionBeg, geo.ps, p) <==> Freed(geo, taken, p))
  }

  /** Under the shipped configurations no page is withheld. */
  lemma NothingWithheldWhenSteady(k: SizeClass, ps: nat, ptrBytes: nat, taken: seq<BatchGroup>, p: nat)
    requires k.mapping.Inv(k.carved, k.mappedUser) && k.mapping.blockSize == k.unit * ptrBytes
    requires FillsGroups(k.mapping, k.list.span * ptrBytes)
    requires GeometryOf(k, ps, ptrBytes).Ok() && GeometryOf(k, ps, ptrBytes).GroupsFit(taken) && taken != []
    requires p < CeilDiv(GeometryOf(k, ps, ptrBytes).Size(), ps)
    ensures
      var geo := GeometryOf(k, ps, ptrBytes);
      Freed(geo, taken, p) <==> Unused(geo.bs, geo.ps, geo.n, geo.AllFreeBlocks(taken), p)
  {
    var geo := GeometryOf(k, ps, ptrBytes);
    hide Mapping.Inv, FillsGroups, Geometry.GroupsFit, Freed, Unused, Geometry.AllFreeBlocks, CeilDiv, EndsAcross;
    forall i: nat ensures !EndsAcross(geo.bs, geo.n, geo.groupSize, i) {
      NeverEndsAcross(k.mapping, k.carved, k.mappedUser, k.list.span * ptrBytes, i);
    }
    NothingWithheld(geo, taken, p);
  }

  /** Whatever calls other threads make while the groups are out, none of them is handed a
      block that reaches into memory given back. */
  method RunBeside(a: Allocator, c: nat, ps: nat, ptrBytes: nat, regionBeg: nat, given: seq<(nat, nat)>,
                   ghost pages: seq<PageRange>, calls: seq<Call>, users: seq<seq<nat>>)
    returns (users': seq<seq<nat>>, ghost seen: seq<Snapshot>)
    requires a.Valid() && UsersHold(a, users) && c < |a.classes| && ptrBytes > 0 && a.classes[c].list.released != []
    requires
      var geo, groups := GeometryOf(a.classes[c], ps, ptrBytes), a.classes[c].list.released;
      && geo.Ok() && geo.GroupsFit(groups) && PagesAt(given, regionBeg, ps, WindowStart(geo, groups), pages)
      && forall q: nat | InSome(pages, q) :: Freed(geo, groups, WindowStart(geo, groups) + q)
    modifies a`held, a`nodes, a`books, a.caches, (set k | k in a.caches :: k.chunks), a.batch
    modifies a.classes, (set k | k in a.classes :: k.list), a.AllChunks(), (set p | p in a.AllChunks() :: p.chunks)
    ensures a.Valid() && UsersHold(a, users') && a.Sized() && (calls == [] ==> users' == users)
    ensures IsRun(calls, seen, c) && seen[0] == old(Seen(a, users)) && seen[|calls|] == Seen(a, users')
    ensures a.classes[c].list.released == old(a.classes[c].list.released)
    ensures a.classes[c].carved == old(a.classes[c].carved) && a.classes[c].mappedUser == old(a.classes[c].mappedUser)
    ensures HandsSpared(given, regionBeg, ptrBytes, a.classes[c].unit * ptrBytes, a.books[c].live, a.chunks[c])
    ensures ListSpared(given, regionBeg, ptrBytes, a.classes[c].unit * ptrBytes, a.classes[c].list.groups)
  {
    hide Allocator.Valid, Freed, Geometry.GroupsFit, HandsSpared, ListSpared, PagesAt, Mapping.Inv, WindowStart;
    hide Seen, IsRun, Allocator.AllChunks;
    ghost var geo, groups := GeometryOf(a.classes[c], ps, ptrBytes), a.classes[c].list.released;
    users', seen := RunAll(a, calls, users, c);
    MemoryIsSafe(a, c, ps, ptrBytes, regionBeg, geo, groups, given, pages);
    PositiveUnit(a, c);
  }

  /** With the groups pulled out: other threads go on (`before`), the pages are given back,
      other threads go on (`after`), the groups are merged back. */
  method ReleaseCollected(a: Allocator, c: nat, t: nat, ps: nat, ptrBytes: nat, regionBeg: nat, bufferAvailable: bool,
                          users: seq<seq<nat>>, before: seq<Call>, after: seq<Call>)
    returns (released: seq<(nat, nat)>, users': seq<seq<nat>>, ghost seenBefore: seq<Snapshot>,
             ghost seenAfter: seq<Snapshot>)
    requires a.Valid() && c < |a.classes| && t < |a.caches| && PagesFit(a.classes[c], ps, ptrBytes)
    requires a.classes[c].list.released != [] && UsersHold(a, users)
    modifies a`held, a`nodes, a`books, a.caches, (set k | k in a.caches :: k.chunks), a.batch
    modifies a.classes, (set k | k in a.classes :: k.list), a.AllChunks(), (set p | p in a.AllChunks() :: p.chunks)
    ensures a.Valid() && UsersHold(a, users') && a.Sized() && a.classes[c].list.released == []
    ensures before == [] && after == [] ==> users' == users
    ensures IsRun(before, seenBefore, c) && IsRun(after, seenAfter, c) && seenBefore[0] == old(Seen(a, users))
    ensures seenAfter[0].users == seenBefore[|before|].users && seenAfter[|after|].users == users'
    ensures a.classes[c].carved == old(a.classes[c].carved) && a.classes[c].mappedUser == old(a.classes[c].mappedUser)
    ensures Exactly(released, regionBeg, GeometryOf(a.classes[c], ps, ptrBytes), old(a.classes[c].list.released),
                    bufferAvailable)
    ensures HandsSpared(released, regionBeg, ptrBytes, a.classes[c].unit * ptrBytes, a.books[c].live, a.chunks[c])
  {
    hide Allocator.Valid, CeilDiv, Freed, HandsOff, OffList, Geometry.GroupsFit, HandsSpared, ListSpared, PagesAt;
    hide Mapping.Inv, GivenBack, WindowStart, IsRun, Seen, Allocator.AllChunks;
    UsersSeen(a, users);
    users', seenBefore := RunAll(a, before, users, c);
    UsersSeen(a, users');
    ghost var pages;
    released, pages := ReleasePages(a, c, ps, ptrBytes, regionBeg, bufferAvailable);
    UsersSeen(a, users');
    users', seenAfter := RunBeside(a, c, ps, ptrBytes, regionBeg, released, pages, after, users');
    UsersSeen(a, users');
    a.MergeGroups(c, t);
    PositiveUnit(a, c);
  }

  /** releaseToOSMaybe on thread `t`; whether the release is worth an attempt the thresholds
      decide (`worthwhile`).  Meanwhile other threads make the calls `before` and `after`. */
  method ReleaseToOSMaybe(a: Allocator, c: nat, t: nat, ps: nat, ptrBytes: nat, regionBeg: nat, pageDelta: nat,
                          forceAll: bool, worthwhile: bool, bufferAvailable: bool,
                          users: seq<seq<nat>>, before: seq<Call>, after: seq<Call>)
    returns (released: seq<(nat, nat)>, users': seq<seq<nat>>, ghost taken: seq<BatchGroup>,
             ghost seenBefore: seq<Snapshot>, ghost seenAfter: seq<Snapshot>)
    requires a.Valid() && c < |a.classes| && t < |a.caches| && PagesFit(a.classes[c], ps, ptrBytes)
    requires a.classes[c].list.released == [] && UsersHold(a, users)
    modifies a`held, a`nodes, a`books, a.caches, (set k | k in a.caches :: k.chunks), a.batch
    modifies a.classes, (set k | k in a.classes :: k.list), a.AllChunks(), (set p | p in a.AllChunks() :: p.chunks)
    ensures a.Valid() && UsersHold(a, users') && a.Sized() && a.classes[c].list.released == []
    ensures before == [] && after == [] ==> users' == users
    ensures taken == [] ==> users' == users
    ensures taken != [] ==>
      && IsRun(before, seenBefore, c) && IsRun(after, seenAfter, c) && seenBefore[0].users == users
      && seenAfter[0].users == seenBefore[|before|].users && seenAfter[|after|].users == users'
    ensures a.classes[c].carved == old(a.classes[c].carved) && TuningOf(a.classes[c], ps, ptrBytes, pageDelta).Ok()
    ensures taken == GroupsTaken(old(a.classes[c].list.groups), TuningOf(a.classes[c], ps, ptrBytes, pageDelta),
                                 forceAll, worthwhile)
    ensures forceAll ==> taken == old(a.classes[c].list.groups)
    ensures !forceAll && worthwhile ==>
      var k := a.classes[c];
      k.unit * ptrBytes > 0 && ChosenFrom(old(k.list.groups), taken, k.unit * ptrBytes, ps, k.list.span * ptrBytes,
                                          ptrBytes, k.carved * (k.unit * ptrBytes), pageDelta)
    ensures Exactly(released, regionBeg, GeometryOf(a.classes[c], ps, ptrBytes), taken, bufferAvailable)
    ensures HandsSpared(released, regionBeg, ptrBytes, a.classes[c].unit * ptrBytes, a.books[c].live, a.chunks[c])
    ensures a.classes[c].mapping.Ok()
    ensures
      var k := a.classes[c];
      k.mapping.blockSize == k.unit * ptrBytes && FillsGroups(k.mapping, k.list.span * ptrBytes) && bufferAvailable ==>
        ExactlyUnused(released, regionBeg, GeometryOf(k, ps, ptrBytes), taken)
  {
    hide Allocator.Valid, CeilDiv, Freed, HandsSpared, Geometry.GroupsFit, FreeList.Free, GivenBack, Mapping.Inv;
    hide Tuning.Taken, Tuning.Kept, Exactly, ExactlyUnused, FillsGroups, IsRun, ChosenFrom;
    released, users', taken, seenBefore, seenAfter := [], users, [], [], [];
    ghost var groups := a.classes[c].list.groups;
    PositiveUnit(a, c);
    TuningIsOk(a.classes[c], ps, ptrBytes, pageDelta);
    a.HasMapping(c);
    NothingGiven(regionBeg, GeometryOf(a.classes[c], ps, ptrBytes), bufferAvailable);
    NothingTouched(regionBeg, ptrBytes, a.classes[c].unit * ptrBytes, a.books[c].live, a.chunks[c]);
    a.FreeBytes(c, a.classes[c].unit * ptrBytes);
    var k := a.classes[c];
    var blockSize := k.unit * ptrBytes;
    var bytesInFreeList := k.carved * blockSize - (k.list.poppedBlocks - k.list.pushedBlocks) * blockSize;
    if bytesInFreeList == 0 || (!forceAll && !worthwhile) {
      NothingFree(a, c, blockSize, TuningOf(k, ps, ptrBytes, pageDelta));
      NoneChosen(TuningOf(k, ps, ptrBytes, pageDelta));
      return;
    }
    a.CollectGroups(c, t, TuningOf(k, ps, ptrBytes, pageDelta), forceAll);
    taken := k.list.released;
    if k.list.released == [] {
      return;
    }
    UsersSeen(a, users);
    released, users', seenBefore, seenAfter :=
      ReleaseCollected(a, c, t, ps, ptrBytes, regionBeg, bufferAvailable, users, before, after);
    a.ListIsOk(c);
    if k.mapping.blockSize == k.unit * ptrBytes && FillsGroups(k.mapping, k.list.span * ptrBytes) && bufferAvailable {
      AllUnused(k, ps, ptrBytes, regionBeg, released, taken);
    }
  }

  /** The pages given back are all those that no block in use touches. */
  ghost predicate ExactlyUnused(given: seq<(nat, nat)>, regionBeg: nat, geo: Geometry, taken: seq<BatchGroup>) {
    geo.Ok() && taken != [] ==> forall p: nat | p < CeilDiv(geo.Size(), geo.ps) ::
      GivenBack(given, regionBeg, geo.ps, p) <==> Unused(geo.bs, geo.ps, geo.n, geo.AllFreeBlocks(taken), p)
  }

  lemma AllUnused(k: SizeClass, ps: nat, ptrBytes: nat, regionBeg: nat, given: seq<(nat, nat)>, taken: seq<BatchGroup>)
    requires k.mapping.Inv(k.carved, k.mappedUser) && k.mapping.blockSize == k.unit * ptrBytes
    requires FillsGroups(k.mapping, k.list.span * ptrBytes)
    requires Exactly(given, regionBeg, GeometryOf(k, ps, ptrBytes), taken, true)
    ensures ExactlyUnused(given, regionBeg, GeometryOf(k, ps, ptrBytes), taken)
  {
    hide Mapping.Inv, FillsGroups, Geometry.GroupsFit, Freed, Unused, Geometry.AllFreeBlocks, CeilDiv, GivenBack;
    var geo := GeometryOf(k, ps, ptrBytes);
    if taken != [] {
      forall p: nat | p < CeilDiv(geo.Size(), geo.ps)
        ensures GivenBack(given, regionBeg, geo.ps, p) <==>
          Unused(geo.bs, geo.ps, geo.n, geo.AllFreeBlocks(taken), p)
      {
        NothingWithheldWhenSteady(k, ps, ptrBytes, taken, p);
      }
    }
  }

  lemma NoneChosen(t: Tuning)
    requires t.Ok()
    ensures ChosenFrom([], [], t.blockSize, t.pageSize, t.groupSize, t.ptrBytes, t.used, t.pageDelta)
  {
  }

  lemma TuningIsOk(k: SizeClass, ps: nat, ptrBytes: nat, pageDelta: nat)
    requires k.unit > 0 && PagesFit(k, ps, ptrBytes)
    ensures TuningOf(k, ps, ptrBytes, pageDelta).Ok()
  {
    PositiveProduct(k.unit, ptrBytes);
  }

  lemma NothingGiven(regionBeg: nat, geo: Geometry, bufferAvailable: bool)
    ensures Exactly([], regionBeg, geo, [], bufferAvailable) && ExactlyUnused([], regionBeg, geo, [])
  {
  }

  lemma NothingTouched(regionBeg: nat, ptrBytes: nat, size: nat, live: multiset<nat>, row: seq<PerClass>)
    ensures HandsSpared([], regionBeg, ptrBytes, size, live, row)
  {
    hide InHand;
  }

  /** An empty list has no group to take. */
  lemma NothingFree(a: Allocator, c: nat, blockSize: nat, tuning: Tuning)
    requires a.Valid() && c < |a.classes| && blockSize > 0 && tuning.Ok()
    ensures |a.classes[c].list.Free()| * blockSize == 0 && a.classes[c].list.released == [] ==>
      a.classes[c].list.groups == [] && tuning.Taken([]) == []
  {
    a.ListIsOk(c);
    var list := a.classes[c].list;
    hide Allocator.Valid;
    if |list.Free()| * blockSize == 0 && list.groups != [] {
      NonEmptyGroup(list.groups, list.max, list.span);
      assert |AllBlocks(list.groups) + AllBlocks(list.released)| ==
        |AllBlocks(list.groups)| + |AllBlocks(list.released)|;
      PositiveProduct(|list.Free()|, blockSize);
    }
  }

  lemma NonEmptyGroup(groups: seq<BatchGroup>, max: nat, span: nat)
    requires span > 0 && GroupsOk(groups, max, span) && groups != []
    ensures |AllBlocks(groups)| > 0
  {
    assert GroupOk(groups[0], max, span);
    var x := groups[0].batches[0].blocks[0];
    assert x in Blocks(groups[0].batches);
    BlocksIncluded(groups, 0, x);
    assert |AllBlocks(groups)| >= AllBlocks(groups)[x];
  }
}

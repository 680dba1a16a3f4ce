/** The free list of one size class (primary64.h pushBlocks, pushBlocksImpl, popBlocksImpl,
    collectGroupsToRelease, mergeGroupsToReleaseBack).  Its nodes are blocks of the batch
    class, taken from and returned to a thread's cache. */
module RegionFreeList {

  import opened Arithmetic
  import opened BatchCache
  import opened BatchClassNodes
  import opened FreeListTypes
  import opened GroupChoice
  import opened GroupLists
  import opened GroupMerge
  import opened GroupSort

  const MAX_UNUSED_SIZE: nat := 8

  /** One round of InsertBlocks: a new front batch if the old one is full, then as much
      as fits. */
  method InsertRound(bg: BatchGroup, a: array<nat>, from: nat, to: nat, cache: Cache, max: nat,
                     ghost span: nat, n: nat)
    returns (bg': BatchGroup, i: nat)
    requires span > 0 && max > 0 && n > 0 && from < to <= a.Length && a != cache.chunks
    requires cache.Valid() && GroupOpen(bg, max, span)
    requires forall i | from <= i < to :: Group(a[i], span) == bg.groupBase
    modifies cache`count, cache`elsewhere, cache.region, cache.chunks
    ensures from < i <= to && cache.Valid() && GroupOpen(bg', max, span) && SameButBatches(bg, bg')
    ensures bg'.batches[0].blocks != []
    ensures multiset(Blocks(bg'.batches)) == multiset(Blocks(bg.batches)) + multiset(a[from..i])
    ensures cache.elsewhere + GroupNodes(bg) == old(cache.elsewhere) + GroupNodes(bg')
  {
    hide Group, Cache.Valid, Blocks, BatchNodes, Home;
    ghost var xs0 := a[from..to];
    var batches := bg.batches;
    var unused := max - |batches[0].blocks|;
    if unused == 0 {
      var x := cache.Get(n);
      EmptyFront(bg, x, max, span);
      batches := [TransferBatch(x, [])] + batches;
      unused := max;
    }
    i := from + Min(unused, to - from);
    var xs := a[from..i];
    AppendFront(batches, xs, bg, max, span);
    batches := [TransferBatch(batches[0].addr, batches[0].blocks + xs)] + batches[1..];
    bg' := bg.(batches := batches);
  }

  /** Two exchanges of blocks between the books and the nodes add up. */
  lemma Balance(e0: multiset<nat>, n0: multiset<nat>, e1: multiset<nat>, n1: multiset<nat>,
                e2: multiset<nat>, n2: multiset<nat>)
    requires e1 + n0 == e0 + n1 && e2 + n1 == e1 + n2
    ensures e2 + n0 == e0 + n2
  {
    forall x ensures (e2 + n0)[x] == (e0 + n2)[x] {
      assert (e1 + n0)[x] == (e0 + n1)[x] && (e2 + n1)[x] == (e1 + n2)[x];
    }
  }

  predicate SameButBatches(g: BatchGroup, h: BatchGroup) {
    h == g.(batches := h.batches)
  }

  /** pushBlocks's InsertBlocks on one group, which may start with an empty front batch. */
  method InsertBlocks(bg: BatchGroup, a: array<nat>, from: nat, to: nat, cache: Cache, max: nat,
                      ghost span: nat, n: nat)
    returns (bg': BatchGroup)
    requires span > 0 && max > 0 && n > 0 && from < to <= a.Length && a != cache.chunks
    requires cache.Valid() && GroupOpen(bg, max, span)
    requires forall i | from <= i < to :: Group(a[i], span) == bg.groupBase
    modifies cache`count, cache`elsewhere, cache.region, cache.chunks
    ensures cache.Valid() && GroupOk(bg', max, span) && SameButBatches(bg, bg')
    ensures multiset(Blocks(bg'.batches)) == multiset(Blocks(bg.batches)) + multiset(a[from..to])
    ensures cache.elsewhere + GroupNodes(bg) == old(cache.elsewhere) + GroupNodes(bg')
  {
    hide Group, Cache.Valid, Blocks, GroupNodes, Home;
    bg' := bg;
    var i := from;
    while i < to
      invariant from <= i <= to && cache.Valid()
      invariant GroupOpen(bg', max, span) && SameButBatches(bg, bg')
      invariant i > from ==> bg'.batches[0].blocks != []
      invariant multiset(Blocks(bg'.batches)) == multiset(Blocks(bg.batches)) + multiset(a[from..i])
      invariant cache.elsewhere + GroupNodes(bg) == old(cache.elsewhere) + GroupNodes(bg')
    {
      ghost var m, e1, n1 := i, cache.elsewhere, GroupNodes(bg');
      bg', i := InsertRound(bg', a, i, to, cache, max, span, n);
      assert a[from..i] == a[from..m] + a[m..i];
      Balance(old(cache.elsewhere), GroupNodes(bg), e1, n1, cache.elsewhere, GroupNodes(bg'));
    }
  }

  lemma EmptyFront(bg: BatchGroup, x: nat, max: nat, span: nat)
    requires span > 0 && GroupOpen(bg, max, span) && |bg.batches[0].blocks| == max
    ensures
      var after := bg.(batches := [TransferBatch(x, [])] + bg.batches);
      && Blocks(after.batches) == Blocks(bg.batches) && GroupNodes(after) == GroupNodes(bg) + multiset{x}
      && GroupOpen(after, max, span)
  {
    hide Group;
    assert ([TransferBatch(x, [])] + bg.batches)[1..] == bg.batches;
  }

  lemma AppendFront(batches: seq<TransferBatch>, xs: seq<nat>, bg: BatchGroup, max: nat, span: nat)
    requires span > 0 && GroupOpen(bg.(batches := batches), max, span)
    requires |batches[0].blocks| + |xs| <= max
    requires forall x | x in xs :: Group(x, span) == bg.groupBase
    ensures
      var after := bg.(batches := [TransferBatch(batches[0].addr, batches[0].blocks + xs)] + batches[1..]);
      && multiset(Blocks(after.batches)) == multiset(Blocks(batches)) + multiset(xs)
      && GroupNodes(after) == GroupNodes(bg.(batches := batches))
      && GroupOpen(after, max, span)
  {
    var after := [TransferBatch(batches[0].addr, batches[0].blocks + xs)] + batches[1..];
    assert after[1..] == batches[1..];
    var rest := Blocks(batches[1..]);
    assert Blocks(batches) == batches[0].blocks + rest;
    assert Blocks(after) == batches[0].blocks + xs + rest;
  }

  class FreeList {
    /** Compact pointers to a group, and TransferBatch::MaxNumCached. */
    const span: nat
    const max: nat
    var groups: seq<BatchGroup>
    /** The groups a page release has pulled out and not merged back yet. */
    var released: seq<BatchGroup>
    var pushedBlocks: int
    var poppedBlocks: int

    ghost predicate ListsOk()
      reads this`groups, this`released
    {
      && span > 0 && max > 0
      && GroupsOk(groups, max, span) && GroupsOk(released, max, span)
    }

    /** The blocks on the free list, pulled-out groups included. */
    ghost function Free(): multiset<nat>
      reads this`groups, this`released
    {
      AllBlocks(groups) + AllBlocks(released)
    }

    /** The batch-class blocks this list is made of. */
    ghost function NodeBlocks(): multiset<nat>
      reads this`groups, this`released
    {
      Nodes(groups) + Nodes(released)
    }

    /** In good order for a thread whose cache of nodes is `cache`. */
    ghost predicate Valid(cache: Cache)
      reads this`groups, this`released, cache, cache.region, cache.chunks
    {
      ListsOk() && cache.Valid() && NodeBlocks() <= cache.elsewhere
    }

    constructor (span: nat, max: nat)
      requires span > 0 && max > 0
      ensures ListsOk() && Free() == multiset{} && NodeBlocks() == multiset{}
      ensures groups == released == [] && this.span == span && this.max == max
      ensures pushedBlocks == 0 && poppedBlocks == 0
    {
      this.span, this.max := span, max;
      groups, released := [], [];
      pushedBlocks, poppedBlocks := 0, 0;
    }

    /** What changed hands between this list and the rest of the batch class is exactly
        what the list's nodes gained or lost. */
    twostate predicate NodesAccounted(cache: Cache)
      reads this`groups, this`released, cache
    {
      cache.elsewhere + old(NodeBlocks()) == old(cache.elsewhere) + NodeBlocks()
    }

    // ---------------------------------------------------------------- pushing

    /** Walks on from position `from` to the group of `base`, making it if it is missing. */
    method SeekGroup(cache: Cache, from: nat, base: nat, n: nat) returns (k: nat)
      requires ListsOk() && cache.Valid() && n > 0 && from <= |groups|
      requires forall j | 0 <= j < from :: groups[j].groupBase < base
      modifies this`groups, cache`count, cache`elsewhere, cache.region, cache.chunks
      ensures cache.Valid() && ListOpenAt(groups, k, max, span) && groups[k].groupBase == base
      ensures AllBlocks(groups) == old(AllBlocks(groups))
      ensures cache.elsewhere + old(Nodes(groups)) == old(cache.elsewhere) + Nodes(groups)
    {
      hide Cache.Valid, AllBlocks, Nodes, Group, GroupOk;
      k := from;
      while k < |groups| && base > groups[k].groupBase
        invariant k <= |groups|
        invariant forall j | 0 <= j < k :: groups[j].groupBase < base
      {
        k := k + 1;
      }
      if k == |groups| || base != groups[k].groupBase {
        var g := CreateGroup(cache, base, n);
        Insert(groups, k, g);
        InsertedListOpen(groups, k, g, max, span);
        groups := groups[..k] + [g] + groups[k..];
      } else {
        OkIsOpen(groups, k, max, span);
      }
    }

    static lemma OkIsOpen(groups: seq<BatchGroup>, k: nat, max: nat, span: nat)
      requires span > 0 && GroupsOk(groups, max, span) && k < |groups|
      ensures ListOpenAt(groups, k, max, span)
    {
      assert GroupOk(groups[k], max, span);
    }

    static lemma InsertedListOpen(groups: seq<BatchGroup>, k: nat, g: BatchGroup, max: nat, span: nat)
      requires span > 0 && GroupsOk(groups, max, span) && k <= |groups| && GroupOpen(g, max, span)
      requires forall j | 0 <= j < k :: groups[j].groupBase < g.groupBase
      requires k < |groups| ==> g.groupBase < groups[k].groupBase
      ensures ListOpenAt(groups[..k] + [g] + groups[k..], k, max, span)
    {
      hide GroupOk, GroupOpen;
      var after := groups[..k] + [g] + groups[k..];
      assert forall i | 0 <= i < k :: after[i] == groups[i];
      assert forall i | k < i < |after| :: after[i] == groups[i - 1];
    }

    method CreateGroup(cache: Cache, base: nat, n: nat) returns (g: BatchGroup)
      requires cache.Valid() && n > 0 && span > 0
      modifies cache`count, cache`elsewhere, cache.region, cache.chunks
      ensures cache.Valid() && g.groupBase == base && GroupOpen(g, max, span)
      ensures Blocks(g.batches) == [] && cache.elsewhere == old(cache.elsewhere) + GroupNodes(g)
    {
      hide Cache.Valid;
      var x := cache.Get(n);
      var y := cache.Get(n);
      g := BatchGroup(x, base, 0, [TransferBatch(y, [])]);
      assert g.batches[1..] == [] && BatchNodes(g.batches[1..]) == multiset{};
      assert Blocks(g.batches) == [] && BatchNodes(g.batches) == multiset{y} + multiset{};
    }

    /** Fills the group at `k` from `a[from..to]`. */
    method PushSegment(cache: Cache, k: nat, a: array<nat>, from: nat, to: nat, n: nat)
      requires span > 0 && max > 0 && cache.Valid() && n > 0 && from < to <= a.Length && a != cache.chunks
      requires ListOpenAt(groups, k, max, span)
      requires forall i | from <= i < to :: Group(a[i], span) == groups[k].groupBase
      modifies this`groups, cache`count, cache`elsewhere, cache.region, cache.chunks
      ensures cache.Valid() && GroupsOk(groups, max, span)
      ensures |groups| == |old(groups)|
      ensures forall j | 0 <= j < |groups| :: groups[j].groupBase == old(groups[j].groupBase)
      ensures AllBlocks(groups) == old(AllBlocks(groups)) + multiset(a[from..to])
      ensures cache.elsewhere + old(Nodes(groups)) == old(cache.elsewhere) + Nodes(groups)
    {
      hide Cache.Valid, AllBlocks, Nodes, GroupNodes, Blocks, Group, GroupOk, GroupOpen;
      var bg := groups[k];
      var g := InsertBlocks(bg, a, from, to, cache, max, span, n);
      Replace(groups, k, g);
      BalanceReplace(old(cache.elsewhere), cache.elsewhere, GroupNodes(bg), GroupNodes(g), Nodes(groups),
                     Nodes(groups[k := g]));
      GainReplace(AllBlocks(groups), AllBlocks(groups[k := g]),
                  multiset(Blocks(bg.batches)), multiset(Blocks(g.batches)), multiset(a[from..to]));
      groups := groups[k := g];
    }

    static lemma BalanceReplace(e0: multiset<nat>, e1: multiset<nat>, g0: multiset<nat>, g1: multiset<nat>,
                                n0: multiset<nat>, n1: multiset<nat>)
      requires e1 + g0 == e0 + g1 && n1 + g0 == n0 + g1
      ensures e1 + n0 == e0 + n1
    {
      forall x ensures (e1 + n0)[x] == (e0 + n1)[x] {
        assert (e1 + g0)[x] == (e0 + g1)[x] && (n1 + g0)[x] == (n0 + g1)[x];
      }
    }

    static lemma GainReplace(b0: multiset<nat>, b1: multiset<nat>, g0: multiset<nat>, g1: multiset<nat>,
                             gain: multiset<nat>)
      requires b1 + g0 == b0 + g1 && g1 == g0 + gain
      ensures b1 == b0 + gain
    {
      forall x ensures b1[x] == (b0 + gain)[x] {
        assert (b1 + g0)[x] == (b0 + g1)[x];
      }
    }

    /** pushBlocksImpl: blocks sorted by group go to their groups, which are made where
        missing. */
    method PushBlocksImpl(cache: Cache, a: array<nat>, size: nat, sameGroup: bool, n: nat)
      requires Valid(cache) && 0 < size <= a.Length && n > 0 && a != cache.chunks
      requires SortedByGroup(a[..size], span) && (sameGroup ==> OneGroup(a[..size], span))
      modifies this`groups, this`pushedBlocks, cache`count, cache`elsewhere, cache.region, cache.chunks
      ensures Valid(cache) && released == old(released)
      ensures Free() == old(Free()) + multiset(a[..size]) && NodesAccounted(cache)
      ensures pushedBlocks == old(pushedBlocks) + size
    {
      hide Cache.Valid, AllBlocks, Nodes, Group, GroupsOk, ListOpenAt;
      pushedBlocks := pushedBlocks + size;
      var k := SeekGroup(cache, 0, Group(a[0], span), n);
      ghost var e1, n1 := cache.elsewhere, Nodes(groups);
      if sameGroup {
        AllOfFirst(a[..size], span);
        PushSegment(cache, k, a, 0, size, n);
        assert a[0..size] == a[..size];
      } else {
        OpenBounds(groups, k, max, span);
        PushSegments(cache, k, a, size, n);
      }
      Balance(old(cache.elsewhere), old(Nodes(groups)), e1, n1, cache.elsewhere, Nodes(groups));
      BooksKept(old(cache.elsewhere), cache.elsewhere, old(Nodes(groups)), Nodes(groups), Nodes(released));
    }

    static lemma AllOfFirst(s: seq<nat>, span: nat)
      requires span > 0 && s != [] && OneGroup(s, span)
      ensures forall i | 0 <= i < |s| :: Group(s[i], span) == Group(s[0], span)
    {
    }

    static lemma BooksKept(e0: multiset<nat>, e1: multiset<nat>, n0: multiset<nat>, n1: multiset<nat>,
                           rest: multiset<nat>)
      requires e1 + n0 == e0 + n1 && n0 + rest <= e0
      ensures n1 + rest <= e1 && e1 + (n0 + rest) == e0 + (n1 + rest)
    {
      forall x ensures (n1 + rest)[x] <= e1[x] && (e1 + (n0 + rest))[x] == (e0 + (n1 + rest))[x] {
        assert (e1 + n0)[x] == (e0 + n1)[x] && (n0 + rest)[x] <= e0[x];
      }
    }

    /** The loop of pushBlocksImpl over runs of blocks of one group. */
    method PushSegments(cache: Cache, first: nat, a: array<nat>, size: nat, n: nat)
      requires ListsOkBut(first) && cache.Valid() && 0 < size <= a.Length && n > 0 && a != cache.chunks
      requires SortedByGroup(a[..size], span) && groups[first].groupBase == Group(a[0], span)
      modifies this`groups, cache`count, cache`elsewhere, cache.region, cache.chunks
      ensures ListsOk() && cache.Valid()
      ensures AllBlocks(groups) == old(AllBlocks(groups)) + multiset(a[..size])
      ensures cache.elsewhere + old(Nodes(groups)) == old(cache.elsewhere) + Nodes(groups)
    {
      hide Cache.Valid, AllBlocks, Nodes, Group, GroupsOk, SortedByGroup;
      ghost var e0, n0, b0 := cache.elsewhere, Nodes(groups), AllBlocks(groups);
      assert a[..0] == [];
      var k, count := PushWholeRuns(cache, first, a, size, n, e0, n0, b0);
      LastSegment(cache, k, a, size - count, size, n, e0, n0, b0);
    }

    /** The blocks before `from` are pushed, and those up to `to` belong to the group at `k`. */
    ghost predicate RunsPushed(cache: Cache, k: nat, a: array<nat>, from: int, to: int,
                               e0: multiset<nat>, n0: multiset<nat>, b0: multiset<nat>)
      reads this`groups, this`released, cache, cache.region, cache.chunks, a
    {
      && 0 <= from < to <= a.Length && ListsOkBut(k) && cache.Valid()
      && (forall j | from <= j < to :: Group(a[j], span) == groups[k].groupBase)
      && AllBlocks(groups) == b0 + multiset(a[..from]) && cache.elsewhere + n0 == e0 + Nodes(groups)
    }

    /** All runs but the last, of `count` blocks. */
    method PushWholeRuns(cache: Cache, first: nat, a: array<nat>, size: nat, n: nat,
                         ghost e0: multiset<nat>, ghost n0: multiset<nat>, ghost b0: multiset<nat>)
      returns (k: nat, count: nat)
      requires 0 < size <= a.Length && n > 0 && a != cache.chunks
      requires span > 0 && SortedByGroup(a[..size], span) && RunsPushed(cache, first, a, 0, 1, e0, n0, b0)
      modifies this`groups, cache`count, cache`elsewhere, cache.region, cache.chunks
      ensures 0 < count <= size && RunsPushed(cache, k, a, size - count, size, e0, n0, b0)
    {
      hide SortedByGroup, FreeList.RunsPushed;
      var i := 1;
      k, count := first, 1;
      while i < size
        invariant 1 <= count <= i <= size && RunsPushed(cache, k, a, i - count, i, e0, n0, b0)
      {
        k, count := SegmentStep(cache, k, a, size, i, count, n, e0, n0, b0);
        i := i + 1;
      }
    }

    /** One block further: the run goes on, or it is pushed and the next begins. */
    method SegmentStep(cache: Cache, k: nat, a: array<nat>, size: nat, i: nat, count: nat, n: nat,
                       ghost e0: multiset<nat>, ghost n0: multiset<nat>, ghost b0: multiset<nat>)
      returns (k': nat, count': nat)
      requires 0 < count <= i < size <= a.Length && n > 0 && a != cache.chunks
      requires span > 0 && SortedByGroup(a[..size], span) && RunsPushed(cache, k, a, i - count, i, e0, n0, b0)
      modifies this`groups, cache`count, cache`elsewhere, cache.region, cache.chunks
      ensures 0 < count' <= i + 1 && RunsPushed(cache, k', a, i + 1 - count', i + 1, e0, n0, b0)
    {
      hide Cache.Valid, AllBlocks, Nodes, Group, GroupsOk, ListOpenAt, SortedByGroup;
      k', count' := k, count + 1;
      if Group(a[i - 1], span) != Group(a[i], span) {
        StepsUp(a[..size], i, span);
        k' := NextSegment(cache, k, a, i - count, i, Group(a[i], span), n, e0, n0, b0);
        count' := 1;
      }
    }

    method LastSegment(cache: Cache, k: nat, a: array<nat>, from: nat, to: nat, n: nat,
                       ghost e0: multiset<nat>, ghost n0: multiset<nat>, ghost b0: multiset<nat>)
      requires ListsOkBut(k) && cache.Valid() && from < to <= a.Length && n > 0 && a != cache.chunks
      requires forall j | from <= j < to :: Group(a[j], span) == groups[k].groupBase
      requires AllBlocks(groups) == b0 + multiset(a[..from]) && cache.elsewhere + n0 == e0 + Nodes(groups)
      modifies this`groups, cache`count, cache`elsewhere, cache.region, cache.chunks
      ensures ListsOk() && cache.Valid()
      ensures |groups| == |old(groups)|
      ensures forall j | 0 <= j < |groups| :: groups[j].groupBase == old(groups[j].groupBase)
      ensures AllBlocks(groups) == b0 + multiset(a[..to]) && cache.elsewhere + n0 == e0 + Nodes(groups)
    {
      hide Cache.Valid, AllBlocks, Nodes, Group, GroupsOk, ListOpenAt;
      ghost var e1, n1 := cache.elsewhere, Nodes(groups);
      PushSegment(cache, k, a, from, to, n);
      Balance(e0, n0, e1, n1, cache.elsewhere, Nodes(groups));
      assert a[..to] == a[..from] + a[from..to];
    }

    ghost predicate ListsOkBut(k: nat)
      reads this`groups, this`released
    {
      && span > 0 && max > 0
      && ListOpenAt(groups, k, max, span) && k < |groups| && GroupsOk(released, max, span)
    }

    static lemma OpenBounds(groups: seq<BatchGroup>, k: nat, max: nat, span: nat)
      requires span > 0 && ListOpenAt(groups, k, max, span)
      ensures k < |groups|
    {
    }

    static lemma StepsUp(s: seq<nat>, i: nat, span: nat)
      requires span > 0 && 0 < i < |s| && SortedByGroup(s, span) && Group(s[i - 1], span) != Group(s[i], span)
      ensures Group(s[i - 1], span) < Group(s[i], span)
    {
    }

    /** Pushes one run and finds the group of the next. */
    method NextSegment(cache: Cache, k: nat, a: array<nat>, from: nat, to: nat, base: nat, n: nat,
                       ghost e0: multiset<nat>, ghost n0: multiset<nat>, ghost b0: multiset<nat>) returns (k': nat)
      requires ListsOkBut(k) && cache.Valid() && from < to <= a.Length && n > 0 && a != cache.chunks
      requires forall j | from <= j < to :: Group(a[j], span) == groups[k].groupBase
      requires groups[k].groupBase < base
      requires AllBlocks(groups) == b0 + multiset(a[..from]) && cache.elsewhere + n0 == e0 + Nodes(groups)
      modifies this`groups, cache`count, cache`elsewhere, cache.region, cache.chunks
      ensures ListsOkBut(k') && cache.Valid() && groups[k'].groupBase == base
      ensures AllBlocks(groups) == b0 + multiset(a[..to]) && cache.elsewhere + n0 == e0 + Nodes(groups)
    {
      hide Cache.Valid, AllBlocks, Nodes, Group, GroupsOk, GroupOk, GroupOpen;
      LastSegment(cache, k, a, from, to, n, e0, n0, b0);
      ghost var e1, n1 := cache.elsewhere, Nodes(groups);
      SortedBelow(groups, k, max, span);
      k' := SeekGroup(cache, k, base, n);
      Balance(e0, n0, e1, n1, cache.elsewhere, Nodes(groups));
    }

    static lemma SortedBelow(groups: seq<BatchGroup>, k: nat, max: nat, span: nat)
      requires span > 0 && GroupsOk(groups, max, span) && k < |groups|
      ensures forall j | 0 <= j < k :: groups[j].groupBase < groups[k].groupBase
    {
    }

    /** pushBlocksImpl on part of an array whose blocks are all of one group. */
    method PushSameGroup(cache: Cache, a: array<nat>, from: nat, to: nat, n: nat)
      requires Valid(cache) && from < to <= a.Length && n > 0 && a != cache.chunks
      requires forall i | from <= i < to :: Group(a[i], span) == Group(a[from], span)
      modifies this`groups, this`pushedBlocks, cache`count, cache`elsewhere, cache.region, cache.chunks
      ensures Valid(cache) && released == old(released) && groups != []
      ensures Free() == old(Free()) + multiset(a[from..to]) && NodesAccounted(cache)
      ensures pushedBlocks == old(pushedBlocks) + (to - from)
    {
      hide Cache.Valid, AllBlocks, Nodes, Group, GroupsOk, ListOpenAt;
      pushedBlocks := pushedBlocks + (to - from);
      var k := SeekGroup(cache, 0, Group(a[from], span), n);
      OpenBounds(groups, k, max, span);
      ghost var e1, n1 := cache.elsewhere, Nodes(groups);
      PushSegment(cache, k, a, from, to, n);
      Balance(old(cache.elsewhere), old(Nodes(groups)), e1, n1, cache.elsewhere, Nodes(groups));
      BooksKept(old(cache.elsewhere), cache.elsewhere, old(Nodes(groups)), Nodes(groups), Nodes(released));
    }

    /** pushBlocks: `grouped` says that the region is larger than a group. */
    method PushBlocks(cache: Cache, a: array<nat>, size: nat, grouped: bool, n: nat)
      requires Valid(cache) && 0 < size <= a.Length && n > 0 && a != cache.chunks
      requires !grouped ==> OneGroup(a[..size], span)
      modifies a, this`groups, this`pushedBlocks, cache`count, cache`elsewhere, cache.region, cache.chunks
      ensures Valid(cache) && released == old(released)
      ensures Free() == old(Free()) + multiset(old(a[..size])) && NodesAccounted(cache)
      ensures pushedBlocks == old(pushedBlocks) + size
      ensures multiset(a[..size]) == multiset(old(a[..size])) && a[size..] == old(a[size..])
    {
      hide Cache.Valid, AllBlocks, Nodes, Group, GroupsOk;
      var sameGroup := true;
      if grouped {
        sameGroup := SortByGroup(a, size, span);
        PermutedOneGroup(old(a[..size]), a[..size], span);
      } else {
        OneGroupIsSorted(a[..size], span);
      }
      PushBlocksImpl(cache, a, size, sameGroup, n);
    }

    static lemma OneGroupIsSorted(s: seq<nat>, span: nat)
      requires span > 0 && OneGroup(s, span)
      ensures SortedByGroup(s, span)
    {
    }

    static lemma PermutedOneGroup(s: seq<nat>, t: seq<nat>, span: nat)
      requires span > 0 && multiset(s) == multiset(t)
      ensures OneGroup(s, span) ==> OneGroup(t, span)
    {
      hide Group;
      if OneGroup(s, span) {
        forall i, j | 0 <= i < j < |t| ensures Group(t[i], span) == Group(t[j], span) {
          assert t[i] in multiset(t) && t[j] in multiset(t);
          assert t[i] in s && t[j] in s;
        }
      }
    }

    // ---------------------------------------------------------------- popping

    /** popBlocksImpl: up to `maxBlockCount` blocks of the front batch; nodes left empty go
        back to the batch class. */
    method PopBlocksImpl(cache: Cache, to: array<nat>, maxBlockCount: nat) returns (count: nat)
      requires Valid(cache) && 0 < maxBlockCount <= to.Length && to != cache.chunks
      modifies this`groups, this`poppedBlocks, cache`count, cache`elsewhere, cache.region, cache.chunks, to
      ensures Valid(cache) && released == old(released) && count <= maxBlockCount
      ensures Free() + multiset(to[..count]) == old(Free()) && NodesAccounted(cache)
      ensures count == 0 <==> old(groups) == []
      ensures old(groups) != [] ==> PoppedFrom(old(groups)[0], to[..count], maxBlockCount)
      ensures poppedBlocks == old(poppedBlocks) + count
      ensures forall i | count <= i < to.Length :: to[i] == old(to[i])
    {
      hide Cache.Valid, AllBlocks, Nodes, Group, GroupsOk;
      if groups == [] {
        return 0;
      }
      count := PopFront(cache, to, maxBlockCount);
      poppedBlocks := poppedBlocks + count;
    }

    /** The last blocks of the front batch, as many as are asked for. */
    static predicate PoppedFrom(g: BatchGroup, popped: seq<nat>, maxBlockCount: nat) {
      && g.batches != []
      && var blocks := g.batches[0].blocks;
      |popped| == Min(maxBlockCount, |blocks|) && popped == blocks[|blocks| - |popped|..]
    }

    method PopFront(cache: Cache, to: array<nat>, maxBlockCount: nat) returns (count: nat)
      requires Valid(cache) && 0 < maxBlockCount <= to.Length && to != cache.chunks && groups != []
      modifies this`groups, cache`count, cache`elsewhere, cache.region, cache.chunks, to
      ensures Valid(cache) && 0 < count <= maxBlockCount && PoppedFrom(old(groups)[0], to[..count], maxBlockCount)
      ensures Free() + multiset(to[..count]) == old(Free()) && NodesAccounted(cache)
      ensures forall i | count <= i < to.Length :: to[i] == old(to[i])
    {
      hide Cache.Valid, AllBlocks, Nodes, Group, GroupsOk, GroupOk;
      FrontIsOk(groups, max, span);
      FrontBatch(groups[0], max, span);
      var b := groups[0].batches[0];
      count := Min(maxBlockCount, |b.blocks|);
      var left := b.blocks[..|b.blocks| - count];
      var taken := b.blocks[|b.blocks| - count..];
      CopyOut(to, taken);
      assert b.blocks == left + taken;
      if left != [] {
        LeaveRest(cache, left, taken);
      } else if |groups[0].batches| > 1 {
        DropBatch(cache, taken);
      } else {
        DropGroup(cache, taken);
      }
    }

    static method CopyOut(to: array<nat>, xs: seq<nat>)
      requires |xs| <= to.Length
      modifies to
      ensures to[..|xs|] == xs && forall i | |xs| <= i < to.Length :: to[i] == old(to[i])
    {
      forall i | 0 <= i < |xs| {
        to[i] := xs[i];
      }
    }

    /** The front batch keeps some blocks. */
    method LeaveRest(ghost cache: Cache, left: seq<nat>, ghost taken: seq<nat>)
      requires Valid(cache) && groups != [] && groups[0].batches != []
      requires groups[0].batches[0].blocks == left + taken && left != []
      modifies this`groups
      ensures Valid(cache) && Free() + multiset(taken) == old(Free()) && NodesAccounted(cache)
    {
      hide Cache.Valid, AllBlocks, Nodes, Group, GroupsOk, Blocks, GroupNodes, GroupOk;
      var bg := groups[0];
      FrontIsOk(groups, max, span);
      LeftInFront(bg, left, taken, max, span);
      var g := bg.(batches := [bg.batches[0].(blocks := left)] + bg.batches[1..]);
      ReplaceFront(groups, g, max, span);
      LessTaken(AllBlocks(groups), AllBlocks(groups[0 := g]),
                multiset(Blocks(bg.batches)), multiset(Blocks(g.batches)), multiset(taken));
      SameNodes(Nodes(groups), Nodes(groups[0 := g]), GroupNodes(bg));
      groups := groups[0 := g];
    }

    /** The front batch is empty but others follow. */
    method DropBatch(cache: Cache, ghost taken: seq<nat>)
      requires Valid(cache) && groups != [] && |groups[0].batches| > 1 && groups[0].batches[0].blocks == taken
      modifies this`groups, cache`count, cache`elsewhere, cache.region, cache.chunks
      ensures Valid(cache) && Free() + multiset(taken) == old(Free()) && NodesAccounted(cache)
    {
      hide Cache.Valid, AllBlocks, Nodes, Group, GroupsOk, Blocks, GroupNodes, GroupOk;
      var bg := groups[0];
      FrontIsOk(groups, max, span);
      RestOfBatches(bg, max, span);
      var x := bg.batches[0].addr;
      var g := bg.(batches := bg.batches[1..]);
      ReplaceFront(groups, g, max, span);
      LessTaken(AllBlocks(groups), AllBlocks(groups[0 := g]),
                multiset(Blocks(bg.batches)), multiset(Blocks(g.batches)), multiset(taken));
      LessTaken(Nodes(groups), Nodes(groups[0 := g]), GroupNodes(bg), GroupNodes(g), multiset{x});
      BooksReturn(cache.elsewhere, Nodes(groups), Nodes(released), Nodes(groups[0 := g]), multiset{x});
      cache.Put(x);
      groups := groups[0 := g];
    }

    /** The group is empty. */
    method DropGroup(cache: Cache, ghost taken: seq<nat>)
      requires Valid(cache) && groups != [] && |groups[0].batches| == 1 && groups[0].batches[0].blocks == taken
      modifies this`groups, cache`count, cache`elsewhere, cache.region, cache.chunks
      ensures Valid(cache) && Free() + multiset(taken) == old(Free()) && NodesAccounted(cache)
    {
      hide Cache.Valid, AllBlocks, Nodes, Group, GroupsOk, Blocks, GroupNodes, GroupOk;
      var bg := groups[0];
      FrontIsOk(groups, max, span);
      RestOfBatches(bg, max, span);
      var x, y := bg.batches[0].addr, bg.addr;
      DropFront(groups, max, span);
      BooksReturn(cache.elsewhere, Nodes(groups), Nodes(released), Nodes(groups[1..]), multiset{y, x});
      PutBoth(cache, x, y);
      groups := groups[1..];
    }

    method PutBoth(cache: Cache, x: nat, y: nat)
      requires cache.Valid() && multiset{y, x} <= cache.elsewhere
      modifies cache`count, cache`elsewhere, cache.region, cache.chunks
      ensures cache.Valid() && cache.elsewhere == old(cache.elsewhere) - multiset{y, x}
    {
      hide Cache.Valid;
      TakeTwo(cache.elsewhere, x, y);
      cache.Put(x);
      cache.Put(y);
    }

    static lemma TakeTwo(e: multiset<nat>, x: nat, y: nat)
      requires multiset{y, x} <= e
      ensures x in e && y in e - multiset{x} && e - multiset{x} - multiset{y} == e - multiset{y, x}
    {
      assert multiset{y, x}[x] <= e[x] && multiset{y, x}[y] <= e[y];
    }

    static lemma FrontBatch(g: BatchGroup, max: nat, span: nat)
      requires span > 0 && GroupOk(g, max, span)
      ensures g.batches != [] && 0 < |g.batches[0].blocks| <= max
    {
    }

    static lemma ReplaceFront(groups: seq<BatchGroup>, g: BatchGroup, max: nat, span: nat)
      requires span > 0 && groups != [] && GroupsOk(groups, max, span)
      requires GroupOk(g, max, span) && g.groupBase == groups[0].groupBase
      ensures GroupsOk(groups[0 := g], max, span)
      ensures AllBlocks(groups[0 := g]) + multiset(Blocks(groups[0].batches)) ==
        AllBlocks(groups) + multiset(Blocks(g.batches))
      ensures Nodes(groups[0 := g]) + GroupNodes(groups[0]) == Nodes(groups) + GroupNodes(g)
    {
      hide GroupOk, AllBlocks, Nodes, Blocks, GroupNodes;
      Replace(groups, 0, g);
    }

    static lemma DropFront(groups: seq<BatchGroup>, max: nat, span: nat)
      requires span > 0 && groups != [] && GroupsOk(groups, max, span)
      ensures GroupsOk(groups[1..], max, span)
      ensures AllBlocks(groups) == multiset(Blocks(groups[0].batches)) + AllBlocks(groups[1..])
      ensures Nodes(groups) == GroupNodes(groups[0]) + Nodes(groups[1..])
    {
      hide GroupOk;
    }

    static lemma LessTaken(b0: multiset<nat>, b1: multiset<nat>, g0: multiset<nat>, g1: multiset<nat>,
                           taken: multiset<nat>)
      requires b1 + g0 == b0 + g1 && g1 + taken == g0
      ensures b1 + taken == b0
    {
      forall x ensures (b1 + taken)[x] == b0[x] {
        assert (b1 + g0)[x] == (b0 + g1)[x] && (g1 + taken)[x] == g0[x];
      }
    }

    static lemma SameNodes(n0: multiset<nat>, n1: multiset<nat>, g: multiset<nat>)
      requires n1 + g == n0 + g
      ensures n1 == n0
    {
      forall x ensures n1[x] == n0[x] {
        assert (n1 + g)[x] == (n0 + g)[x];
      }
    }

    /** Nodes `x` leave the list and return to the batch class. */
    static lemma BooksReturn(e: multiset<nat>, n0: multiset<nat>, rest: multiset<nat>, n1: multiset<nat>,
                             x: multiset<nat>)
      requires n0 + rest <= e && n1 + x == n0
      ensures x <= e && n1 + rest <= e - x && (e - x) + (n0 + rest) == e + (n1 + rest)
    {
      forall y
        ensures x[y] <= e[y] && (n1 + rest)[y] <= (e - x)[y]
        ensures ((e - x) + (n0 + rest))[y] == (e + (n1 + rest))[y]
      {
        assert (n0 + rest)[y] <= e[y] && (n1 + x)[y] == n0[y];
      }
    }

    static lemma FrontIsOk(groups: seq<BatchGroup>, max: nat, span: nat)
      requires span > 0 && groups != [] && GroupsOk(groups, max, span)
      ensures GroupOk(groups[0], max, span)
    {
    }

    /** A group whose front batch gave up its tail. */
    static lemma LeftInFront(bg: BatchGroup, left: seq<nat>, taken: seq<nat>, max: nat, span: nat)
      requires span > 0 && GroupOk(bg, max, span) && bg.batches[0].blocks == left + taken && left != []
      ensures
        var g := bg.(batches := [bg.batches[0].(blocks := left)] + bg.batches[1..]);
        && multiset(Blocks(g.batches)) + multiset(taken) == multiset(Blocks(bg.batches))
        && GroupNodes(g) == GroupNodes(bg) && GroupOk(g, max, span)
    {
      hide Group;
      var rest := bg.batches[1..];
      var g := bg.(batches := [bg.batches[0].(blocks := left)] + rest);
      assert g.batches[1..] == rest;
      assert Blocks(bg.batches) == left + taken + Blocks(rest);
      assert Blocks(g.batches) == left + Blocks(rest);
      forall p | p in Blocks(g.batches) ensures Group(p, span) == bg.groupBase {
        assert p in Blocks(bg.batches);
      }
    }

    /** A group that lost its front batch altogether. */
    static lemma RestOfBatches(bg: BatchGroup, max: nat, span: nat)
      requires span > 0 && GroupOk(bg, max, span) && max > 0
      ensures
        var b, g := bg.batches[0], bg.(batches := bg.batches[1..]);
        && multiset(Blocks(g.batches)) + multiset(b.blocks) == multiset(Blocks(bg.batches))
        && GroupNodes(g) + multiset{b.addr} == GroupNodes(bg)
        && (|bg.batches| > 1 ==> GroupOk(g, max, span))
        && (|bg.batches| == 1 ==> GroupNodes(bg) == multiset{bg.addr, b.addr} && Blocks(bg.batches) == b.blocks)
    {
      RestCounts(bg);
      if |bg.batches| > 1 {
        RestOk(bg, max, span);
      }
    }

    static lemma RestCounts(bg: BatchGroup)
      requires bg.batches != []
      ensures
        var b, g := bg.batches[0], bg.(batches := bg.batches[1..]);
        && multiset(Blocks(g.batches)) + multiset(b.blocks) == multiset(Blocks(bg.batches))
        && GroupNodes(g) + multiset{b.addr} == GroupNodes(bg)
        && (|bg.batches| == 1 ==> GroupNodes(bg) == multiset{bg.addr, b.addr} && Blocks(bg.batches) == b.blocks)
    {
      var b, rest := bg.batches[0], bg.batches[1..];
      var xs := Blocks(rest);
      assert Blocks(bg.batches) == b.blocks + xs;
      var ns := BatchNodes(rest);
      assert BatchNodes(bg.batches) == multiset{b.addr} + ns;
      if rest == [] {
        assert ns == multiset{} && xs == [];
        assert multiset{b.addr} + ns == multiset{b.addr};
      }
    }

    static lemma RestOk(bg: BatchGroup, max: nat, span: nat)
      requires span > 0 && GroupOk(bg, max, span) && max > 0 && |bg.batches| > 1
      ensures GroupOk(bg.(batches := bg.batches[1..]), max, span)
    {
      hide Group;
      var b, rest := bg.batches[0], bg.batches[1..];
      assert Blocks(bg.batches) == b.blocks + Blocks(rest);
      forall p | p in Blocks(rest) ensures Group(p, span) == bg.groupBase {
        assert p in Blocks(bg.batches);
      }
      assert forall i | 0 <= i < |rest| :: rest[i] == bg.batches[i + 1];
    }

    // ---------------------------------------------------------------- page release

    /** collectGroupsToRelease: pulls out the groups worth it. */
    method CollectGroupsToRelease(t: Tuning)
      requires ListsOk() && released == [] && t.Ok()
      modifies this`groups, this`released
      ensures ListsOk() && Free() == old(Free()) && NodeBlocks() == old(NodeBlocks())
      ensures groups == t.Kept(old(groups)) && released == t.Taken(old(groups))
      ensures ChosenFrom(old(groups), released, t.blockSize, t.pageSize, t.groupSize, t.ptrBytes, t.used, t.pageDelta)
      ensures KeptFrom(old(groups), groups, released, t.blockSize)
      ensures Bare(groups) + Bare(released) == old(Bare(groups))
      ensures forall i | 0 <= i < |released| ::
        released[i].bytesAtLastCheckpoint == |Blocks(released[i].batches)| * t.blockSize
    {
      BasesAscend(groups, max, span);
      TakenAreChosen(t, groups);
      hide FreeList.ListsOk, FreeList.Free, FreeList.NodeBlocks, Bare, Blocks, ChosenFrom, KeptFrom;
      CollectAll(t);
    }

    /** The walk over the list. */
    method CollectAll(t: Tuning)
      requires ListsOk() && released == [] && t.Ok()
      modifies this`groups, this`released
      ensures ListsOk() && Free() == old(Free()) && NodeBlocks() == old(NodeBlocks())
      ensures groups == t.Kept(old(groups)) && released == t.Taken(old(groups))
      ensures Bare(groups) + Bare(released) == old(Bare(groups))
      ensures forall i | 0 <= i < |released| ::
        released[i].bytesAtLastCheckpoint == |Blocks(released[i].batches)| * t.blockSize
    {
      hide Cache.Valid, AllBlocks, Nodes, Bare, GroupsOk, GroupOk, Blocks, Tuning.KeptOf, Tuning.TakenOf;
      var k: nat := 0;
      ghost var list, i: nat := groups, 0;
      Concat(groups, []);
      assert groups + [] == groups && list[..0] == [];
      while k < |groups|
        invariant 0 <= k <= |groups| && i <= |list| && k == |t.Kept(list[..i])|
        invariant groups == t.Kept(list[..i]) + list[i..] && released == t.Taken(list[..i])
        invariant ListsOk() && AllBefore(released, groups, k)
        invariant Free() == old(Free()) && NodeBlocks() == old(NodeBlocks())
        invariant Bare(groups) + Bare(released) == old(Bare(groups))
        invariant forall j | 0 <= j < |released| ::
          released[j].bytesAtLastCheckpoint == |Blocks(released[j].batches)| * t.blockSize
        decreases |list| - i
      {
        NextGroup(t, list, i, groups, k);
        k := CollectStep(k, t);
        i := i + 1;
      }
      assert list[..i] == list;
    }

    static lemma BasesAscend(groups: seq<BatchGroup>, max: nat, span: nat)
      requires span > 0 && GroupsOk(groups, max, span)
      ensures forall i, j | 0 <= i < j < |groups| :: groups[i].groupBase < groups[j].groupBase
    {
    }

    /** What the step at position `k` makes of the kept groups. */
    static lemma NextGroup(t: Tuning, list: seq<BatchGroup>, i: nat, groups: seq<BatchGroup>, k: nat)
      requires t.Ok() && i <= |list| && k == |t.Kept(list[..i])| < |groups| && groups == t.Kept(list[..i]) + list[i..]
      ensures i < |list| && groups[k] == list[i]
      ensures groups[..k] + t.KeptOf(groups[k]) + groups[k + 1..] == t.Kept(list[..i + 1]) + list[i + 1..]
      ensures t.Taken(list[..i + 1]) == t.Taken(list[..i]) + t.TakenOf(groups[k])
      ensures |t.Kept(list[..i + 1])| == k + |t.KeptOf(groups[k])|
    {
      hide Tuning.KeptOf, Tuning.TakenOf, Tuning.Kept, Tuning.Taken;
      OneMoreGroup(t, list, i);
      assert groups[..k] == t.Kept(list[..i]) && groups[k + 1..] == list[i + 1..];
    }

    /** A forced release pulls out the whole list. */
    method TakeAllGroups()
      requires ListsOk() && released == []
      modifies this`groups, this`released
      ensures ListsOk() && groups == [] && released == old(groups)
      ensures Free() == old(Free()) && NodeBlocks() == old(NodeBlocks())
    {
      hide GroupsOk;
      NoGroups(max, span);
      groups, released := [], groups;
    }

    /** Either way, the list as a whole keeps its blocks and nodes. */
    method PullOut(t: Tuning, forceAll: bool)
      requires ListsOk() && released == [] && t.Ok()
      modifies this`groups, this`released
      ensures ListsOk() && Free() == old(Free()) && NodeBlocks() == old(NodeBlocks())
      ensures groups == (if forceAll then [] else t.Kept(old(groups)))
      ensures released == if forceAll then old(groups) else t.Taken(old(groups))
      ensures !forceAll ==>
        && ChosenFrom(old(groups), released, t.blockSize, t.pageSize, t.groupSize, t.ptrBytes, t.used, t.pageDelta)
        && KeptFrom(old(groups), groups, released, t.blockSize)
    {
      hide ChosenFrom, KeptFrom;
      hide FreeList.ListsOk, FreeList.Free, FreeList.NodeBlocks, Bare;
      if forceAll {
        TakeAllGroups();
      } else {
        CollectGroupsToRelease(t);
      }
    }

    /** The groups pulled out come before those not looked at yet. */
    static predicate AllBefore(taken: seq<BatchGroup>, groups: seq<BatchGroup>, k: nat) {
      forall i, j | 0 <= i < |taken| && k <= j < |groups| :: taken[i].groupBase < groups[j].groupBase
    }

    method CollectStep(k: nat, t: Tuning) returns (k': nat)
      requires ListsOk() && k < |groups| && AllBefore(released, groups, k) && t.Ok()
      modifies this`groups, this`released
      ensures ListsOk() && AllBefore(released, groups, k') && k' <= |groups|
      ensures groups == old(groups)[..k] + t.KeptOf(old(groups)[k]) + old(groups)[k + 1..]
      ensures released == old(released) + t.TakenOf(old(groups)[k]) && k' == k + |t.KeptOf(old(groups)[k])|
      ensures Free() == old(Free()) && NodeBlocks() == old(NodeBlocks())
      ensures Bare(groups) + Bare(released) == old(Bare(groups) + Bare(released))
      ensures released == old(released) || (exists g ::
        released == old(released) + [g] && g.bytesAtLastCheckpoint == |Blocks(g.batches)| * t.blockSize)
    {
      hide AllBlocks, Nodes, Bare, GroupsOk, GroupOk, Blocks, Tuning.HighDensity, Tuning.ReachReleaseDelta;
      var bg := groups[k];
      AtIsOk(groups, k, max, span);
      CountIs(bg, max, span);
      var numBlocks := (|bg.batches| - 1) * max + |bg.batches[0].blocks|;
      var bytes := numBlocks * t.blockSize;
      assert bytes == t.Bytes(bg);
      if bytes <= bg.bytesAtLastCheckpoint {
        Checkpoint(groups, k, bytes);
        CheckpointOk(groups, k, bytes, max, span);
        groups := groups[k := bg.(bytesAtLastCheckpoint := bytes)];
        k' := k + 1;
      } else if bytes - bg.bytesAtLastCheckpoint < RoundUp(t.blockSize, t.pageSize) {
        k' := k + 1;
      } else if t.IsSmallBlock() && (!t.HighDensity(bg) || !t.ReachReleaseDelta(bg)) {
        k' := k + 1;
      } else {
        var cur := bg.(bytesAtLastCheckpoint := bytes);
        TakeOut(groups, released, k, cur, max, span);
        groups := groups[..k] + groups[k + 1..];
        released := released + [cur];
        k' := k;
      }
    }

    static lemma AtIsOk(groups: seq<BatchGroup>, k: nat, max: nat, span: nat)
      requires span > 0 && k < |groups| && GroupsOk(groups, max, span)
      ensures GroupOk(groups[k], max, span)
    {
    }

    /** The count the release code computes from the shape is the true one. */
    static lemma CountIs(g: BatchGroup, max: nat, span: nat)
      requires span > 0 && GroupOk(g, max, span)
      ensures g.batches != [] && (|g.batches| - 1) * max + |g.batches[0].blocks| == |Blocks(g.batches)|
    {
      CountByShapeExact(g.batches, max);
    }

    static lemma CheckpointOk(groups: seq<BatchGroup>, k: nat, bytes: nat, max: nat, span: nat)
      requires span > 0 && k < |groups| && GroupsOk(groups, max, span)
      ensures GroupsOk(groups[k := groups[k].(bytesAtLastCheckpoint := bytes)], max, span)
    {
      var after := groups[k := groups[k].(bytesAtLastCheckpoint := bytes)];
      assert GroupOk(groups[k], max, span);
      assert GroupOk(after[k], max, span);
    }

    static lemma TakeOut(groups: seq<BatchGroup>, taken: seq<BatchGroup>, k: nat, cur: BatchGroup, max: nat, span: nat)
      requires span > 0 && k < |groups| && GroupsOk(groups, max, span) && GroupsOk(taken, max, span)
      requires AllBefore(taken, groups, k) && cur == groups[k].(bytesAtLastCheckpoint := cur.bytesAtLastCheckpoint)
      ensures
        var rest, taken' := groups[..k] + groups[k + 1..], taken + [cur];
        && GroupsOk(rest, max, span) && GroupsOk(taken', max, span) && AllBefore(taken', rest, k)
        && AllBlocks(rest) + AllBlocks(taken') == AllBlocks(groups) + AllBlocks(taken)
        && Nodes(rest) + Nodes(taken') == Nodes(groups) + Nodes(taken)
        && Bare(rest) + Bare(taken') == Bare(groups) + Bare(taken)
    {
      TakeOutCounts(groups, taken, k, cur);
      CheckpointGroupOk(groups[k], cur.bytesAtLastCheckpoint, max, span);
      TakeOutOk(groups, taken, k, cur, max, span);
    }

    static lemma CheckpointGroupOk(g: BatchGroup, bytes: nat, max: nat, span: nat)
      requires span > 0
      ensures GroupOk(g, max, span) ==> GroupOk(g.(bytesAtLastCheckpoint := bytes), max, span)
    {
    }

    static lemma TakeOutOk(groups: seq<BatchGroup>, taken: seq<BatchGroup>, k: nat, cur: BatchGroup, max: nat,
                           span: nat)
      requires span > 0 && k < |groups| && GroupsOk(groups, max, span) && GroupsOk(taken, max, span)
      requires AllBefore(taken, groups, k) && cur.groupBase == groups[k].groupBase
      requires GroupOk(groups[k], max, span) ==> GroupOk(cur, max, span)
      ensures
        var rest, taken' := groups[..k] + groups[k + 1..], taken + [cur];
        GroupsOk(rest, max, span) && GroupsOk(taken', max, span) && AllBefore(taken', rest, k)
    {
      hide GroupOk;
      var rest, taken' := groups[..k] + groups[k + 1..], taken + [cur];
      assert GroupOk(groups[k], max, span);
      assert forall i | 0 <= i < k :: rest[i] == groups[i];
      assert forall i | k <= i < |rest| :: rest[i] == groups[i + 1];
      assert forall i | 0 <= i < |taken| :: taken'[i] == taken[i];
    }

    static lemma TakeOutCounts(groups: seq<BatchGroup>, taken: seq<BatchGroup>, k: nat, cur: BatchGroup)
      requires k < |groups| && cur == groups[k].(bytesAtLastCheckpoint := cur.bytesAtLastCheckpoint)
      ensures
        var rest, taken' := groups[..k] + groups[k + 1..], taken + [cur];
        && AllBlocks(rest) + AllBlocks(taken') == AllBlocks(groups) + AllBlocks(taken)
        && Nodes(rest) + Nodes(taken') == Nodes(groups) + Nodes(taken)
        && Bare(rest) + Bare(taken') == Bare(groups) + Bare(taken)
    {
      hide AllBlocks, Nodes, Bare, Blocks;
      Remove(groups, k);
      Concat(taken, [cur]);
      One(cur);
      assert GroupNodes(cur) == GroupNodes(groups[k]);
      hide GroupNodes, BatchNodes;
    }

    // ---------------------------------------------------------------- merging back

    /** Valid while some emptied nodes wait, off the list, to be recycled. */
    ghost predicate ValidHolding(cache: Cache, emptied: multiset<nat>)
      reads this`groups, this`released, cache, cache.region, cache.chunks
    {
      ListsOk() && cache.Valid() && NodeBlocks() + emptied <= cache.elsewhere
    }

    /** Since the books were `e0` and the nodes `n0`, nothing else changed hands. */
    ghost predicate Accounted(cache: Cache, e0: multiset<nat>, n0: multiset<nat>, emptied: multiset<nat>)
      reads this`groups, this`released, cache
    {
      cache.elsewhere + n0 == e0 + (NodeBlocks() + emptied)
    }

    /** The groups before `k` all come before what is still to be merged. */
    predicate Reached(k: nat)
      reads this`groups, this`released
    {
      k <= |groups| && (released != [] ==> forall j | 0 <= j < k :: groups[j].groupBase < released[0].groupBase)
    }

    /** mergeGroupsToReleaseBack: both lists are sorted; groups of the same base become one,
        and the nodes that leaves over go back to the batch class, eight at a time. */
    method MergeGroupsToReleaseBack(cache: Cache)
      requires Valid(cache)
      modifies this`groups, this`released, cache`elsewhere, cache.region
      ensures Valid(cache) && released == [] && Free() == old(Free()) && NodesAccounted(cache)
    {
      hide Cache.Valid, GroupsOk, FreeList.NodeBlocks, FreeList.Free, FreeList.Reached;
      var blocks := new nat[MAX_UNUSED_SIZE];
      ghost var e0, n0 := cache.elsewhere, NodeBlocks();
      var idx := MergeMatching(cache, blocks, e0, n0);
      if idx != 0 {
        Flush(cache, blocks, idx, e0, n0, multiset{});
      }
    }

    /** The walk over both lists; `blocks[..idx]` are the emptied nodes that still wait. */
    method MergeMatching(cache: Cache, blocks: array<nat>, ghost e0: multiset<nat>, ghost n0: multiset<nat>)
      returns (idx: nat)
      requires Valid(cache) && blocks.Length == MAX_UNUSED_SIZE && blocks != cache.chunks
      requires e0 == cache.elsewhere && n0 == NodeBlocks()
      modifies this`groups, this`released, cache`elsewhere, cache.region, blocks
      ensures idx <= MAX_UNUSED_SIZE && ValidHolding(cache, multiset(blocks[..idx]))
      ensures released == [] && Free() == old(Free())
      ensures Accounted(cache, e0, n0, multiset(blocks[..idx]))
    {
      hide Cache.Valid, GroupsOk, FreeList.NodeBlocks, FreeList.Free;
      var k: nat;
      k, idx := 0, 0;
      assert blocks[..0] == [];
      while k < |groups| && released != []
        invariant k <= |groups| && idx <= MAX_UNUSED_SIZE
        invariant ValidHolding(cache, multiset(blocks[..idx])) && Reached(k)
        invariant Free() == old(Free())
        invariant Accounted(cache, e0, n0, multiset(blocks[..idx]))
        decreases |released| + |groups| - k, |released|
      {
        if groups[k].groupBase < released[0].groupBase {
          k := k + 1;
        } else {
          k, idx := MergeFirst(cache, k, blocks, idx, e0, n0);
        }
      }
      AppendRest(k);
    }

    /** Takes the first group still to be merged: into the group at `k`, or before it. */
    method MergeFirst(cache: Cache, k: nat, blocks: array<nat>, idx: nat, ghost e0: multiset<nat>,
                      ghost n0: multiset<nat>)
      returns (k': nat, idx': nat)
      requires blocks.Length == MAX_UNUSED_SIZE && idx <= MAX_UNUSED_SIZE && blocks != cache.chunks
      requires ValidHolding(cache, multiset(blocks[..idx])) && Reached(k) && k < |groups| && released != []
      requires released[0].groupBase <= groups[k].groupBase
      requires Accounted(cache, e0, n0, multiset(blocks[..idx]))
      modifies this`groups, this`released, cache`elsewhere, cache.region, blocks
      ensures idx' <= MAX_UNUSED_SIZE && ValidHolding(cache, multiset(blocks[..idx'])) && Reached(k')
      ensures |released| == |old(released)| - 1 && |groups| - k' <= |old(groups)| - k
      ensures Free() == old(Free())
      ensures Accounted(cache, e0, n0, multiset(blocks[..idx']))
    {
      hide Cache.Valid, GroupsOk, FreeList.NodeBlocks, FreeList.Free, FreeList.Reached;
      idx' := idx;
      k' := k + 1;
      if released[0].groupBase == groups[k].groupBase {
        ghost var held, n1 := multiset(blocks[..idx]), NodeBlocks();
        var emptied := MergeFront(k);
        BooksHold(cache.elsewhere, e0, n0, n1, NodeBlocks(), held, multiset(emptied));
        idx' := Stash(cache, blocks, idx, emptied, e0, n0);
      } else {
        InsertFront(k);
      }
    }

    static lemma BooksHold(e: multiset<nat>, e0: multiset<nat>, n0: multiset<nat>, n1: multiset<nat>, n2: multiset<nat>,
                           held: multiset<nat>, emptied: multiset<nat>)
      requires n1 + held <= e && e + n0 == e0 + (n1 + held) && n2 + emptied == n1
      ensures n2 + (held + emptied) <= e && e + n0 == e0 + (n2 + (held + emptied))
    {
      forall x
        ensures (n2 + (held + emptied))[x] <= e[x]
        ensures (e + n0)[x] == (e0 + (n2 + (held + emptied)))[x]
      {
        assert (n2 + emptied)[x] == n1[x] && (n1 + held)[x] <= e[x] && (e + n0)[x] == (e0 + (n1 + held))[x];
      }
    }

    /** Pushes the waiting nodes to the batch class; `rest` wait on. */
    method Flush(cache: Cache, blocks: array<nat>, idx: nat, ghost e0: multiset<nat>, ghost n0: multiset<nat>,
                 ghost rest: multiset<nat>)
      requires 0 < idx <= blocks.Length && blocks != cache.chunks
      requires ValidHolding(cache, multiset(blocks[..idx]) + rest) &&
        Accounted(cache, e0, n0, multiset(blocks[..idx]) + rest)
      modifies cache`elsewhere, cache.region
      ensures ValidHolding(cache, rest) && Accounted(cache, e0, n0, rest)
    {
      hide Cache.Valid, FreeList.ListsOk, FreeList.NodeBlocks;
      BooksFlush(cache.elsewhere, e0, n0, NodeBlocks(), multiset(blocks[..idx]), rest);
      cache.Recycle(blocks, idx);
    }

    static lemma BooksFlush(e: multiset<nat>, e0: multiset<nat>, n0: multiset<nat>, n: multiset<nat>,
                            b: multiset<nat>, rest: multiset<nat>)
      requires n + (b + rest) <= e && e + n0 == e0 + (n + (b + rest))
      ensures b <= e && n + rest <= e - b && (e - b) + n0 == e0 + (n + rest)
    {
      forall x
        ensures b[x] <= e[x] && (n + rest)[x] <= (e - b)[x]
        ensures ((e - b) + n0)[x] == (e0 + (n + rest))[x]
      {
        assert (n + (b + rest))[x] <= e[x] && (e + n0)[x] == (e0 + (n + (b + rest)))[x];
      }
    }

    /** Keeps one or two emptied nodes, making room first if need be. */
    method Stash(cache: Cache, blocks: array<nat>, idx: nat, emptied: seq<nat>, ghost e0: multiset<nat>,
                 ghost n0: multiset<nat>)
      returns (idx': nat)
      requires blocks.Length == MAX_UNUSED_SIZE && idx <= MAX_UNUSED_SIZE && blocks != cache.chunks
      requires 1 <= |emptied| <= 2
      requires ValidHolding(cache, multiset(blocks[..idx]) + multiset(emptied))
      requires Accounted(cache, e0, n0, multiset(blocks[..idx]) + multiset(emptied))
      modifies cache`elsewhere, cache.region, blocks
      ensures
        var kept := if idx + |emptied| > MAX_UNUSED_SIZE then [] else old(blocks[..idx]);
        idx' == |kept| + |emptied| && blocks[..idx'] == kept + emptied
      ensures ValidHolding(cache, multiset(blocks[..idx'])) && Accounted(cache, e0, n0, multiset(blocks[..idx']))
    {
      hide Cache.Valid, FreeList.ListsOk, FreeList.NodeBlocks;
      idx' := idx;
      if idx + |emptied| > MAX_UNUSED_SIZE {
        Flush(cache, blocks, idx, e0, n0, multiset(emptied));
        idx' := 0;
        assert blocks[..0] == [];
      }
      ghost var held := blocks[..idx'];
      forall i | 0 <= i < |emptied| {
        blocks[idx' + i] := emptied[i];
      }
      idx' := idx' + |emptied|;
      assert blocks[..idx'] == held + emptied;
    }

    /** The two groups at the same base become one. */
    method MergeFront(k: nat) returns (emptied: seq<nat>)
      requires ListsOk() && Reached(k) && k < |groups| && released != []
      requires released[0].groupBase == groups[k].groupBase
      modifies this`groups, this`released
      ensures ListsOk() && Reached(k + 1) && 1 <= |emptied| <= 2
      ensures released == old(released)[1..] && |groups| == |old(groups)|
      ensures Free() == old(Free()) && NodeBlocks() + multiset(emptied) == old(NodeBlocks())
    {
      hide AllBlocks, Nodes, GroupNodes, Blocks, GroupOk, GroupsOk;
      var bg, cur := groups[k], released[0];
      AtIsOk(groups, k, max, span);
      AtIsOk(released, 0, max, span);
      var g;
      g, emptied := MergePair(bg, cur, max, span);
      DropFront(released, max, span);
      MergedOk(groups, k, g, groups[k := g], released, max, span);
      MergedHolds(groups, k, g, released, emptied);
      groups := groups[k := g];
      released := released[1..];
    }

    /** ... which sets the other group's node free, and perhaps that of an emptied batch. */
    static method MergePair(bg: BatchGroup, cur: BatchGroup, max: nat, ghost span: nat)
      returns (g: BatchGroup, emptied: seq<nat>)
      requires span > 0 && GroupOk(bg, max, span) && GroupOk(cur, max, span) && bg.groupBase == cur.groupBase
      ensures GroupOk(g, max, span) && g.groupBase == bg.groupBase && 1 <= |emptied| <= 2
      ensures multiset(Blocks(g.batches)) == multiset(Blocks(bg.batches)) + multiset(Blocks(cur.batches))
      ensures GroupNodes(g) + multiset(emptied) == GroupNodes(bg) + GroupNodes(cur)
    {
      hide GroupNodes, Blocks, GroupOk;
      var unused;
      g, unused := MergeGroups(bg, cur, max, span);
      emptied := if unused.To? then [cur.addr, unused.block] else [cur.addr];
      assert multiset(emptied) == multiset{cur.addr} + BlockOf(unused);
    }

    /** Blocks and nodes of both lists once the first of `rest` has gone into `g`. */
    static lemma MergedHolds(groups: seq<BatchGroup>, k: nat, g: BatchGroup, rest: seq<BatchGroup>, emptied: seq<nat>)
      requires k < |groups| && rest != []
      requires multiset(Blocks(g.batches)) == multiset(Blocks(groups[k].batches)) + multiset(Blocks(rest[0].batches))
      requires GroupNodes(g) + multiset(emptied) == GroupNodes(groups[k]) + GroupNodes(rest[0])
      ensures AllBlocks(groups[k := g]) + AllBlocks(rest[1..]) == AllBlocks(groups) + AllBlocks(rest)
      ensures Nodes(groups[k := g]) + Nodes(rest[1..]) + multiset(emptied) == Nodes(groups) + Nodes(rest)
    {
      hide Blocks, GroupNodes;
      Replace(groups, k, g);
      FrontHolds(rest);
      hide AllBlocks, Nodes;
      MergeCounts(AllBlocks(groups), AllBlocks(groups[k := g]),
                  multiset(Blocks(groups[k].batches)), multiset(Blocks(g.batches)),
                  AllBlocks(rest), AllBlocks(rest[1..]), multiset(Blocks(rest[0].batches)), multiset{});
      MergeCounts(Nodes(groups), Nodes(groups[k := g]), GroupNodes(groups[k]), GroupNodes(g),
                  Nodes(rest), Nodes(rest[1..]), GroupNodes(rest[0]), multiset(emptied));
    }

    static lemma FrontHolds(rest: seq<BatchGroup>)
      requires rest != []
      ensures AllBlocks(rest) == multiset(Blocks(rest[0].batches)) + AllBlocks(rest[1..])
      ensures Nodes(rest) == GroupNodes(rest[0]) + Nodes(rest[1..])
    {
    }

    static lemma MergeCounts(n: multiset<nat>, n': multiset<nat>, b: multiset<nat>, g: multiset<nat>,
                             r: multiset<nat>, r': multiset<nat>, c: multiset<nat>, x: multiset<nat>)
      requires n' + b == n + g && r == c + r' && g + x == b + c
      ensures (n' + r') + x == n + r
    {
      forall y ensures ((n' + r') + x)[y] == (n + r)[y] {
        assert (n' + b)[y] == (n + g)[y] && r[y] == (c + r')[y] && (g + x)[y] == (b + c)[y];
      }
    }

    static lemma MergedOk(groups: seq<BatchGroup>, k: nat, g: BatchGroup, after: seq<BatchGroup>,
                          rest: seq<BatchGroup>, max: nat, span: nat)
      requires span > 0 && k < |groups| && after == groups[k := g]
      requires GroupsOk(groups, max, span) && GroupOk(g, max, span)
      requires g.groupBase == groups[k].groupBase && rest != [] && rest[0].groupBase == g.groupBase
      requires GroupsOk(rest, max, span)
      ensures GroupsOk(after, max, span)
      ensures |rest| > 1 ==> forall j | 0 <= j <= k :: after[j].groupBase < rest[1].groupBase
    {
      hide GroupOk;
    }

    /** A group whose base is missing goes in before `k`. */
    method InsertFront(k: nat)
      requires ListsOk() && Reached(k) && k < |groups| && released != []
      requires released[0].groupBase < groups[k].groupBase
      modifies this`groups, this`released
      ensures ListsOk() && Reached(k + 1)
      ensures released == old(released)[1..] && |groups| == |old(groups)| + 1
      ensures Free() == old(Free()) && NodeBlocks() == old(NodeBlocks())
    {
      hide AllBlocks, Nodes, GroupNodes, Blocks, GroupOk, GroupsOk;
      var cur := released[0];
      Insert(groups, k, cur);
      DropFront(released, max, span);
      InsertedOk(groups, k, groups[..k] + [cur] + groups[k..], released, max, span);
      groups := groups[..k] + [cur] + groups[k..];
      released := released[1..];
    }

    static lemma InsertedOk(groups: seq<BatchGroup>, k: nat, after: seq<BatchGroup>, rest: seq<BatchGroup>, max: nat,
                            span: nat)
      requires span > 0 && k < |groups| && rest != [] && after == groups[..k] + [rest[0]] + groups[k..]
      requires GroupsOk(groups, max, span) && GroupsOk(rest, max, span) && rest != []
      requires rest[0].groupBase < groups[k].groupBase
      requires forall j | 0 <= j < k :: groups[j].groupBase < rest[0].groupBase
      ensures GroupsOk(after, max, span)
      ensures |rest| > 1 ==> forall j | 0 <= j <= k :: after[j].groupBase < rest[1].groupBase
    {
      hide GroupOk;
      assert GroupOk(rest[0], max, span);
      assert forall i | 0 <= i < k :: after[i] == groups[i];
      assert forall i | k < i < |after| :: after[i] == groups[i - 1];
    }

    /** Whatever is left goes to the end. */
    method AppendRest(k: nat)
      requires ListsOk() && Reached(k) && (k == |groups| || released == [])
      modifies this`groups, this`released
      ensures ListsOk() && released == []
      ensures Free() == old(Free()) && NodeBlocks() == old(NodeBlocks())
    {
      hide AllBlocks, Nodes, GroupOk, GroupsOk;
      Concat(groups, released);
      NoGroups(max, span);
      if released != [] {
        AppendedOk(groups, released, max, span);
        groups := groups + released;
        released := [];
      }
    }

    static lemma NoGroups(max: nat, span: nat)
      requires span > 0
      ensures AllBlocks([]) == multiset{} && Nodes([]) == multiset{} && GroupsOk([], max, span)
    {
    }

    static lemma AppendedOk(groups: seq<BatchGroup>, rest: seq<BatchGroup>, max: nat, span: nat)
      requires span > 0 && GroupsOk(groups, max, span) && GroupsOk(rest, max, span) && rest != []
      requires forall j | 0 <= j < |groups| :: groups[j].groupBase < rest[0].groupBase
      ensures GroupsOk(groups + rest, max, span)
    {
      hide GroupOk;
      var all := groups + rest;
      assert forall i | 0 <= i < |rest| :: rest[0].groupBase <= rest[i].groupBase;
      assert forall i | |groups| <= i < |all| :: all[i] == rest[i - |groups|];
    }
  }
}

/** One size class of the primary allocator with a thread's cache in front of it
    (local_cache.h allocate, deallocate, refill, drain; primary64.h popBlocks, pushBlocks,
    populateFreeListAndPopBlocks): where every carved block is. */
module ConservedBlocks {

  import opened Shuffling
  import opened Arithmetic
  import opened BatchCache
  import opened GroupSort
  import opened RegionFreeList
  import opened RegionMapping
  import opened Sequences

  /** The compact pointers of the first `n` blocks of a region, in address order; blocks
      are `unit` compact pointers apart. */
  function Carved(unit: nat, n: nat): (xs: seq<nat>)
    ensures |xs| == n && forall i | 0 <= i < n :: xs[i] == i * unit
  {
    if n == 0 then [] else Carved(unit, n - 1) + [(n - 1) * unit]
  }

  /** `n` more blocks, behind the first `m`. */
  lemma CarvedSplit(unit: nat, m: nat, n: nat, news: seq<nat>)
    requires |news| == n && forall i | 0 <= i < n :: news[i] == m * unit + i * unit
    ensures Carved(unit, m + n) == Carved(unit, m) + news
  {
    var all, parts := Carved(unit, m + n), Carved(unit, m) + news;
    forall i | 0 <= i < m + n ensures all[i] == parts[i] {
      if i >= m {
        assert (i - m) * unit + m * unit == i * unit;
      }
    }
  }

  /** No two blocks have the same pointer. */
  lemma CarvedDistinct(unit: nat, n: nat)
    requires unit > 0
    ensures Distinct(Carved(unit, n))
  {
    var xs := Carved(unit, n);
    forall i, j | 0 <= i < j < |xs| ensures xs[i] != xs[j] {
      MulCancelStrict(i, j, unit);
    }
  }

  lemma MulCancelStrict(i: nat, j: nat, unit: nat)
    requires unit > 0 && i < j
    ensures i * unit < j * unit
  {
    MulMono(i + 1, j, unit);
    assert (i + 1) * unit == i * unit + unit;
  }

  lemma {:induction false} OnceEach(all: seq<nat>, x: nat)
    requires Distinct(all)
    ensures multiset(all)[x] <= 1
  {
    if all == [] {
    } else {
      var rest, last := all[..|all| - 1], all[|all| - 1];
      assert all == rest + [last];
      OnceEach(rest, x);
      if x == last {
        assert x !in rest;
      }
    }
  }

  lemma {:induction false} DistinctFromCounts(s: seq<nat>)
    requires forall x: nat :: multiset(s)[x] <= 1
    ensures Distinct(s)
  {
    if s == [] {
    } else {
      var rest, last := s[..|s| - 1], s[|s| - 1];
      assert s == rest + [last];
      var counts: multiset<nat> := multiset(rest);
      assert multiset(s) == counts + multiset{last};
      forall x: nat ensures counts[x] <= 1 {
        assert multiset(s)[x] <= 1;
      }
      DistinctFromCounts(rest);
      assert multiset(s)[last] == counts[last] + 1;
      assert last !in counts;
    }
  }

  /** Every carved block is on the free list, in a thread's cache, or outside both, once. */
  ghost predicate Accounted(all: seq<nat>, free: multiset<nat>, cached: seq<nat>, outside: multiset<nat>) {
    multiset(all) == free + multiset(cached) + outside
  }

  /** common.h shuffle: `draws` are the random numbers. */
  method Shuffle(a: array<nat>, from: nat, n: nat, draws: seq<nat>)
    requires from + n <= a.Length && 0 < n <= |draws|
    modifies a
    ensures a[from..from + n] == Shuffled(old(a[from..from + n]), draws)
    ensures multiset(a[from..from + n]) == multiset(old(a[from..from + n]))
    ensures forall k | 0 <= k < a.Length && !(from <= k < from + n) :: a[k] == old(a[k])
  {
    hide Shuffled;
    ghost var was := a[from..from + n];
    assert was[..n] == was;
    var i := n - 1;
    while i > 0
      invariant 0 <= i < n
      invariant var now := a[from..from + n]; Shuffled(now[..i + 1], draws) + now[i + 1..] == Shuffled(was, draws)
      invariant forall k | 0 <= k < a.Length && !(from <= k < from + n) :: a[k] == old(a[k])
    {
      var j := draws[i] % (i + 1);
      ghost var before := a[from..from + n];
      a[from + i], a[from + j] := a[from + j], a[from + i];
      ShuffleRound(before, a[from..from + n], i, draws);
      i := i - 1;
    }
    OneLeft(a[from..from + n], draws);
    ShuffledIsPermutation(was, draws);
  }

  /** A thread's chunks once the oldest half, or what there is, has been drained, ... */
  function Drained(was: seq<nat>, maxCount: nat): seq<nat> {
    was[Min(maxCount / 2, |was|)..]
  }

  /** ... and once a block has been given back. */
  function Deallocated(was: seq<nat>, maxCount: nat, x: nat): seq<nat> {
    (if |was| == maxCount then Drained(was, maxCount) else was) + [x]
  }

  /** One size class of one thread's cache (local_cache.h PerClass). */
  class PerClass {
    const chunks: array<nat>
    const maxCount: nat
    var count: nat

    ghost predicate Valid()
      reads this
    {
      count <= maxCount <= chunks.Length && maxCount % 2 == 0 && maxCount >= 2
    }

    constructor (maxCached: nat, maxNumCachedHint: nat)
      requires 0 < maxCached <= maxNumCachedHint
      ensures Valid() && fresh(chunks) && count == 0
    {
      chunks := new nat[2 * maxNumCachedHint];
      maxCount := 2 * maxCached;
      count := 0;
    }

    /** The chunks, oldest first. */
    function Held(): seq<nat>
      reads this, chunks
    {
      if count <= chunks.Length then chunks[..count] else []
    }

    /** The loop at the end of drain. */
    method ShiftDown(n: nat)
      requires 0 < n && n + count <= chunks.Length
      modifies chunks
      ensures chunks[..count] == old(chunks[n..n + count])
    {
      var i := 0;
      while i < count
        invariant i <= count
        invariant forall j | 0 <= j < i :: chunks[j] == old(chunks[n + j])
        invariant forall j | i + n <= j < count + n :: chunks[j] == old(chunks[j])
      {
        chunks[i] := chunks[i + n];
        i := i + 1;
      }
    }
  }

  /** The region of a size class.  Its methods run on a thread whose chunks of the class are
      `p` and whose cache of list nodes is `cache`; `outside` is where its other blocks are:
      in other threads' caches and in users' hands. */
  class SizeClass {
    const list: FreeList
    /** Compact pointers from one block to the next. */
    const unit: nat
    const grouped: bool
    const mapping: Mapping
    const regionBlocks: nat
    var carved: nat
    var mappedUser: nat

    ghost predicate Shape()
      reads this
    {
      && unit > 0 && mapping.Inv(carved, mappedUser) && regionBlocks == mapping.limit / mapping.blockSize
      && carved <= regionBlocks && list.span > 0
      && (!grouped ==> OneGroup(Carved(unit, regionBlocks), list.span))
    }

    /** PoppedBlocks - PushedBlocks tells how many blocks are off the list. */
    ghost predicate Counted()
      reads this, list
    {
      list.poppedBlocks - list.pushedBlocks == carved - |list.Free()|
    }

    ghost predicate Books(p: PerClass, cache: Cache, outside: multiset<nat>)
      reads this, p, p.chunks, list, cache, cache.region, cache.chunks
    {
      && Shape() && Counted() && p.Valid() && p.chunks != cache.chunks && list.Valid(cache)
      && Accounted(Carved(unit, carved), list.Free(), p.chunks[..p.count], outside)
    }

    constructor (list: FreeList, unit: nat, grouped: bool, mapping: Mapping)
      requires list.ListsOk() && list.Free() == multiset{} && list.poppedBlocks == list.pushedBlocks
      requires unit > 0 && mapping.Ok()
      requires !grouped ==> OneGroup(Carved(unit, mapping.limit / mapping.blockSize), list.span)
      ensures Shape() && Counted() && carved == 0 && this.list == list && this.mapping == mapping
    {
      this.list, this.unit, this.grouped, this.mapping := list, unit, grouped, mapping;
      regionBlocks := mapping.limit / mapping.blockSize;
      carved, mappedUser := 0, 0;
      NothingMapped(mapping);
    }

    static lemma NothingMapped(mapping: Mapping)
      requires mapping.Ok()
      ensures mapping.Inv(0, 0)
    {
      assert mapping.After(0) == (0, 0);
    }

    /** A refill now would fail. */
    predicate Stuck(remaps: bool)
      requires mapping.Ok()
      reads this
    {
      mapping.Stuck(carved, mappedUser, remaps)
    }

    // ---------------------------------------------------------------- populating

    /** The part of populateFreeListAndPopBlocks that pushes the new blocks: run by run of
        one group, each run shuffled. */
    method PushAscending(cache: Cache, a: array<nat>, n0: nat, draws: seq<nat>)
      requires list.Valid(cache) && a.Length > 0 && n0 > 0 && |draws| >= a.Length
      requires a != cache.chunks
      modifies a, list`groups, list`pushedBlocks
      modifies cache`count, cache`elsewhere, cache.region, cache.chunks
      ensures list.Valid(cache) && list.released == old(list.released) && list.groups != []
      ensures list.Free() == old(list.Free()) + multiset(old(a[..])) && list.NodesAccounted(cache)
      ensures list.pushedBlocks == old(list.pushedBlocks) + a.Length
    {
      hide FreeList.Valid, FreeList.Free, FreeList.NodeBlocks, Group;
      var span := list.span;
      SpanIsPositive(list, cache);
      ghost var e0, n1 := cache.elsewhere, list.NodeBlocks();
      var run, i := 1, 1;
      var group := Group(a[0], span);
      while i < a.Length
        invariant 1 <= run <= i <= a.Length && list.Valid(cache)
        invariant forall k | i - run <= k < i :: Group(a[k], span) == group
        invariant forall k | i - run <= k < a.Length :: a[k] == old(a[k])
        invariant list.Free() == old(list.Free()) + multiset(old(a[..])[..i - run])
        invariant list.pushedBlocks == old(list.pushedBlocks) + (i - run)
        invariant cache.elsewhere + n1 == e0 + list.NodeBlocks() && list.released == old(list.released)
      {
        if Group(a[i], span) != group {
          PushRun(cache, a, i - run, i, n0, draws, old(a[..]), old(list.Free()), e0, n1);
          run := 1;
          group := Group(a[i], span);
        } else {
          run := run + 1;
        }
        i := i + 1;
      }
      assert old(a[..])[..a.Length] == old(a[..]);
      PushRun(cache, a, a.Length - run, a.Length, n0, draws, old(a[..]), old(list.Free()), e0, n1);
    }

    static lemma SpanIsPositive(list: FreeList, cache: Cache)
      requires list.Valid(cache)
      ensures list.span > 0
    {
    }

    method PushRun(cache: Cache, a: array<nat>, from: nat, to: nat, n0: nat, draws: seq<nat>, ghost was: seq<nat>,
                   ghost free: multiset<nat>, ghost e0: multiset<nat>, ghost n1: multiset<nat>)
      requires list.Valid(cache) && list.span > 0 && from < to <= a.Length == |was| <= |draws| && n0 > 0
      requires a != cache.chunks
      requires forall k | from <= k < to :: Group(a[k], list.span) == Group(a[from], list.span)
      requires forall k | from <= k < a.Length :: a[k] == was[k]
      requires list.Free() == free + multiset(was[..from])
      requires cache.elsewhere + n1 == e0 + list.NodeBlocks()
      modifies a, list`groups, list`pushedBlocks
      modifies cache`count, cache`elsewhere, cache.region, cache.chunks
      ensures list.Valid(cache) && list.released == old(list.released) && list.groups != []
      ensures forall k | to <= k < a.Length :: a[k] == was[k]
      ensures list.Free() == free + multiset(was[..to])
      ensures list.pushedBlocks == old(list.pushedBlocks) + (to - from)
      ensures cache.elsewhere + n1 == e0 + list.NodeBlocks()
    {
      hide FreeList.Valid, FreeList.Free, FreeList.NodeBlocks, Group, Shuffled;
      assert a[from..to] == was[from..to];
      ghost var run, span := a[from..to], list.span;
      assert forall i | 0 <= i < |run| :: run[i] == a[from + i];
      Shuffle(a, from, to - from, draws);
      ghost var shuffled := a[from..to];
      SameGroupShuffled(run, shuffled, span);
      forall i | from <= i < to ensures Group(a[i], span) == Group(a[from], span) {
        assert a[i] == shuffled[i - from] && a[from] == shuffled[0];
      }
      ghost var e, n := cache.elsewhere, list.NodeBlocks();
      list.PushSameGroup(cache, a, from, to, n0);
      Balance(e0, n1, e, n, cache.elsewhere, list.NodeBlocks());
      assert was[..to] == was[..from] + was[from..to];
    }

    static lemma SameGroupShuffled(s: seq<nat>, t: seq<nat>, span: nat)
      requires span > 0 && s != [] && |t| == |s| && multiset(s) == multiset(t)
      requires forall i | 0 <= i < |s| :: Group(s[i], span) == Group(s[0], span)
      ensures forall i | 0 <= i < |t| :: Group(t[i], span) == Group(t[0], span)
    {
      hide Group;
      forall i | 0 <= i < |t| ensures Group(t[i], span) == Group(s[0], span) {
        assert t[i] in multiset(t);
        assert t[i] in s;
      }
    }

    /** populateFreeListAndPopBlocks once `mapped` bytes are mapped: carves `n` blocks, pushes
        them, pops some, and takes its own push out of the statistics. */
    method Populate(p: PerClass, cache: Cache, n: nat, mapped: nat, n0: nat, draws: seq<nat>,
                    ghost outside: multiset<nat>)
      returns (popped: nat)
      requires Books(p, cache, outside) && p.count == 0
      requires 0 < n <= regionBlocks - carved && n0 > 0 && |draws| >= n && mapping.Inv(carved + n, mapped)
      modifies this`carved, this`mappedUser, p.chunks, list`groups, list`pushedBlocks, list`poppedBlocks
      modifies cache`count, cache`elsewhere, cache.region, cache.chunks
      ensures Shape() && Counted() && list.Valid(cache)
      ensures carved == old(carved) + n && mappedUser == mapped && 0 < popped <= p.maxCount / 2
      ensures Accounted(Carved(unit, carved), list.Free(), p.chunks[..popped], outside)
      ensures list.NodesAccounted(cache) && list.released == old(list.released)
    {
      hide FreeList.Valid, FreeList.Free, FreeList.NodeBlocks, FreeList.PoppedFrom, Carved, OneGroup, Accounted;
      hide Mapping.Inv;
      ghost var free, e0, n1 := list.Free(), cache.elsewhere, list.NodeBlocks();
      ghost var news := PushNewBlocks(cache, n, n0, draws);
      ghost var e, n2, full := cache.elsewhere, list.NodeBlocks(), list.Free();
      popped := list.PopBlocksImpl(cache, p.chunks, p.maxCount / 2);
      Balance(e0, n1, e, n2, cache.elsewhere, list.NodeBlocks());
      PopulatedAccounted(Carved(unit, carved), news, free, full, list.Free(), p.chunks[..0], p.chunks[..popped],
                         outside);
      list.pushedBlocks := list.pushedBlocks - n;
      carved, mappedUser := carved + n, mapped;
    }

    /** The next `n` blocks of the region go onto the list. */
    method PushNewBlocks(cache: Cache, n: nat, n0: nat, draws: seq<nat>) returns (ghost news: seq<nat>)
      requires list.Valid(cache) && n > 0 && n0 > 0 && |draws| >= n
      modifies list`groups, list`pushedBlocks, cache`count, cache`elsewhere, cache.region, cache.chunks
      ensures list.Valid(cache) && list.released == old(list.released) && list.groups != [] && |news| == n
      ensures list.Free() == old(list.Free()) + multiset(news) && list.NodesAccounted(cache)
      ensures list.pushedBlocks == old(list.pushedBlocks) + n && Carved(unit, carved + n) == Carved(unit, carved) + news
    {
      hide FreeList.Valid, FreeList.Free, FreeList.NodeBlocks, Carved;
      var a := NewBlocks(n);
      CarvedSplit(unit, carved, n, a[..]);
      news := a[..];
      PushAscending(cache, a, n0, draws);
    }

    static lemma PopulatedAccounted(all: seq<nat>, news: seq<nat>, free: multiset<nat>, full: multiset<nat>,
                                    free': multiset<nat>, none: seq<nat>, popped: seq<nat>, outside: multiset<nat>)
      requires Accounted(all, free, none, outside) && none == []
      requires full == free + multiset(news) && free' + multiset(popped) == full
      ensures Accounted(all + news, free', popped, outside)
      ensures |free'| == |free| + |news| - |popped|
    {
      assert |free' + multiset(popped)| == |free'| + |popped|;
      assert |free + multiset(news)| == |free| + |news|;
    }

    method NewBlocks(n: nat) returns (a: array<nat>)
      ensures fresh(a) && a.Length == n
      ensures forall i | 0 <= i < n :: a[i] == carved * unit + i * unit
    {
      a := new nat[n];
      var i, p := 0, carved * unit;
      while i < n
        invariant 0 <= i <= n && p == carved * unit + i * unit
        invariant forall j | 0 <= j < i :: a[j] == carved * unit + j * unit
      {
        a[i] := p;
        p := p + unit;
        i := i + 1;
        assert i * unit == (i - 1) * unit + unit;
      }
    }

    // ---------------------------------------------------------------- the thread's cache

    /** refill: from the free list, else from new blocks, if there is room in the region and
        the system maps it. */
    method Refill(p: PerClass, cache: Cache, n0: nat, remaps: bool, draws: seq<nat>, ghost outside: multiset<nat>)
      requires Books(p, cache, outside) && p.count == 0 && n0 > 0 && |draws| >= mapping.MostNewBlocks()
      modifies p`count, this`carved, this`mappedUser, p.chunks, list`groups, list`pushedBlocks, list`poppedBlocks
      modifies cache`count, cache`elsewhere, cache.region, cache.chunks
      ensures Books(p, cache, outside) && list.NodesAccounted(cache) && list.released == old(list.released)
      ensures p.count == 0 <==> old(list.groups) == [] && old(Stuck(remaps))
      ensures old(list.groups) != [] ==>
        FreeList.PoppedFrom(old(list.groups)[0], p.chunks[..p.count], p.maxCount / 2)
      ensures p.count == 0 || old(list.groups) != [] ==> carved == old(carved) && mappedUser == old(mappedUser)
      ensures carved > old(carved) ==>
        && mappedUser == mapping.MappedFor(old(carved), old(mappedUser))
        && carved == old(carved) + mapping.NewBlocks(old(carved), mappedUser)
    {
      hide FreeList.Valid, FreeList.Free, FreeList.NodeBlocks, Carved, OneGroup, Accounted, Mapping.Inv;
      hide Mapping.MappedFor, Mapping.NewBlocks;
      ghost var e0, n1 := cache.elsewhere, list.NodeBlocks();
      CanRefill();
      var popped := PopChunks(p, cache, outside);
      if popped == 0 && !Stuck(remaps) {
        var mapped := mapping.MappedFor(carved, mappedUser);
        var n := mapping.NewBlocks(carved, mapped);
        ghost var e, n2 := cache.elsewhere, list.NodeBlocks();
        popped := Populate(p, cache, n, mapped, n0, draws, outside);
        Balance(e0, n1, e, n2, cache.elsewhere, list.NodeBlocks());
      }
      p.count := popped;
    }

    /** Unless it is stuck, a refill finds room for a block and stays within the region. */
    lemma CanRefill()
      requires Shape()
      ensures mapping.Ok() && carved * mapping.blockSize <= mapping.MappedFor(carved, mappedUser)
      ensures
        var mapped := mapping.MappedFor(carved, mappedUser);
        var n := mapping.NewBlocks(carved, mapped);
        mapped <= mapping.limit ==>
          0 < n <= mapping.MostNewBlocks() && n <= regionBlocks - carved && mapping.Inv(carved + n, mapped)
      ensures (exists remaps :: !Stuck(remaps)) ==> mapping.MappedFor(carved, mappedUser) <= mapping.limit
    {
      hide Carved, OneGroup;
      MappedIsEnough(mapping, carved, mappedUser);
      var mapped := mapping.MappedFor(carved, mappedUser);
      if mapped <= mapping.limit {
        RefillKeepsInv(mapping, carved, mappedUser);
        var n := mapping.NewBlocks(carved, mapped);
        DivBounds(carved + n, mapping.limit, mapping.blockSize);
      }
    }

    /** popBlocks as far as the free list goes. */
    method PopChunks(p: PerClass, cache: Cache, ghost outside: multiset<nat>) returns (popped: nat)
      requires Books(p, cache, outside) && p.count == 0
      modifies p.chunks, list`groups, list`poppedBlocks
      modifies cache`count, cache`elsewhere, cache.region, cache.chunks
      ensures Shape() && Counted() && list.Valid(cache) && popped <= p.maxCount / 2
      ensures Accounted(Carved(unit, carved), list.Free(), p.chunks[..popped], outside)
      ensures list.NodesAccounted(cache) && list.released == old(list.released)
      ensures popped == 0 <==> old(list.groups) == []
      ensures old(list.groups) != [] ==>
        FreeList.PoppedFrom(old(list.groups)[0], p.chunks[..popped], p.maxCount / 2)
    {
      hide FreeList.Valid, FreeList.Free, FreeList.NodeBlocks, FreeList.PoppedFrom, Carved, OneGroup, Accounted;
      ghost var free := list.Free();
      popped := list.PopBlocksImpl(cache, p.chunks, p.maxCount / 2);
      PoppedAccounted(Carved(unit, carved), free, list.Free(), p.chunks[..0], p.chunks[..popped], outside);
    }

    static lemma PoppedAccounted(all: seq<nat>, free: multiset<nat>, free': multiset<nat>, none: seq<nat>,
                                 popped: seq<nat>, outside: multiset<nat>)
      requires Accounted(all, free, none, outside) && none == [] && free' + multiset(popped) == free
      ensures Accounted(all, free', popped, outside) && |free'| + |popped| == |free|
    {
      assert |free' + multiset(popped)| == |free'| + |popped|;
    }

    /** allocate: a block that was not outside before. */
    method Allocate(p: PerClass, cache: Cache, n0: nat, remaps: bool, draws: seq<nat>, ghost outside: multiset<nat>)
      returns (ok: bool, x: nat)
      requires Books(p, cache, outside) && n0 > 0 && |draws| >= mapping.MostNewBlocks()
      modifies p`count, this`carved, this`mappedUser, p.chunks, list`groups, list`pushedBlocks, list`poppedBlocks
      modifies cache`count, cache`elsewhere, cache.region, cache.chunks
      ensures Books(p, cache, if ok then outside + multiset{x} else outside)
      ensures list.NodesAccounted(cache) && list.released == old(list.released)
      ensures ok ==> x !in outside
      ensures !ok <==> old(p.count) == 0 && old(list.groups) == [] && old(Stuck(remaps))
      ensures !ok || old(p.count) > 0 || old(list.groups) != [] ==>
        carved == old(carved) && mappedUser == old(mappedUser)
      ensures |old(p.Held())| == old(p.count) && |p.Held()| == p.count && (!ok ==> p.count == 0)
      ensures old(p.count) > 0 ==> old(p.Held()) == p.Held() + [x] && list.groups == old(list.groups)
    {
      hide SizeClass.Books, FreeList.Free, FreeList.NodeBlocks, PerClass.Held;
      BooksMeanChunks(p, cache, outside);
      if p.count == 0 {
        Refill(p, cache, n0, remaps, draws, outside);
        if p.count == 0 {
          BooksMeanChunks(p, cache, outside);
          return false, 0;
        }
      }
      x := TakeChunk(p, cache, outside);
      ok := true;
    }

    method TakeChunk(p: PerClass, cache: Cache, ghost outside: multiset<nat>) returns (x: nat)
      requires Books(p, cache, outside) && p.count > 0
      modifies p`count
      ensures Books(p, cache, outside + multiset{x}) && x !in outside
      ensures old(p.Held()) == p.Held() + [x] && p.count == old(p.count) - 1 == |p.Held()|
    {
      hide FreeList.Valid, FreeList.Free, Carved;
      ghost var all, cached := Carved(unit, carved), p.chunks[..p.count];
      CarvedDistinct(unit, carved);
      TakenAccounted(all, list.Free(), cached, outside);
      p.count := p.count - 1;
      x := p.chunks[p.count];
      assert cached[..p.count] == p.chunks[..p.count];
    }

    static lemma TakenAccounted(all: seq<nat>, free: multiset<nat>, cached: seq<nat>, outside: multiset<nat>)
      requires Accounted(all, free, cached, outside) && cached != [] && Distinct(all)
      ensures
        var x := cached[|cached| - 1];
        Accounted(all, free, cached[..|cached| - 1], outside + multiset{x}) && x !in outside
    {
      var x := cached[|cached| - 1];
      assert cached == cached[..|cached| - 1] + [x];
      OnceEach(all, x);
    }

    /** deallocate */
    method Deallocate(p: PerClass, cache: Cache, x: nat, n0: nat, ghost outside: multiset<nat>)
      requires Books(p, cache, outside) && x in outside && n0 > 0
      modifies p`count, p.chunks, list`groups, list`pushedBlocks
      modifies cache`count, cache`elsewhere, cache.region, cache.chunks
      ensures Books(p, cache, outside - multiset{x})
      ensures list.NodesAccounted(cache) && list.released == old(list.released)
      ensures
        var was := old(p.Held());
        var n := if |was| == p.maxCount then p.maxCount / 2 else 0;
        && |was| == old(p.count) && |p.Held()| == p.count && n <= |was|
        && p.Held() == was[n..] + [x] == Deallocated(was, p.maxCount, x)
        && list.Free() == old(list.Free()) + multiset(was[..n])
        && (n == 0 ==> list.groups == old(list.groups) && list.pushedBlocks == old(list.pushedBlocks))
    {
      hide FreeList.Free, FreeList.NodeBlocks, SizeClass.Books, SizeClass.Shape, SizeClass.Counted;
      BooksMeanChunks(p, cache, outside);
      if p.count == p.maxCount {
        Drain(p, cache, n0, outside);
      }
      PutChunk(p, cache, x, outside);
    }

    lemma BooksMeanChunks(p: PerClass, cache: Cache, outside: multiset<nat>)
      requires Books(p, cache, outside)
      ensures p.Valid() && |p.Held()| == p.count
    {
    }

    method PutChunk(p: PerClass, cache: Cache, x: nat, ghost outside: multiset<nat>)
      requires Books(p, cache, outside) && x in outside && p.count < p.maxCount
      modifies p`count, p.chunks
      ensures Books(p, cache, outside - multiset{x})
      ensures p.Held() == old(p.Held()) + [x] && |old(p.Held())| == old(p.count) && |p.Held()| == p.count
    {
      hide FreeList.Free, Carved;
      hide Cache.Valid, FreeList.ListsOk, FreeList.NodeBlocks;
      PutAccounted(Carved(unit, carved), list.Free(), p.chunks[..p.count], outside, x);
      p.chunks[p.count] := x;
      p.count := p.count + 1;
      assert p.chunks[..p.count] == old(p.chunks[..p.count]) + [x];
    }

    static lemma PutAccounted(all: seq<nat>, free: multiset<nat>, cached: seq<nat>, outside: multiset<nat>, x: nat)
      requires Accounted(all, free, cached, outside) && x in outside
      ensures Accounted(all, free, cached + [x], outside - multiset{x})
    {
    }

    /** drain: the older half of the chunks goes back to the free list. */
    method Drain(p: PerClass, cache: Cache, n0: nat, ghost outside: multiset<nat>)
      requires Books(p, cache, outside) && p.count > 0 && n0 > 0
      modifies p`count, p.chunks, list`groups, list`pushedBlocks
      modifies cache`count, cache`elsewhere, cache.region, cache.chunks
      ensures Books(p, cache, outside) && list.NodesAccounted(cache) && list.released == old(list.released)
      ensures p.count == old(p.count) - Min(p.maxCount / 2, old(p.count)) < old(p.count)
      ensures
        var was := old(p.Held());
        var n := Min(p.maxCount / 2, |was|);
        && |was| == old(p.count) && |p.Held()| == p.count
        && p.Held() == was[n..] == Drained(was, p.maxCount)
        && list.Free() == old(list.Free()) + multiset(was[..n])
    {
      hide FreeList.Valid, FreeList.Free, FreeList.NodeBlocks, Carved, Accounted, SizeClass.Shape, SizeClass.Counted;
      var n := Min(p.maxCount / 2, p.count);
      ghost var was := p.chunks[..p.count];
      assert was[..n] == p.chunks[..n] && was[n..] == p.chunks[n..p.count];
      PushOldest(p, cache, n, n0, outside);
      p.count := p.count - n;
      p.ShiftDown(n);
    }

    /** Merges the groups pulled out for a page release back into the list. */
    method MergeBack(p: PerClass, cache: Cache, ghost outside: multiset<nat>)
      requires Books(p, cache, outside)
      modifies list`groups, list`released, cache`elsewhere, cache.region
      ensures Books(p, cache, outside) && list.NodesAccounted(cache) && list.released == []
    {
      hide FreeList.Valid, FreeList.Free, FreeList.NodeBlocks, Carved, Accounted, OneGroup;
      list.MergeGroupsToReleaseBack(cache);
    }

    method PushOldest(p: PerClass, cache: Cache, n: nat, n0: nat, ghost outside: multiset<nat>)
      requires Books(p, cache, outside) && 0 < n <= p.count && n0 > 0
      modifies p.chunks, list`groups, list`pushedBlocks
      modifies cache`count, cache`elsewhere, cache.region, cache.chunks
      ensures Shape() && Counted() && list.Valid(cache)
      ensures list.NodesAccounted(cache) && list.released == old(list.released)
      ensures Accounted(Carved(unit, carved), list.Free(), p.chunks[n..p.count], outside)
      ensures p.chunks[n..p.count] == old(p.chunks[n..p.count])
      ensures list.Free() == old(list.Free()) + multiset(old(p.chunks[..n]))
    {
      hide FreeList.Valid, FreeList.Free, FreeList.NodeBlocks, Carved, Accounted, OneGroup;
      ghost var free, cached := list.Free(), p.chunks[..p.count];
      DrainedAccounted(Carved(unit, carved), free, cached, n, outside);
      OneGroupCached(p, cache, n, outside);
      ghost var rest := p.chunks[n..];
      assert cached[..n] == p.chunks[..n] && cached[n..] == rest[..p.count - n];
      list.PushBlocks(cache, p.chunks, n, grouped, n0);
      assert p.chunks[n..p.count] == p.chunks[n..][..p.count - n];
    }

    static lemma DrainedAccounted(all: seq<nat>, free: multiset<nat>, cached: seq<nat>, n: nat, outside: multiset<nat>)
      requires Accounted(all, free, cached, outside) && n <= |cached|
      ensures Accounted(all, free + multiset(cached[..n]), cached[n..], outside)
      ensures |free + multiset(cached[..n])| == |free| + n
    {
      assert cached == cached[..n] + cached[n..];
    }

    /** In a region that is one group, so are the chunks. */
    lemma OneGroupCached(p: PerClass, cache: Cache, n: nat, outside: multiset<nat>)
      requires Books(p, cache, outside) && n <= p.count
      ensures !grouped ==> OneGroup(p.chunks[..n], list.span)
    {
      hide Group;
      if !grouped {
        var all, whole := Carved(unit, carved), Carved(unit, regionBlocks);
        var cached := p.chunks[..p.count];
        forall i, j | 0 <= i < j < n ensures Group(cached[i], list.span) == Group(cached[j], list.span) {
          var a := FromCarved(all, list.Free(), cached, outside, i);
          var b := FromCarved(all, list.Free(), cached, outside, j);
          assert whole[a] == all[a] && whole[b] == all[b];
          assert a == b || a < b || b < a;
        }
      }
    }

    static lemma FromCarved(all: seq<nat>, free: multiset<nat>, cached: seq<nat>, outside: multiset<nat>, i: nat)
      returns (k: nat)
      requires Accounted(all, free, cached, outside) && i < |cached|
      ensures k < |all| && all[k] == cached[i]
    {
      assert cached[i] in multiset(cached);
      assert cached[i] in multiset(all);
      k :| 0 <= k < |all| && all[k] == cached[i];
    }
  }
}

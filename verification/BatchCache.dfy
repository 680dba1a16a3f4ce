/** A thread's cache of batch-class blocks (local_cache.h allocate, deallocate, refill and
    drain for BatchClassId): the source of every node of every other free list. */
module BatchCache {

  import opened Arithmetic
  import opened BatchClassNodes
  import opened BatchClassRegion

  /** Every block below `carved` is on the list, in the chunks, or elsewhere, once. */
  ghost predicate Conserved(carved: nat, free: multiset<nat>, cached: seq<nat>, elsewhere: multiset<nat>) {
    multiset(Consecutive(0, carved)) == free + multiset(cached) + elsewhere
  }

  lemma ConservedDisjoint(carved: nat, free: multiset<nat>, cached: seq<nat>, elsewhere: multiset<nat>,
                          memory: map<nat, Node>)
    requires Conserved(carved, free, cached, elsewhere) && forall x: nat :: x in memory <==> x < carved
    ensures Fresh(cached, memory, free)
    ensures EachOnce(multiset(cached) + elsewhere)
    ensures forall x | x in elsewhere :: x < carved && x !in free && x !in cached
  {
    ConsecutiveDistinct(0, carved);
    var all := multiset(Consecutive(0, carved));
    forall x: nat
      ensures multiset(cached)[x] <= 1 && (multiset(cached) + elsewhere)[x] <= 1
      ensures x in cached ==> x < carved && x !in free
      ensures x in elsewhere ==> x < carved && x !in free && x !in cached
    {
      assert all[x] <= 1;
      assert x in cached <==> multiset(cached)[x] > 0;
      assert x in all ==> x in Consecutive(0, carved);
    }
  }

  class Cache {
    const region: BatchClass
    const chunks: array<nat>
    const maxCount: nat
    var count: nat
    /** Blocks handed out by this cache, or in other threads' hands. */
    ghost var elsewhere: multiset<nat>

    ghost predicate Shape()
      reads this`count
    {
      && maxCount == 2 * region.maxCachedPerBatch >= 4 && maxCount <= chunks.Length && count <= maxCount
    }

    ghost predicate Valid()
      reads this, region, chunks
    {
      && region.Valid() && Shape()
      && Conserved(region.carved, region.Free(), chunks[..count], elsewhere)
    }

    /** A thread that starts finds all blocks off the list elsewhere. */
    constructor (region: BatchClass, maxNumCachedHint: nat)
      requires region.Valid() && region.maxCachedPerBatch <= maxNumCachedHint
      ensures Valid() && fresh(chunks) && count == 0 && this.region == region
      ensures elsewhere + region.Free() == multiset(Consecutive(0, region.carved))
    {
      this.region := region;
      chunks := new nat[2 * maxNumCachedHint];
      maxCount := 2 * region.maxCachedPerBatch;
      count := 0;
      elsewhere := multiset(Consecutive(0, region.carved)) - region.Free();
      new;
      assert chunks[..0] == [];
      NothingCached(region);
      hide Conserved, BatchClass.Valid, Consecutive, BatchClass.Free;
    }

    static lemma NothingCached(region: BatchClass)
      requires region.Valid()
      ensures
        var elsewhere := multiset(Consecutive(0, region.carved)) - region.Free();
        && Conserved(region.carved, region.Free(), [], elsewhere)
        && elsewhere + region.Free() == multiset(Consecutive(0, region.carved))
    {
      FreeIsCarved(region);
    }

    static lemma FreeIsCarved(region: BatchClass)
      requires region.Valid()
      ensures region.maxCachedPerBatch >= 2 && region.Free() <= multiset(Consecutive(0, region.carved))
    {
      var all := Consecutive(0, region.carved);
      var counts: multiset<nat> := multiset(all);
      forall x: nat | x in region.Free() ensures region.Free()[x] <= counts[x] {
        assert all[x] == x;
        assert x in counts;
      }
    }

    /** Blocks in use elsewhere keep their contents. */
    twostate predicate LeavesElsewhere()
      reads this, region
    {
      forall x | x in elsewhere && x in old(elsewhere) && x in old(region.memory) ::
        x in region.memory && region.memory[x] == old(region.memory)[x]
    }

    /** refill: the region's front batch, after mapping `n` more blocks if it has none. */
    method Refill(n: nat)
      requires Valid() && count == 0 && n > 0
      modifies this`count, region, chunks
      ensures Valid() && count > 0 && LeavesElsewhere()
    {
      hide Conserved, BatchClass.Valid, BatchClass.Free;
      count := Fetch(n);
      Elsewhere();
    }

    method Fetch(n: nat) returns (popped: nat)
      requires Valid() && count == 0 && n > 0
      modifies region, chunks
      ensures region.Valid() && 0 < popped <= region.maxCachedPerBatch
      ensures Conserved(region.carved, region.Free(), chunks[..popped], elsewhere)
      ensures forall x | x in old(region.memory) && x !in region.Free() && x !in chunks[..popped] ::
        x in region.memory && region.memory[x] == old(region.memory)[x]
    {
      hide Conserved, BatchClass.ListValid, BatchClass.Free;
      ghost var free, carved := region.Free(), region.carved;
      assert chunks[..0] == [];
      popped := region.Pop(chunks);
      PopCounts(free, region.Free(), chunks[..popped]);
      if popped == 0 {
        popped := region.Populate(n, chunks);
        ConservedPopulated(carved, n, free, region.Free(), chunks[..popped], elsewhere);
      } else {
        ConservedPopped(carved, free, region.Free(), chunks[..popped], elsewhere);
      }
    }

    static lemma PopCounts(free: multiset<nat>, free': multiset<nat>, popped: seq<nat>)
      requires free' + multiset(popped) == free
      ensures |free'| + |popped| == |free|
      ensures popped == [] ==> free' == free
    {
    }

    static lemma ConservedPopped(carved: nat, free: multiset<nat>, free': multiset<nat>, popped: seq<nat>,
                                 elsewhere: multiset<nat>)
      requires Conserved(carved, free, [], elsewhere) && free' + multiset(popped) == free
      ensures Conserved(carved, free', popped, elsewhere)
    {
    }

    static lemma ConservedPopulated(carved: nat, n: nat, free: multiset<nat>, free': multiset<nat>, popped: seq<nat>,
                                    elsewhere: multiset<nat>)
      requires Conserved(carved, free, [], elsewhere)
      requires free' + multiset(popped) == free + multiset(Consecutive(carved, n))
      ensures Conserved(carved + n, free', popped, elsewhere)
    {
      ConsecutiveSplit(0, carved, n);
      assert multiset(Consecutive(0, carved + n)) ==
        multiset(Consecutive(0, carved)) + multiset(Consecutive(carved, n));
    }

    /** getBatchClassBlock: one block for a node. */
    method Get(n: nat) returns (x: nat)
      requires Valid() && n > 0
      modifies this`count, this`elsewhere, region, chunks
      ensures Valid() && elsewhere == old(elsewhere) + multiset{x} && x !in old(elsewhere)
      ensures LeavesElsewhere()
    {
      hide Conserved, BatchClass.Valid, BatchClass.Free;
      if count == 0 {
        Refill(n);
      }
      label Filled:
      TakeLast(region.carved, region.Free(), chunks[..count], elsewhere);
      count := count - 1;
      x := chunks[count];
      assert old@Filled(chunks[..count])[..count] == chunks[..count];
      elsewhere := elsewhere + multiset{x};
    }

    static lemma TakeLast(carved: nat, free: multiset<nat>, cached: seq<nat>, elsewhere: multiset<nat>)
      requires Conserved(carved, free, cached, elsewhere) && cached != []
      ensures Conserved(carved, free, cached[..|cached| - 1], elsewhere + multiset{cached[|cached| - 1]})
      ensures cached[|cached| - 1] !in elsewhere
    {
      ConsecutiveDistinct(0, carved);
      var x := cached[|cached| - 1];
      assert cached == cached[..|cached| - 1] + [x];
      var all := multiset(Consecutive(0, carved));
      assert all[x] <= 1;
    }

    /** drain: the oldest half goes back to the region and the rest moves down. */
    method Drain()
      requires Valid() && count > 0
      modifies this`count, region, chunks
      ensures Valid() && count == old(count) - Min(maxCount / 2, old(count))
      ensures LeavesElsewhere()
    {
      hide Conserved, BatchClass.Valid, BatchClass.Free;
      var n := Min(maxCount / 2, count);
      PushOldest(n);
      count := count - n;
      ShiftDown(n);
    }

    /** The chunks are not on the list, and neither is what is elsewhere. */
    lemma Apart()
      requires Valid()
      ensures Fresh(chunks[..count], region.memory, region.Free())
      ensures forall x | x in elsewhere :: x < region.carved && x !in region.Free() && x !in chunks[..count]
    {
      hide ListOk;
      ConservedDisjoint(region.carved, region.Free(), chunks[..count], elsewhere, region.memory);
    }

    lemma Elsewhere()
      requires Valid()
      ensures forall x | x in elsewhere :: x < region.carved && x !in region.Free() && x !in chunks[..count]
    {
      Apart();
    }

    method PushOldest(n: nat)
      requires Valid() && 0 < n <= count
      modifies region
      ensures region.Valid() && Shape() && LeavesElsewhere()
      ensures Conserved(region.carved, region.Free(), chunks[n..count], elsewhere)
    {
      hide Conserved, Fresh, FreeBlocks, ListOk;
      ghost var free, cached := region.Free(), chunks[..count];
      Apart();
      FreshPrefix(cached, n, region.memory, free);
      assert cached[..n] == chunks[..n] && cached[n..] == chunks[n..count];
      region.Push(chunks, n);
      ConservedPushed(region.carved, free, cached, n, elsewhere);
      PushCounts(free, chunks[..n]);
      ConservedDisjoint(region.carved, region.Free(), cached[n..], elsewhere, region.memory);
    }

    static lemma PushCounts(free: multiset<nat>, pushed: seq<nat>)
      ensures |free + multiset(pushed)| == |free| + |pushed|
    {
    }

    static lemma FreshPrefix(xs: seq<nat>, n: nat, memory: map<nat, Node>, free: multiset<nat>)
      requires n <= |xs| && Fresh(xs, memory, free)
      ensures Fresh(xs[..n], memory, free)
    {
      assert xs == xs[..n] + xs[n..];
      FreshSplit(xs[..n], xs[n..], memory, free);
    }

    static lemma ConservedPushed(carved: nat, free: multiset<nat>, cached: seq<nat>, n: nat, elsewhere: multiset<nat>)
      requires n <= |cached| && Conserved(carved, free, cached, elsewhere)
      ensures Conserved(carved, free + multiset(cached[..n]), cached[n..], elsewhere)
    {
      assert cached == cached[..n] + cached[n..];
    }

    /** The loop at the end of drain. */
    method ShiftDown(n: nat)
      requires 0 < n && n + count <= chunks.Length
      modifies chunks
      ensures chunks[..count] == old(chunks[n..n + count])
    {
      var i := 0;
      while i < count
        invariant i <= count
        invariant forall j | 0 <= j < i :: chunks[j] == old(chunks[n + j])
        invariant forall j | i + n <= j < count + n :: chunks[j] == old(chunks[j])
      {
        chunks[i] := chunks[i + n];
        i := i + 1;
      }
    }

    /** deallocate to the batch class: a node's block comes back. */
    method Put(x: nat)
      requires Valid() && x in elsewhere
      modifies this`count, this`elsewhere, region, chunks
      ensures Valid() && elsewhere == old(elsewhere) - multiset{x}
      ensures LeavesElsewhere()
    {
      hide Conserved, BatchClass.Valid, BatchClass.Free;
      if count == maxCount {
        Drain();
      }
      PutChunk(x);
    }

    method PutChunk(x: nat)
      requires Valid() && x in elsewhere && count < maxCount
      modifies this`count, this`elsewhere, chunks
      ensures Valid() && elsewhere == old(elsewhere) - multiset{x}
    {
      hide Conserved, BatchClass.Valid, BatchClass.Free;
      PutLast(region.carved, region.Free(), chunks[..count], elsewhere, x);
      chunks[count] := x;
      count := count + 1;
      assert chunks[..count] == old(chunks[..count]) + [x];
      elsewhere := elsewhere - multiset{x};
    }

    static lemma PutLast(carved: nat, free: multiset<nat>, cached: seq<nat>, elsewhere: multiset<nat>, x: nat)
      requires Conserved(carved, free, cached, elsewhere) && x in elsewhere
      ensures Conserved(carved, free, cached + [x], elsewhere - multiset{x})
    {
    }

    /** Blocks pushed to the region past the cache, as mergeGroupsToReleaseBack does with
        the nodes it has emptied. */
    method Recycle(a: array<nat>, n: nat)
      requires Valid() && 0 < n <= a.Length && multiset(a[..n]) <= elsewhere && a != chunks
      modifies this`elsewhere, region
      ensures Valid() && elsewhere == old(elsewhere) - multiset(a[..n])
      ensures LeavesElsewhere()
    {
      hide Conserved, BatchClass.ListValid, BatchClass.Free;
      ghost var free := region.Free();
      RecycledIsFresh(a[..n]);
      region.Push(a, n);
      PushCounts(free, a[..n]);
      ConservedRecycled(region.carved, free, chunks[..count], elsewhere, a[..n]);
      elsewhere := elsewhere - multiset(a[..n]);
      Elsewhere();
    }

    lemma RecycledIsFresh(xs: seq<nat>)
      requires Valid() && multiset(xs) <= elsewhere
      ensures Fresh(xs, region.memory, region.Free())
    {
      hide ListOk;
      ConservedDisjoint(region.carved, region.Free(), chunks[..count], elsewhere, region.memory);
      var owned: multiset<nat> := multiset(chunks[..count]) + elsewhere;
      var counts: multiset<nat> := multiset(xs);
      forall x: nat ensures counts[x] <= 1 {
        assert owned[x] <= 1;
      }
      forall x | x in xs ensures x in region.memory && x !in region.Free() {
        assert x in multiset(xs);
        assert x in elsewhere;
      }
    }

    static lemma ConservedRecycled(carved: nat, free: multiset<nat>, cached: seq<nat>, elsewhere: multiset<nat>,
                                   xs: seq<nat>)
      requires Conserved(carved, free, cached, elsewhere) && multiset(xs) <= elsewhere
      ensures Conserved(carved, free + multiset(xs), cached, elsewhere - multiset(xs))
    {
    }
  }
}

/** The quarantine of freed chunks (quarantine.h): per-thread caches of batches, a global
    cache, merging of partly filled batches, and recycling down to a low-water mark. */
module Quarantine {

  import opened Shuffling

  const MAX_COUNT: nat := 1019
  /** sizeof(QuarantineBatch) on a 64-bit platform: three words and the pointers. */
  const BATCH_BYTES: nat := 8176

  /** A quarantined chunk; the batch stores only its pointer, the bytes go into the sums. */
  datatype Chunk = Chunk(ptr: nat, bytes: nat)

  datatype Batch = Batch(addr: nat, chunks: seq<Chunk>, size: nat)

  function Bytes(chunks: seq<Chunk>): nat {
    if chunks == [] then 0 else Bytes(chunks[..|chunks| - 1]) + chunks[|chunks| - 1].bytes
  }

  lemma {:induction false} BytesConcat(a: seq<Chunk>, b: seq<Chunk>)
    ensures Bytes(a + b) == Bytes(a) + Bytes(b)
  {
    if b == [] {
      assert a + b == a;
    } else {
      var rest := b[..|b| - 1];
      assert (a + b)[..|a + b| - 1] == a + rest;
      BytesConcat(a, rest);
    }
  }

  /** All chunks of a list of batches, oldest first. */
  function Chunks(list: seq<Batch>): seq<Chunk> {
    if list == [] then [] else list[0].chunks + Chunks(list[1..])
  }

  function Sizes(list: seq<Batch>): nat {
    if list == [] then 0 else list[0].size + Sizes(list[1..])
  }

  /** The memory the batches themselves occupy. */
  function Addrs(list: seq<Batch>): multiset<nat> {
    if list == [] then multiset{} else multiset{list[0].addr} + Addrs(list[1..])
  }

  lemma {:induction false} Concat(a: seq<Batch>, b: seq<Batch>)
    ensures Chunks(a + b) == Chunks(a) + Chunks(b)
    ensures Sizes(a + b) == Sizes(a) + Sizes(b)
    ensures Addrs(a + b) == Addrs(a) + Addrs(b)
  {
    if a == [] {
      assert a + b == b;
    } else {
      assert (a + b)[1..] == a[1..] + b;
      Concat(a[1..], b);
      assert a[0].chunks + (Chunks(a[1..]) + Chunks(b)) == Chunks(a) + Chunks(b);
      assert multiset{a[0].addr} + (Addrs(a[1..]) + Addrs(b)) == Addrs(a) + Addrs(b);
    }
  }

  lemma One(b: Batch)
    ensures Chunks([b]) == b.chunks && Sizes([b]) == b.size && Addrs([b]) == multiset{b.addr}
  {
    assert [b][1..] == [];
    assert b.chunks + [] == b.chunks;
  }

  lemma Back(list: seq<Batch>)
    requires list != []
    ensures
      var rest, last := list[..|list| - 1], list[|list| - 1];
      && Chunks(list) == Chunks(rest) + last.chunks && Sizes(list) == Sizes(rest) + last.size
      && Addrs(list) == Addrs(rest) + multiset{last.addr}
  {
    var rest, last := list[..|list| - 1], list[|list| - 1];
    assert list == rest + [last];
    Concat(rest, [last]);
    One(last);
  }

  ghost predicate BatchOk(b: Batch) {
    |b.chunks| <= MAX_COUNT && b.size == BATCH_BYTES + Bytes(b.chunks)
  }

  ghost predicate BatchesOk(list: seq<Batch>) {
    forall i | 0 <= i < |list| :: BatchOk(list[i])
  }

  predicate CanMerge(a: Batch, b: Batch) {
    |a.chunks| + |b.chunks| <= MAX_COUNT
  }

  /** No two neighbours could be merged any more. */
  predicate NoMergeable(list: seq<Batch>, to: int) {
    forall i | 0 <= i < to && i + 1 < |list| :: |list[i].chunks| + |list[i + 1].chunks| > MAX_COUNT
  }

  /** QuarantineBatch::merge, on both batches. */
  function Merge(a: Batch, from: Batch): (r: (Batch, Batch))
    requires from.size >= BATCH_BYTES
  {
    (a.(chunks := a.chunks + from.chunks, size := a.size + (from.size - BATCH_BYTES)),
     from.(chunks := [], size := BATCH_BYTES))
  }

  class QuarantineCache {
    var list: seq<Batch>
    var size: nat

    /** Size is exact, always. */
    ghost predicate Valid()
      reads this
    {
      BatchesOk(list) && size == Sizes(list)
    }

    constructor ()
      ensures Valid() && list == []
    {
      list, size := [], 0;
    }

    method Enqueue(chunk: Chunk, addr: nat) returns (newBatch: bool)
      requires Valid()
      modifies this
      ensures Valid() && Chunks(list) == old(Chunks(list)) + [chunk]
      ensures Addrs(list) == old(Addrs(list)) + if newBatch then multiset{addr} else multiset{}
      ensures list != [] && newBatch == (old(list) == [] || |old(list)[|old(list)| - 1].chunks| == MAX_COUNT)
      ensures size == old(size) + chunk.bytes + if newBatch then BATCH_BYTES else 0
      ensures |list| == |old(list)| + if newBatch then 1 else 0
    {
      hide Chunks, Sizes, Addrs;
      if list == [] || |list[|list| - 1].chunks| == MAX_COUNT {
        newBatch := true;
        var b := Batch(addr, [chunk], chunk.bytes + BATCH_BYTES);
        assert Bytes([chunk][..0]) == 0;
        One(b);
        EnqueueBatch(b);
      } else {
        newBatch := false;
        PushBack(chunk);
      }
    }

    method PushBack(chunk: Chunk)
      requires Valid() && list != [] && |list[|list| - 1].chunks| < MAX_COUNT
      modifies this
      ensures Valid() && Chunks(list) == old(Chunks(list)) + [chunk] && Addrs(list) == old(Addrs(list))
      ensures |list| == |old(list)| && size == old(size) + chunk.bytes
    {
      hide Chunks, Sizes, Addrs;
      var last := list[|list| - 1];
      Back(list);
      BytesConcat(last.chunks, [chunk]);
      assert Bytes([chunk][..0]) == 0;
      list := list[|list| - 1 := last.(chunks := last.chunks + [chunk], size := last.size + chunk.bytes)];
      Back(list);
      assert list[..|list| - 1] == old(list)[..|list| - 1];
      size := size + chunk.bytes;
    }

    method EnqueueBatch(b: Batch)
      requires Valid() && BatchOk(b)
      modifies this
      ensures Valid() && list == old(list) + [b] && size == old(size) + b.size
      ensures Chunks(list) == old(Chunks(list)) + b.chunks && Addrs(list) == old(Addrs(list)) + multiset{b.addr}
    {
      Concat(list, [b]);
      One(b);
      list := list + [b];
      size := size + b.size;
    }

    method DequeueBatch() returns (b: Batch)
      requires Valid() && list != []
      modifies this
      ensures Valid() && b == old(list)[0] && list == old(list)[1..] && BatchOk(b)
      ensures old(Chunks(list)) == b.chunks + Chunks(list) && old(Addrs(list)) == multiset{b.addr} + Addrs(list)
      ensures old(size) == size + BATCH_BYTES + Bytes(b.chunks)
    {
      b := list[0];
      list := list[1..];
      size := size - b.size;
    }

    method Transfer(from: QuarantineCache)
      requires Valid() && from.Valid() && from != this
      modifies this, from
      ensures Valid() && from.Valid() && from.list == [] && list == old(list) + old(from.list)
      ensures Chunks(list) == old(Chunks(list)) + old(Chunks(from.list))
      ensures Addrs(list) == old(Addrs(list)) + old(Addrs(from.list))
      ensures size == old(size) + old(from.size)
    {
      Concat(list, from.list);
      list := list + from.list;
      from.list := [];
      size := size + from.size;
      from.size := 0;
    }

    /** mergeBatches: each batch takes in its successors while they fit; the emptied batches
        go to `toDeallocate`. */
    method MergeBatches(toDeallocate: QuarantineCache)
      requires Valid() && toDeallocate.Valid() && toDeallocate != this
      modifies this, toDeallocate
      ensures Valid() && toDeallocate.Valid()
      ensures Chunks(list) == old(Chunks(list))
      ensures Chunks(toDeallocate.list) == old(Chunks(toDeallocate.list))
      ensures size + toDeallocate.size == old(size) + old(toDeallocate.size)
      ensures Addrs(list) + Addrs(toDeallocate.list) == old(Addrs(list)) + old(Addrs(toDeallocate.list))
      ensures NoMergeable(list, |list|)
      ensures forall i | 0 <= i < |list| - 1 :: |list[i].chunks| + |list[i + 1].chunks| > MAX_COUNT
    {
      hide Chunks, Addrs, Bytes;
      var extractedSize, k := 0, 0;
      while k + 1 < |list|
        invariant 0 <= k && (k < |list| || list == [])
        invariant BatchesOk(list) && toDeallocate.Valid() && NoMergeable(list, k) && extractedSize <= size
        invariant size == old(size) == Sizes(list) + extractedSize
        invariant toDeallocate.size == old(toDeallocate.size) + extractedSize
        invariant Chunks(list) == old(Chunks(list)) && Chunks(toDeallocate.list) == old(Chunks(toDeallocate.list))
        invariant Addrs(list) + Addrs(toDeallocate.list) == old(Addrs(list)) + old(Addrs(toDeallocate.list))
        decreases |list| - k
      {
        if CanMerge(list[k], list[k + 1]) {
          MergeKeeps(list, k);
          var (merged, extracted) := Merge(list[k], list[k + 1]);
          list := list[..k] + [merged] + list[k + 2..];
          extractedSize := extractedSize + extracted.size;
          toDeallocate.EnqueueBatch(extracted);
        } else {
          k := k + 1;
        }
      }
      size := size - extractedSize;
    }
  }

  /** Merging the batches at `k` and `k + 1` loses no chunk and no byte. */
  lemma MergeKeeps(list: seq<Batch>, k: nat)
    requires k + 1 < |list| && BatchesOk(list) && CanMerge(list[k], list[k + 1])
    ensures
      var (merged, extracted) := Merge(list[k], list[k + 1]);
      var after := list[..k] + [merged] + list[k + 2..];
      && BatchesOk(after) && BatchOk(extracted) && extracted.chunks == []
      && Chunks(after) == Chunks(list) && Sizes(after) + extracted.size == Sizes(list)
      && Addrs(after) + multiset{extracted.addr} == Addrs(list)
      && (NoMergeable(list, k) ==> NoMergeable(after, k))
  {
    var a, b := list[k], list[k + 1];
    assert BatchOk(a) && BatchOk(b);
    var (merged, extracted) := Merge(a, b);
    BytesConcat(a.chunks, b.chunks);
    assert Bytes([]) == 0;
    MergeCounts(list[..k], a, b, merged, list[k + 2..]);
    assert list == list[..k] + [a, b] + list[k + 2..];
    MergeShape(list, k, merged, list[..k] + [merged] + list[k + 2..]);
  }

  lemma MergeCounts(l: seq<Batch>, a: Batch, b: Batch, merged: Batch, r: seq<Batch>)
    requires merged.chunks == a.chunks + b.chunks && merged.size + BATCH_BYTES == a.size + b.size
    requires merged.addr == a.addr
    ensures Chunks(l + [merged] + r) == Chunks(l + [a, b] + r)
    ensures Sizes(l + [merged] + r) + BATCH_BYTES == Sizes(l + [a, b] + r)
    ensures Addrs(l + [merged] + r) + multiset{b.addr} == Addrs(l + [a, b] + r)
  {
    hide Chunks, Sizes, Addrs;
    assert [a, b] == [a] + [b];
    Concat([a], [b]);
    One(a);
    One(b);
    One(merged);
    Concat(l + [a, b], r);
    Concat(l, [a, b]);
    Concat(l + [merged], r);
    Concat(l, [merged]);
    assert Chunks(l) + (a.chunks + b.chunks) == Chunks(l) + merged.chunks;
  }

  lemma MergeShape(list: seq<Batch>, k: nat, merged: Batch, after: seq<Batch>)
    requires k + 1 < |list| && BatchesOk(list) && BatchOk(merged) && |merged.chunks| >= |list[k].chunks|
    requires after == list[..k] + [merged] + list[k + 2..]
    ensures BatchesOk(after) && (NoMergeable(list, k) ==> NoMergeable(after, k))
  {
    hide BatchOk;
    assert forall i | 0 <= i < k :: after[i] == list[i];
    assert forall i | k < i < |after| :: after[i] == list[i + 1];
    assert after[k] == merged;
  }

  lemma PartMoves<T>(moved: multiset<T>, stays: multiset<T>, all: multiset<T>, out0: multiset<T>, out1: multiset<T>)
    requires moved + stays == all && out1 == out0 + moved
    ensures stays + out1 == all + out0
  {
    forall x ensures (stays + out1)[x] == (all + out0)[x] {
      assert (moved + stays)[x] == all[x] && out1[x] == (out0 + moved)[x];
    }
  }

  /** A cache emptied into the global one, some of which then went out. */
  lemma TransferKept<T>(c0: multiset<T>, g0: multiset<T>, out0: multiset<T>,
                        g1: multiset<T>, g2: multiset<T>, out2: multiset<T>)
    requires g1 == g0 + c0 && g2 + out2 == g1 + out0
    ensures multiset{} + g2 + out2 == c0 + g0 + out0 + multiset{}
  {
    forall x ensures (multiset{} + g2 + out2)[x] == (c0 + g0 + out0 + multiset{})[x] {
      assert g1[x] == (g0 + c0)[x] && (g2 + out2)[x] == (g1 + out0)[x];
    }
  }

  lemma AddNone<T>(x: multiset<T>)
    ensures x + multiset{} == x && multiset{} + x == x
  {
  }

  /** The callbacks: what has been recycled to the allocator and deallocated. */
  class Sink {
    ghost var recycled: multiset<Chunk>
    ghost var freedBatches: multiset<nat>

    constructor ()
      ensures recycled == multiset{} && freedBatches == multiset{}
    {
      recycled, freedBatches := multiset{}, multiset{};
    }

    ghost method Recycle(c: Chunk)
      modifies this
      ensures recycled == old(recycled) + multiset{c} && freedBatches == old(freedBatches)
    {
      recycled := recycled + multiset{c};
    }

    ghost method Deallocate(addr: nat)
      modifies this
      ensures recycled == old(recycled) && freedBatches == old(freedBatches) + multiset{addr}
    {
      freedBatches := freedBatches + multiset{addr};
    }
  }

  class GlobalQuarantine {
    const cache: QuarantineCache
    const sink: Sink
    const minSize: nat
    const maxSize: nat
    const maxCacheSize: nat

    ghost predicate Valid()
      reads this, cache
    {
      cache.Valid() && minSize <= maxSize
    }

    constructor (size: nat, cacheSize: nat)
      requires (size == 0 && cacheSize == 0) || cacheSize != 0
      ensures Valid() && fresh(cache) && fresh(sink) && cache.list == []
      ensures minSize == size / 10 * 9 && maxSize == size && maxCacheSize == cacheSize
    {
      cache := new QuarantineCache();
      sink := new Sink();
      minSize, maxSize, maxCacheSize := size / 10 * 9, size, cacheSize;
    }

    /** Nothing quarantined is lost, and nothing recycled twice: the chunks held by the
        thread's cache, held globally and recycled only change by `added`. */
    twostate predicate ChunksKept(c: QuarantineCache, added: multiset<Chunk>)
      reads cache, c, sink
    {
      multiset(Chunks(c.list)) + multiset(Chunks(cache.list)) + sink.recycled
        == old(multiset(Chunks(c.list)) + multiset(Chunks(cache.list)) + sink.recycled) + added
    }

    /** The same for the memory of the batches. */
    twostate predicate BatchesKept(c: QuarantineCache, added: multiset<nat>)
      reads cache, c, sink
    {
      Addrs(c.list) + Addrs(cache.list) + sink.freedBatches
        == old(Addrs(c.list) + Addrs(cache.list) + sink.freedBatches) + added
    }

    /** put: the chunk goes to the thread's cache.  Only if that grows beyond its limit is it
        drained, and only if the global cache then exceeds its own is anything recycled. */
    method Put(c: QuarantineCache, chunk: Chunk, addr: nat, locked: bool, draws: seq<nat>)
      returns (newBatch: bool, ghost batches: seq<Batch>, ghost k: nat)
      requires Valid() && c.Valid() && c != cache && |draws| >= MAX_COUNT
      modifies c, cache, sink
      ensures Valid() && c.Valid()
      ensures ChunksKept(c, multiset{chunk}) && BatchesKept(c, if newBatch then multiset{addr} else multiset{})
      ensures c.size <= maxCacheSize || c.list == []
      ensures newBatch == (old(c.list) == [] || |old(c.list)[|old(c.list)| - 1].chunks| == MAX_COUNT)
      ensures
        var added := chunk.bytes + if newBatch then BATCH_BYTES else 0;
        var count := |old(c.list)| + if newBatch then 1 else 0;
        if old(c.size) + added <= maxCacheSize then
          && Chunks(c.list) == old(Chunks(c.list)) + [chunk] && c.size == old(c.size) + added
          && cache.list == old(cache.list) && cache.size == old(cache.size) && Recycled(multiset{}, old(sink.recycled))
        else
          && c.list == []
          && Drained(old(Chunks(cache.list)) + (old(Chunks(c.list)) + [chunk]), old(cache.size) + (old(c.size) + added),
                     |old(cache.list)| + count, locked, old(sink.recycled), batches, k)
    {
      hide Chunks, Addrs, Sizes, GlobalQuarantine.Drained;
      newBatch := c.Enqueue(chunk, addr);
      batches, k := [], 0;
      if c.size > maxCacheSize {
        batches, k := Drain(c, locked, draws);
      }
    }

    /** The chunks that have been recycled besides `before`. */
    ghost predicate Recycled(chunks: multiset<Chunk>, before: multiset<Chunk>)
      reads sink
    {
      sink.recycled == before + chunks
    }

    /** What becomes of `chunks`, `size` bytes with their `count` batches, in the global cache:
        all stay, in order; or, if they exceed the limit and no other thread is recycling,
        the `k` oldest of `batches` are recycled, no more than bring the size within the
        lower limit, after a merge if the batches outweigh half of it. */
    ghost predicate Drained(chunks: seq<Chunk>, size: nat, count: nat, locked: bool, before: multiset<Chunk>,
                            batches: seq<Batch>, k: nat)
      reads this, cache, sink
    {
      if size <= maxSize || !locked then
        && Chunks(cache.list) == chunks && cache.size == size && |cache.list| == count
        && Recycled(multiset{}, before)
      else
        && BatchesOk(batches) && Chunks(batches) == chunks
        && (if count * BATCH_BYTES < size < 2 * (count * BATCH_BYTES) then NoMergeable(batches, |batches|)
            else |batches| == count && Sizes(batches) == size)
        && k <= |batches| && cache.list == batches[k..] && cache.size <= minSize
        && (k > 0 ==> Sizes(batches[k - 1..]) > minSize)
        && Recycled(multiset(Chunks(batches[..k])), before)
    }

    /** drain; `locked` says whether the try for the recycle lock succeeds. */
    method Drain(c: QuarantineCache, locked: bool, draws: seq<nat>) returns (ghost batches: seq<Batch>, ghost k: nat)
      requires Valid() && c.Valid() && c != cache && |draws| >= MAX_COUNT
      modifies c, cache, sink
      ensures Valid() && c.Valid() && c.list == []
      ensures ChunksKept(c, multiset{}) && BatchesKept(c, multiset{})
      ensures
        if locked && old(cache.size) + old(c.size) > maxSize then cache.size <= minSize
        else (
          && cache.size == old(cache.size) + old(c.size) && sink.recycled == old(sink.recycled)
          && Chunks(cache.list) == old(Chunks(cache.list)) + old(Chunks(c.list)))
      ensures Drained(old(Chunks(cache.list)) + old(Chunks(c.list)), old(cache.size) + old(c.size),
                      |old(cache.list)| + |old(c.list)|, locked, old(sink.recycled), batches, k)
    {
      hide Chunks, Addrs, Sizes, NoMergeable, BatchesOk;
      cache.Transfer(c);
      NoChunks();
      batches, k := [], 0;
      ghost var g1, a1 := multiset(Chunks(cache.list)), Addrs(cache.list);
      if cache.size > maxSize && locked {
        batches, k := Recycle(minSize, draws);
      }
      TransferKept(multiset(old(Chunks(c.list))), multiset(old(Chunks(cache.list))), old(sink.recycled),
                   g1, multiset(Chunks(cache.list)), sink.recycled);
      TransferKept(old(Addrs(c.list)), old(Addrs(cache.list)), old(sink.freedBatches),
                   a1, Addrs(cache.list), sink.freedBatches);
    }

    static lemma NoChunks()
      ensures Chunks([]) == [] && Addrs([]) == multiset{} && Sizes([]) == 0
    {
    }

    /** drainAndRecycle empties the quarantine. */
    method DrainAndRecycle(c: QuarantineCache, draws: seq<nat>)
      requires Valid() && c.Valid() && c != cache && |draws| >= MAX_COUNT
      modifies c, cache, sink
      ensures Valid() && c.Valid() && c.list == [] && cache.list == []
      ensures ChunksKept(c, multiset{}) && BatchesKept(c, multiset{})
    {
      hide Chunks, Addrs, Sizes;
      cache.Transfer(c);
      NoChunks();
      ghost var g1, a1 := multiset(Chunks(cache.list)), Addrs(cache.list);
      ghost var batches, k := Recycle(0, draws);
      TransferKept(multiset(old(Chunks(c.list))), multiset(old(Chunks(cache.list))), old(sink.recycled),
                   g1, multiset(Chunks(cache.list)), sink.recycled);
      TransferKept(old(Addrs(c.list)), old(Addrs(cache.list)), old(sink.freedBatches),
                   a1, Addrs(cache.list), sink.freedBatches);
      EmptyWhenNoSize(cache.list);
    }

    static lemma EmptyWhenNoSize(list: seq<Batch>)
      requires BatchesOk(list) && Sizes(list) == 0
      ensures list == []
    {
      if list != [] {
        var first := BatchOk(list[0]);
        assert false;
      }
    }

    /** Do the batches take up more than the chunks in them? */
    static predicate ShouldMerge(size: nat, batches: nat) {
      size > batches * BATCH_BYTES && batches * BATCH_BYTES * (100 + 100) > size * 100
    }

    /** recycle: merges if that is worth it, which leaves `batches`, then takes the oldest of
        those out until the size is within `limit`, and recycles their chunks: the `k` oldest,
        and no fewer would have done. */
    method Recycle(limit: nat, draws: seq<nat>) returns (ghost batches: seq<Batch>, ghost k: nat)
      requires Valid() && |draws| >= MAX_COUNT
      modifies cache, sink
      ensures Valid() && cache.size <= limit
      ensures BatchesOk(batches) && Chunks(batches) == old(Chunks(cache.list))
      ensures
        var overhead := |old(cache.list)| * BATCH_BYTES;
        if overhead < old(cache.size) < 2 * overhead then NoMergeable(batches, |batches|)
        else batches == old(cache.list)
      ensures k <= |batches| && cache.list == batches[k..] && (k > 0 ==> Sizes(batches[k - 1..]) > limit)
      ensures Chunks(batches[..k]) + Chunks(cache.list) == old(Chunks(cache.list))
      ensures sink.recycled == old(sink.recycled) + multiset(Chunks(batches[..k]))
      ensures multiset(Chunks(cache.list)) + sink.recycled == old(multiset(Chunks(cache.list)) + sink.recycled)
      ensures Addrs(cache.list) + sink.freedBatches == old(Addrs(cache.list) + sink.freedBatches)
    {
      hide Chunks, Addrs, Sizes, NoMergeable;
      var tmp := new QuarantineCache();
      NoChunks();
      if ShouldMerge(cache.size, |cache.list|) {
        cache.MergeBatches(tmp);
      }
      batches := cache.list;
      assert Chunks(tmp.list) == [];
      AddNone(old(Addrs(cache.list)));
      AddNone(Addrs(cache.list));
      k := Extract(tmp, limit);
      ghost var moved, addrs, outAddrs := Chunks(tmp.list), Addrs(tmp.list), sink.freedBatches;
      ghost var out := sink.recycled;
      DoRecycle(tmp, draws);
      assert multiset(moved + Chunks(cache.list)) == multiset(moved) + multiset(Chunks(cache.list));
      PartMoves(multiset(moved), multiset(Chunks(cache.list)), multiset(old(Chunks(cache.list))), out, sink.recycled);
      PartMoves(addrs, Addrs(cache.list), old(Addrs(cache.list)), outAddrs, sink.freedBatches);
    }

    /** Moves the `k` oldest batches to `tmp`, the fewest that bring the size within `limit`. */
    method Extract(tmp: QuarantineCache, limit: nat) returns (ghost k: nat)
      requires cache.Valid() && tmp.Valid() && tmp != cache && Chunks(tmp.list) == []
      modifies cache, tmp
      ensures cache.Valid() && tmp.Valid() && cache.size <= limit
      ensures k <= |old(cache.list)| && cache.list == old(cache.list)[k..]
      ensures k > 0 ==> Sizes(old(cache.list)[k - 1..]) > limit
      ensures tmp.list == old(tmp.list) + old(cache.list)[..k] && Chunks(tmp.list) == Chunks(old(cache.list)[..k])
      ensures Chunks(tmp.list) + Chunks(cache.list) == old(Chunks(cache.list))
      ensures Addrs(tmp.list) + Addrs(cache.list) == old(Addrs(tmp.list)) + old(Addrs(cache.list))
    {
      hide Chunks, Addrs, Sizes, BatchesOk;
      k := 0;
      NoChunks();
      assert Chunks(tmp.list) + Chunks(cache.list) == Chunks(cache.list);
      while cache.size > limit
        invariant cache.Valid() && tmp.Valid() && k <= |old(cache.list)| && cache.list == old(cache.list)[k..]
        invariant k > 0 ==> Sizes(old(cache.list)[k - 1..]) > limit
        invariant tmp.list == old(tmp.list) + old(cache.list)[..k]
        invariant Chunks(tmp.list) + Chunks(cache.list) == old(Chunks(cache.list))
        invariant Addrs(tmp.list) + Addrs(cache.list) == old(Addrs(tmp.list)) + old(Addrs(cache.list))
        decreases cache.size
      {
        assert cache.list != [];
        ghost var before := Chunks(tmp.list);
        var b := cache.DequeueBatch();
        tmp.EnqueueBatch(b);
        assert before + (b.chunks + Chunks(cache.list)) == (before + b.chunks) + Chunks(cache.list);
        k := k + 1;
      }
      Concat(old(tmp.list), old(cache.list)[..k]);
    }

    /** doRecycle: each batch is shuffled, its chunks recycled and its memory freed. */
    method DoRecycle(c: QuarantineCache, draws: seq<nat>)
      requires c.Valid() && c != cache && |draws| >= MAX_COUNT
      modifies c, sink
      ensures c.Valid() && c.list == []
      ensures sink.recycled == old(sink.recycled) + multiset(old(Chunks(c.list)))
      ensures sink.freedBatches == old(sink.freedBatches) + old(Addrs(c.list))
    {
      hide Chunks, Addrs, Sizes;
      NoChunks();
      while c.list != []
        invariant c.Valid()
        invariant sink.recycled + multiset(Chunks(c.list)) == old(sink.recycled) + multiset(old(Chunks(c.list)))
        invariant sink.freedBatches + Addrs(c.list) == old(sink.freedBatches) + old(Addrs(c.list))
        decreases |c.list|
      {
        ghost var all := Chunks(c.list);
        var b := c.DequeueBatch();
        assert multiset(all) == multiset(b.chunks) + multiset(Chunks(c.list));
        RecycleBatch(b, draws);
      }
    }

    method RecycleBatch(b: Batch, draws: seq<nat>)
      requires |b.chunks| <= |draws|
      modifies sink
      ensures sink.recycled == old(sink.recycled) + multiset(b.chunks)
      ensures sink.freedBatches == old(sink.freedBatches) + multiset{b.addr}
    {
      hide Shuffled;
      var chunks := ShuffleChunks(b.chunks, draws);
      ShuffledIsPermutation(b.chunks, draws);
      RecycleAll(chunks);
      sink.Deallocate(b.addr);
    }

    method RecycleAll(chunks: seq<Chunk>)
      modifies sink
      ensures sink.recycled == old(sink.recycled) + multiset(chunks)
      ensures sink.freedBatches == old(sink.freedBatches)
    {
      var i := 0;
      while i < |chunks|
        invariant 0 <= i <= |chunks|
        invariant sink.recycled == old(sink.recycled) + multiset(chunks[..i])
        invariant sink.freedBatches == old(sink.freedBatches)
      {
        assert chunks[..i + 1] == chunks[..i] + [chunks[i]];
        sink.Recycle(chunks[i]);
        i := i + 1;
      }
      assert chunks[..i] == chunks;
    }

    static method ShuffleChunks(xs: seq<Chunk>, draws: seq<nat>) returns (ys: seq<Chunk>)
      requires |xs| <= |draws|
      ensures ys == Shuffled(xs, draws)
    {
      hide Shuffled;
      ys := xs;
      if |xs| <= 1 {
        Short(xs, draws);
        return;
      }
      var i := |xs| - 1;
      assert xs[..i + 1] == xs;
      while i > 0
        invariant 0 <= i < |ys| == |xs|
        invariant Shuffled(ys[..i + 1], draws) + ys[i + 1..] == Shuffled(xs, draws)
      {
        var j := draws[i] % (i + 1);
        ghost var before := ys;
        ys := ys[i := ys[j]][j := ys[i]];
        ShuffleRound(before, ys, i, draws);
        i := i - 1;
      }
      OneLeft(ys, draws);
    }
  }
}

/** The primary allocator as a whole: any number of size classes over one batch class, and
    any number of threads, each with its chunks of every class and its cache of list nodes
    (primary64.h SizeClassAllocator64, local_cache.h SizeClassAllocatorLocalCache). */
module PrimaryAllocator {

  import opened Arithmetic
  import opened BatchCache
  import opened BatchClassNodes
  import opened BatchClassRegion
  import opened ConservedBlocks
  import opened FreeListTypes
  import opened GroupChoice
  import opened GroupLists
  import opened RegionFreeList

  function Sum(parts: seq<multiset<nat>>): multiset<nat> {
    if parts == [] then multiset{} else Sum(parts[..|parts| - 1]) + parts[|parts| - 1]
  }

  lemma {:induction false} SumUpdate(parts: seq<multiset<nat>>, i: nat, part: multiset<nat>)
    requires i < |parts|
    ensures Sum(parts[i := part]) + parts[i] == Sum(parts) + part
    ensures parts[i] <= Sum(parts)
  {
    var k := |parts| - 1;
    var after := parts[i := part];
    assert Sum(after) == Sum(after[..k]) + after[k] && Sum(parts) == Sum(parts[..k]) + parts[k];
    if i == k {
      assert after[..k] == parts[..k];
    } else {
      SumUpdate(parts[..k], i, part);
      assert after[..k] == parts[..k][i := part];
      AddToBoth(Sum(after[..k]), parts[i], Sum(parts[..k]), part, parts[k]);
    }
  }

  lemma AddToBoth(a: multiset<nat>, b: multiset<nat>, c: multiset<nat>, d: multiset<nat>, more: multiset<nat>)
    requires a + b == c + d
    ensures (a + more) + b == (c + more) + d
  {
    forall x ensures ((a + more) + b)[x] == ((c + more) + d)[x] {
      assert (a + b)[x] == (c + d)[x];
    }
  }

  function None(n: nat): (parts: seq<multiset<nat>>)
    ensures |parts| == n && forall i | 0 <= i < n :: parts[i] == multiset{}
  {
    seq(n, _ => multiset{})
  }

  lemma {:induction false} SumOfNone(n: nat)
    ensures Sum(None(n)) == multiset{}
  {
    if n == 0 {
    } else {
      SumOfNone(n - 1);
      assert None(n)[..n - 1] == None(n - 1);
    }
  }

  lemma PartIsMine(sum: multiset<nat>, mine: multiset<nat>, live: multiset<nat>, free: multiset<nat>)
    requires mine <= sum
    ensures free + sum + live == free + mine + (sum - mine + live)
  {
  }

  lemma NodesAreElsewhere(e: multiset<nat>, h: multiset<nat>, n: multiset<nat>, hs: multiset<nat>, ns: multiset<nat>)
    requires e + h == hs + ns && h <= hs && n <= ns
    ensures n <= e
  {
    forall x ensures n[x] <= e[x] {
      assert (e + h)[x] == (hs + ns)[x];
    }
  }

  ghost predicate Holds(k: Cache, held: multiset<nat>)
    reads k`count, k.chunks
  {
    k.Shape() && held == multiset(k.chunks[..k.count])
  }

  ghost predicate HoldsChunks(p: PerClass, cached: multiset<nat>)
    reads p, p.chunks
  {
    p.Valid() && cached == multiset(p.chunks[..p.count])
  }

  /** Where a class's blocks are that are not on its list: in each thread's chunks, and in
      users' hands. */
  datatype Ledger = Ledger(cached: seq<multiset<nat>>, live: multiset<nat>) {
    /** As thread `t` sees it. */
    ghost function Outside(t: nat): multiset<nat>
      requires t < |cached|
    {
      Sum(cached) - cached[t] + live
    }
  }

  /** Every carved block of a class is on its list, in some thread's chunks, or live; and
      `nodes` are the batch-class blocks its list is made of. */
  ghost predicate ClassBooks(k: SizeClass, row: seq<PerClass>, nodes: multiset<nat>, books: Ledger)
    reads k, k.list, row, (set p | p in row :: p.chunks)
  {
    && |row| == |books.cached|
    && (forall t | 0 <= t < |row| :: HoldsChunks(row[t], books.cached[t]))
    && ListBooks(k, nodes, Sum(books.cached), books.live)
  }

  ghost predicate ListBooks(k: SizeClass, nodes: multiset<nat>, cached: multiset<nat>, live: multiset<nat>)
    reads k, k.list
  {
    && k.Shape() && k.Counted() && k.list.ListsOk() && nodes == k.list.NodeBlocks()
    && multiset(Carved(k.unit, k.carved)) == k.list.Free() + cached + live
  }

  ghost predicate ClassStarts(k: SizeClass, row: seq<PerClass>)
    reads k, k.list, row
  {
    && k.Shape() && k.Counted() && k.carved == 0
    && k.list.ListsOk() && k.list.groups == k.list.released == []
    && forall t | 0 <= t < |row| :: row[t].Valid() && row[t].count == 0
  }

  /** The counts verifyAllBlocksAreReleasedTestOnly makes: the blocks on a list, ... */
  function TotalBlocks(groups: seq<BatchGroup>): nat {
    if groups == [] then 0 else |Blocks(groups[0].batches)| + TotalBlocks(groups[1..])
  }

  /** ... the batch-class blocks it is made of, ... */
  function NodesUsed(groups: seq<BatchGroup>): nat {
    if groups == [] then 0 else |groups[0].batches| + 1 + NodesUsed(groups[1..])
  }

  /** ... and the blocks on the batch class's own list. */
  function BatchTotal(front: Pointer, batches: seq<TransferBatch>): nat {
    if front == Null then 0 else if batches == [] then 1 else |Blocks(batches)|
  }

  lemma {:induction false} CountsAreSizes(groups: seq<BatchGroup>)
    ensures |AllBlocks(groups)| == TotalBlocks(groups) && |Nodes(groups)| == NodesUsed(groups)
  {
    if groups == [] {
    } else {
      CountsAreSizes(groups[1..]);
      var b: multiset<nat> := multiset(Blocks(groups[0].batches));
      assert |b + AllBlocks(groups[1..])| == |b| + |AllBlocks(groups[1..])|;
      BatchNodesCount(groups[0].batches);
      assert |GroupNodes(groups[0]) + Nodes(groups[1..])| == |GroupNodes(groups[0])| + |Nodes(groups[1..])|;
      assert |multiset{groups[0].addr} + BatchNodes(groups[0].batches)| == 1 + |BatchNodes(groups[0].batches)|;
    }
  }

  lemma {:induction false} BatchNodesCount(batches: seq<TransferBatch>)
    ensures |BatchNodes(batches)| == |batches|
  {
    if batches == [] {
    } else {
      BatchNodesCount(batches[1..]);
      assert |multiset{batches[0].addr} + BatchNodes(batches[1..])| == 1 + |BatchNodes(batches[1..])|;
    }
  }

  lemma {:induction false} RecordedCount(batches: seq<TransferBatch>)
    ensures Recorded(batches) == multiset(Blocks(batches))
  {
    if batches == [] {
    } else {
      RecordedCount(batches[1..]);
      assert Blocks(batches) == batches[0].blocks + Blocks(batches[1..]);
    }
  }

  function SumOfNodesUsed(lists: seq<seq<BatchGroup>>): nat {
    if lists == [] then 0 else SumOfNodesUsed(lists[..|lists| - 1]) + NodesUsed(lists[|lists| - 1])
  }

  lemma {:induction false} SumCounts(parts: seq<multiset<nat>>, lists: seq<seq<BatchGroup>>)
    requires |parts| == |lists| && forall i | 0 <= i < |parts| :: parts[i] == Nodes(lists[i])
    ensures |Sum(parts)| == SumOfNodesUsed(lists)
  {
    if parts == [] {
    } else {
      var k := |parts| - 1;
      SumCounts(parts[..k], lists[..k]);
      CountsAreSizes(lists[k]);
      assert |Sum(parts[..k]) + parts[k]| == |Sum(parts[..k])| + |parts[k]|;
    }
  }

  lemma {:induction false} SumOfEmpty(parts: seq<multiset<nat>>)
    requires forall i | 0 <= i < |parts| :: parts[i] == multiset{}
    ensures Sum(parts) == multiset{}
  {
    if parts == [] {
    } else {
      SumOfEmpty(parts[..|parts| - 1]);
    }
  }

  class Allocator {
    const batch: BatchClass
    const classes: seq<SizeClass>
    /** By thread. */
    const caches: seq<Cache>
    /** By class and thread. */
    const chunks: seq<seq<PerClass>>
    /** The batch-class blocks in each thread's cache, and those each class's list is made of. */
    ghost var held: seq<multiset<nat>>
    ghost var nodes: seq<multiset<nat>>
    ghost var books: seq<Ledger>

    /** The parts are distinct and belong together. */
    static ghost predicate Wired(batch: BatchClass, classes: seq<SizeClass>, caches: seq<Cache>,
                                 chunks: seq<seq<PerClass>>)
    {
      && |chunks| == |classes| && (forall c | 0 <= c < |chunks| :: |chunks[c]| == |caches|)
      && (forall k | k in caches :: k.region == batch)
      && (forall t, u | 0 <= t < u < |caches| :: caches[t] != caches[u] && caches[t].chunks != caches[u].chunks)
      && (forall c, d | 0 <= c < d < |classes| ::
           classes[c] != classes[d] && classes[c].list != classes[d].list && Apart(chunks[c], chunks[d]))
      && (forall c | 0 <= c < |chunks| :: ApartFromCaches(chunks[c], caches) && ApartInRow(chunks[c]))
    }

    static ghost predicate Apart(row: seq<PerClass>, other: seq<PerClass>) {
      forall p, q | p in row && q in other :: p != q && p.chunks != q.chunks
    }

    static ghost predicate ApartInRow(row: seq<PerClass>) {
      forall t, u | 0 <= t < u < |row| :: row[t] != row[u] && row[t].chunks != row[u].chunks
    }

    static ghost predicate ApartFromCaches(row: seq<PerClass>, caches: seq<Cache>) {
      forall p, k | p in row && k in caches :: p.chunks != k.chunks
    }

    /** The batch-class blocks that are not on its own list. */
    ghost function InUse(): multiset<nat>
      reads this`held, this`nodes
    {
      Sum(held) + Sum(nodes)
    }

    ghost predicate CacheOk(t: nat)
      requires t < |caches| == |held|
      reads this`held, this`nodes, caches[t], caches[t].region, caches[t].chunks
    {
      Holds(caches[t], held[t]) && caches[t].Valid() && caches[t].elsewhere + held[t] == InUse()
    }

    /** Every carved batch-class block is on the class's list, in one thread's cache, or a
        node of one other class's list. */
    ghost predicate BatchOk()
      reads this`held, this`nodes, batch
    {
      batch.Valid() && multiset(Consecutive(0, batch.carved)) == batch.Free() + InUse()
    }

    ghost predicate Sized()
      reads this`held, this`nodes, this`books
    {
      |held| == |caches| && |nodes| == |books| == |chunks| == |classes|
    }

    /** The threads' chunks of all classes. */
    ghost function AllChunks(): (all: set<PerClass>)
      ensures forall c, p | 0 <= c < |chunks| && p in chunks[c] :: p in all
    {
      set c, p | 0 <= c < |chunks| && p in chunks[c] :: p
    }

    ghost predicate Valid()
      reads this, batch, caches, (set k | k in caches :: k.chunks), classes, (set k | k in classes :: k.list)
      reads AllChunks(), (set p | p in AllChunks() :: p.chunks)
    {
      && Wired(batch, classes, caches, chunks) && Sized() && BatchOk()
      && (forall t | 0 <= t < |caches| :: CacheOk(t))
      && (forall c | 0 <= c < |classes| :: ClassBooks(classes[c], chunks[c], nodes[c], books[c]))
    }

    /** An allocator in which nothing has been carved yet. */
    constructor (batch: BatchClass, classes: seq<SizeClass>, caches: seq<Cache>, chunks: seq<seq<PerClass>>)
      requires |chunks| == |classes| && Wired(batch, classes, caches, chunks)
      requires batch.Valid() && batch.carved == 0
      requires forall k | k in caches :: k.Valid() && k.count == 0
      requires forall c | 0 <= c < |classes| :: ClassStarts(classes[c], chunks[c])
      ensures Valid() && this.batch == batch && this.classes == classes && this.caches == caches &&
        this.chunks == chunks
      ensures forall c | 0 <= c < |books| :: books[c].live == multiset{}
    {
      this.batch, this.classes, this.caches, this.chunks := batch, classes, caches, chunks;
      held, nodes, books := None(|caches|), None(|classes|), seq(|classes|, _ => Ledger(None(|caches|), multiset{}));
      new;
      hide Allocator.Wired, ClassBooks, ClassStarts, Allocator.CacheOk, Allocator.BatchOk, Cache.Valid,
           BatchClass.Valid;
      Started();
    }

    lemma Started()
      requires |chunks| == |classes| && Wired(batch, classes, caches, chunks)
      requires batch.Valid() && batch.carved == 0
      requires forall k | k in caches :: k.Valid() && k.count == 0
      requires forall c | 0 <= c < |classes| :: ClassStarts(classes[c], chunks[c])
      requires held == None(|caches|) && nodes == None(|classes|)
      requires books == seq(|classes|, _ => Ledger(None(|caches|), multiset{}))
      ensures BatchOk() && forall t | 0 <= t < |caches| :: CacheOk(t)
      ensures forall c | 0 <= c < |classes| :: ClassBooks(classes[c], chunks[c], nodes[c], books[c])
    {
      hide Allocator.Wired, ClassBooks, ClassStarts, Cache.Valid, BatchClass.Valid;
      hide Sum, Consecutive, BatchClass.Free, None;
      SumOfNone(|caches|);
      SumOfNone(|classes|);
      NothingFree(batch);
      forall c | 0 <= c < |classes| ensures ClassBooks(classes[c], chunks[c], nodes[c], books[c]) {
        RowSize(batch, classes, caches, chunks, c);
        StartOfClass(classes[c], chunks[c]);
      }
      forall t | 0 <= t < |caches| ensures CacheOk(t) {
        RegionOf(batch, classes, caches, chunks, t);
        StartOfThread(batch, caches[t]);
      }
    }

    static lemma RowSize(batch: BatchClass, classes: seq<SizeClass>, caches: seq<Cache>, chunks: seq<seq<PerClass>>,
                         c: nat)
      requires Wired(batch, classes, caches, chunks) && c < |chunks|
      ensures |chunks[c]| == |caches|
    {
    }

    static lemma RegionOf(batch: BatchClass, classes: seq<SizeClass>, caches: seq<Cache>, chunks: seq<seq<PerClass>>,
                          t: nat)
      requires Wired(batch, classes, caches, chunks) && t < |caches|
      ensures caches[t].region == batch
    {
    }

    static lemma NothingFree(batch: BatchClass)
      requires batch.Valid() && batch.carved == 0
      ensures Consecutive(0, 0) == [] && batch.Free() == multiset{}
    {
      Cache.FreeIsCarved(batch);
      assert Consecutive(0, 0) == [];
    }

    static lemma StartOfThread(batch: BatchClass, k: Cache)
      requires k.region == batch && k.Valid() && k.count == 0 && batch.carved == 0
      ensures Holds(k, multiset{}) && k.elsewhere == multiset{}
    {
      assert k.chunks[..0] == [];
    }

    static lemma StartOfClass(k: SizeClass, row: seq<PerClass>)
      requires ClassStarts(k, row)
      ensures ClassBooks(k, row, multiset{}, Ledger(None(|row|), multiset{}))
    {
      hide SizeClass.Shape, FreeList.ListsOk, Sum;
      SumOfNone(|row|);
      forall t | 0 <= t < |row| ensures HoldsChunks(row[t], multiset{}) {
        assert row[t].chunks[..0] == [];
      }
    }

    lemma BooksOf(c: nat, t: nat)
      requires Valid() && c < |classes| && t < |caches|
      ensures t < |books[c].cached| && books[c].cached[t] <= Sum(books[c].cached)
      ensures Sized() && Wired(batch, classes, caches, chunks)
      ensures caches[t].elsewhere + held[t] == InUse() && nodes[c] == classes[c].list.NodeBlocks()
      ensures classes[c].Books(chunks[c][t], caches[t], books[c].Outside(t))
    {
      hide Cache.Valid, BatchClass.Valid, FreeList.ListsOk, FreeList.NodeBlocks, FreeList.Free;
      hide Sum, Carved, Allocator.BatchOk;
      assert CacheOk(t) && ClassBooks(classes[c], chunks[c], nodes[c], books[c]);
      assert HoldsChunks(chunks[c][t], books[c].cached[t]);
      SumUpdate(books[c].cached, t, multiset{});
      SumUpdate(nodes, c, multiset{});
      SumUpdate(held, t, multiset{});
      PartIsMine(Sum(books[c].cached), books[c].cached[t], books[c].live, classes[c].list.Free());
      NodesAreElsewhere(caches[t].elsewhere, held[t], nodes[c], Sum(held), Sum(nodes));
    }

    // ---------------------------------------------------------------- bringing the books up to date

    /** What thread `t` has nothing to do with: other threads' caches, ... */
    ghost function OtherThreads(t: nat): (parts: set<object>)
      ensures forall u | 0 <= u < |caches| && u != t :: caches[u] in parts && caches[u].chunks in parts
    {
      (set u | 0 <= u < |caches| && u != t :: caches[u]) + (set u | 0 <= u < |caches| && u != t :: caches[u].chunks)
    }

    /** ... when it works on class `c`, the other classes, ... */
    ghost function OtherClasses(c: nat): (parts: set<object>)
      requires |classes| == |chunks|
      ensures forall d | 0 <= d < |classes| && d != c :: classes[d] in parts && classes[d].list in parts
      ensures forall d, p: PerClass | 0 <= d < |classes| && d != c && p in chunks[d] :: p in parts && p.chunks in parts
    {
      (set d | 0 <= d < |classes| && d != c :: classes[d]) + (set d | 0 <= d < |classes| && d != c :: classes[d].list)
      + (set d, p | 0 <= d < |classes| && d != c && p in chunks[d] :: p)
      + (set d, p | 0 <= d < |classes| && d != c && p in chunks[d] :: p.chunks)
    }

    /** ... and other threads' chunks of it. */
    ghost function OtherChunks(c: nat, t: nat): (parts: set<object>)
      requires c < |chunks|
      ensures forall u | 0 <= u < |chunks[c]| && u != t :: chunks[c][u] in parts && chunks[c][u].chunks in parts
    {
      (set u | 0 <= u < |chunks[c]| && u != t :: chunks[c][u])
      + (set u | 0 <= u < |chunks[c]| && u != t :: chunks[c][u].chunks)
    }

    /** A thread working on a class leaves other classes' regions and lists, other threads'
        chunks of it and all chunks of other classes as they are, ... */
    twostate predicate OtherClassesStay(c: nat)
      requires |classes| == |chunks|
      reads classes, (set k | k in classes :: k.list), AllChunks(), (set p | p in AllChunks() :: p.chunks)
    {
      && (forall d | 0 <= d < |classes| && d != c ::
           && classes[d].carved == old(classes[d].carved) && classes[d].mappedUser == old(classes[d].mappedUser)
           && classes[d].list.groups == old(classes[d].list.groups))
      && (forall d, u | 0 <= d < |chunks| && d != c && 0 <= u < |chunks[d]| :: ChunksStay(chunks[d][u]))
    }

    twostate predicate OtherChunksStay(c: nat, t: nat)
      requires c < |chunks|
      reads AllChunks(), (set p | p in AllChunks() :: p.chunks)
    {
      forall u | 0 <= u < |chunks[c]| && u != t :: ChunksStay(chunks[c][u])
    }

    static twostate predicate ChunksStay(p: PerClass)
      reads p, p.chunks
    {
      p.count == old(p.count) && p.Held() == old(p.Held())
    }

    /** ... and, on thread `t`, other threads' caches of list nodes. */
    twostate predicate OtherCachesStay(t: nat)
      reads caches`count
    {
      forall u | 0 <= u < |caches| && u != t :: caches[u].count == old(caches[u].count)
    }

    ghost predicate ThreadsOk(t: nat)
      requires |held| == |caches|
      reads this`held, OtherThreads(t)
    {
      forall u | 0 <= u < |caches| && u != t :: Holds(caches[u], held[u])
    }

    ghost predicate ClassesOk(c: nat)
      requires Sized()
      reads this`held, this`nodes, this`books, OtherClasses(c)
    {
      forall d | 0 <= d < |classes| && d != c :: ClassBooks(classes[d], chunks[d], nodes[d], books[d])
    }

    ghost predicate RowOk(c: nat, t: nat)
      requires c < |books| == |chunks|
      reads this`books, OtherChunks(c, t)
    {
      && |books[c].cached| == |chunks[c]|
      && forall u | 0 <= u < |chunks[c]| && u != t :: HoldsChunks(chunks[c][u], books[c].cached[u])
    }

    /** After thread `t` has worked on class `c`. */
    ghost method Settle(c: nat, t: nat, liveNow: multiset<nat>)
      requires Sized() && Wired(batch, classes, caches, chunks) && c < |classes| && t < |caches|
      requires |chunks[c]| == |caches| && ThreadsOk(t) && ClassesOk(c) && RowOk(c, t) && t < |books[c].cached| &&
        books[c].cached[t] <= Sum(books[c].cached)
      requires classes[c].Books(chunks[c][t], caches[t], books[c].(live := liveNow).Outside(t))
      requires caches[t].elsewhere + held[t] + nodes[c] == InUse() + classes[c].list.NodeBlocks()
      modifies this`held, this`nodes, this`books, caches`elsewhere
      ensures Valid() && |books| == |old(books)| && books[c].live == liveNow
      ensures forall d | 0 <= d < |books| && d != c :: books[d] == old(books[d])
    {
      hide Allocator.Valid, Allocator.ThreadsOk, Allocator.ClassesOk, Allocator.RowOk, SizeClass.Books;
      Record(c, t, liveNow);
      ShareOut(t);
    }

    /** The books of thread `t` and class `c`. */
    ghost method Record(c: nat, t: nat, liveNow: multiset<nat>)
      requires Sized() && c < |classes| && t < |caches| && caches[t].region == batch && |chunks[c]| == |caches|
      requires |chunks[c]| == |caches| && ThreadsOk(t) && ClassesOk(c) && RowOk(c, t) &&
        books[c].cached[t] <= Sum(books[c].cached)
      requires classes[c].Books(chunks[c][t], caches[t], books[c].(live := liveNow).Outside(t))
      requires caches[t].elsewhere + held[t] + nodes[c] == InUse() + classes[c].list.NodeBlocks()
      modifies this`held, this`nodes, this`books
      ensures Sized() && BatchOk() && CacheOk(t) && books[c].live == liveNow
      ensures forall d | 0 <= d < |books| && d != c :: books[d] == old(books[d])
      ensures forall u | 0 <= u < |caches| :: Holds(caches[u], held[u])
      ensures forall d | 0 <= d < |classes| :: ClassBooks(classes[d], chunks[d], nodes[d], books[d])
    {
      hide Cache.Valid, ClassBooks, Holds, HoldsChunks, Sum, SizeClass.Books, Allocator.BatchOk;
      BooksMeanHeld(c, t, liveNow);
      var heldNow, nodesNow := multiset(caches[t].chunks[..caches[t].count]), classes[c].list.NodeBlocks();
      var cachedNow := multiset(chunks[c][t].chunks[..chunks[c][t].count]);
      var booksNow := Ledger(books[c].cached[t := cachedNow], liveNow);
      NewBooks(c, t, heldNow, nodesNow, cachedNow, liveNow);
      held, nodes, books := held[t := heldNow], nodes[c := nodesNow], books[c := booksNow];
      BatchSettled(t);
    }

    /** What the books of thread `t` and class `c` will say. */
    lemma NewBooks(c: nat, t: nat, heldNow: multiset<nat>, nodesNow: multiset<nat>, cachedNow: multiset<nat>,
                   liveNow: multiset<nat>)
      requires Sized() && c < |classes| && t < |caches| && |chunks[c]| == |caches|
      requires ThreadsOk(t) && ClassesOk(c) && RowOk(c, t) && books[c].cached[t] <= Sum(books[c].cached)
      requires classes[c].Books(chunks[c][t], caches[t], books[c].(live := liveNow).Outside(t))
      requires caches[t].Shape() && heldNow == multiset(caches[t].chunks[..caches[t].count])
      requires chunks[c][t].Valid() && cachedNow == multiset(chunks[c][t].chunks[..chunks[c][t].count])
      requires nodesNow == classes[c].list.NodeBlocks()
      requires caches[t].elsewhere + held[t] + nodes[c] == InUse() + nodesNow
      ensures Holds(caches[t], heldNow)
      ensures ClassBooks(classes[c], chunks[c], nodesNow, Ledger(books[c].cached[t := cachedNow], liveNow))
      ensures caches[t].elsewhere + heldNow == Sum(held[t := heldNow]) + Sum(nodes[c := nodesNow])
    {
      hide SizeClass.Books, ListBooks, Sum, FreeList.NodeBlocks;
      var cached := books[c].cached;
      SumUpdate(held, t, heldNow);
      SumUpdate(nodes, c, nodesNow);
      SumUpdate(cached, t, cachedNow);
      InUseNow(caches[t].elsewhere, held[t], heldNow, nodes[c], nodesNow,
               Sum(held), Sum(held[t := heldNow]), Sum(nodes), Sum(nodes[c := nodesNow]));
      ClassSettled(classes[c], chunks[c][t], caches[t], cachedNow, cached[t], Sum(cached),
                   Sum(cached[t := cachedNow]), liveNow);
    }

    /** What the other threads' caches do not hold themselves is elsewhere. */
    ghost method ShareOut(t: nat)
      requires Wired(batch, classes, caches, chunks) && Sized() && t < |caches| && BatchOk() && CacheOk(t)
      requires forall u | 0 <= u < |caches| :: Holds(caches[u], held[u])
      requires forall d | 0 <= d < |classes| :: ClassBooks(classes[d], chunks[d], nodes[d], books[d])
      modifies caches`elsewhere
      ensures Valid()
    {
      hide ClassBooks, Holds, Allocator.BatchOk, Cache.Valid, Sum;
      ghost var total := InUse();
      forall u | 0 <= u < |caches| && u != t {
        caches[u].elsewhere := total - held[u];
      }
      forall u | 0 <= u < |caches| ensures CacheOk(u) {
        if u != t {
          CacheSettled(u);
        }
      }
    }

    lemma BooksMeanHeld(c: nat, t: nat, liveNow: multiset<nat>)
      requires Sized() && c < |classes| && t < |caches| && |chunks[c]| == |caches| && t < |books[c].cached|
      requires classes[c].Books(chunks[c][t], caches[t], books[c].(live := liveNow).Outside(t))
      ensures caches[t].Valid() && caches[t].Shape() && chunks[c][t].Valid()
    {
    }

    static lemma InUseNow(e: multiset<nat>, h0: multiset<nat>, h1: multiset<nat>, n0: multiset<nat>, n1: multiset<nat>,
                          hs0: multiset<nat>, hs1: multiset<nat>, ns0: multiset<nat>, ns1: multiset<nat>)
      requires e + h0 + n0 == hs0 + ns0 + n1 && hs1 + h0 == hs0 + h1 && ns1 + n0 == ns0 + n1
      ensures e + h1 == hs1 + ns1
    {
      forall x ensures (e + h1)[x] == (hs1 + ns1)[x] {
        assert (e + h0 + n0)[x] == (hs0 + ns0 + n1)[x];
        assert (hs1 + h0)[x] == (hs0 + h1)[x] && (ns1 + n0)[x] == (ns0 + n1)[x];
      }
    }

    static lemma ClassSettled(k: SizeClass, p: PerClass, cache: Cache, mine1: multiset<nat>, mine0: multiset<nat>,
                              sum0: multiset<nat>, sum1: multiset<nat>, live: multiset<nat>)
      requires k.Books(p, cache, sum0 - mine0 + live) && p.Valid() && mine1 == multiset(p.chunks[..p.count])
      requires sum1 + mine0 == sum0 + mine1 && mine0 <= sum0
      ensures ListBooks(k, k.list.NodeBlocks(), sum1, live) && HoldsChunks(p, mine1)
    {
      hide FreeList.ListsOk, FreeList.NodeBlocks, FreeList.Free, Carved, Cache.Valid;
      PartNow(multiset(Carved(k.unit, k.carved)), k.list.Free(), mine1, mine0, sum0, sum1, live);
    }

    static lemma PartNow(all: multiset<nat>, free: multiset<nat>, mine1: multiset<nat>, mine0: multiset<nat>,
                         sum0: multiset<nat>, sum1: multiset<nat>, live: multiset<nat>)
      requires all == free + mine1 + (sum0 - mine0 + live) && sum1 + mine0 == sum0 + mine1 && mine0 <= sum0
      ensures all == free + sum1 + live
    {
      forall x ensures all[x] == (free + sum1 + live)[x] {
        assert all[x] == (free + mine1 + (sum0 - mine0 + live))[x];
        assert (sum1 + mine0)[x] == (sum0 + mine1)[x];
      }
    }

    /** One thread's books tell where all batch-class blocks are, ... */
    lemma BatchSettled(t: nat)
      requires t < |caches| == |held| && caches[t].region == batch && caches[t].Valid()
      requires Holds(caches[t], held[t]) && caches[t].elsewhere + held[t] == InUse()
      ensures BatchOk()
    {
      hide BatchClass.Valid, BatchClass.Free, Consecutive, Sum;
    }

    /** ... and so does the whole for every other thread. */
    lemma CacheSettled(u: nat)
      requires u < |caches| == |held| && caches[u].region == batch && BatchOk() && Holds(caches[u], held[u])
      requires caches[u].elsewhere == InUse() - held[u]
      ensures CacheOk(u)
    {
      hide BatchClass.Valid, BatchClass.Free, Consecutive, Sum;
      SumUpdate(held, u, multiset{});
    }

    // ---------------------------------------------------------------- what threads do

    static lemma OneMoreOutside(books: Ledger, t: nat, x: nat)
      requires t < |books.cached|
      ensures books.(live := books.live + multiset{x}).Outside(t) == books.Outside(t) + multiset{x}
      ensures books.(live := books.live) == books
      ensures x !in books.Outside(t) ==> x !in books.live
    {
    }

    static lemma OneLessOutside(books: Ledger, t: nat, x: nat)
      requires t < |books.cached| && x in books.live
      ensures books.(live := books.live - multiset{x}).Outside(t) == books.Outside(t) - multiset{x}
      ensures x in books.Outside(t)
    {
    }

    static lemma NodesTaken(e: multiset<nat>, e0: multiset<nat>, h: multiset<nat>, n0: multiset<nat>, n: multiset<nat>,
                            use: multiset<nat>)
      requires e + n0 == e0 + n && e0 + h == use
      ensures e + h + n0 == use + n
    {
      forall x ensures (e + h + n0)[x] == (use + n)[x] {
        assert (e + n0)[x] == (e0 + n)[x] && (e0 + h)[x] == use[x];
      }
    }

    /** What thread `t` works on for class `c` is no one else's. */
    lemma ThreadDistinct(c: nat, t: nat)
      requires |chunks| == |classes| && Wired(batch, classes, caches, chunks) && c < |classes| && t < |caches|
      ensures |chunks[c]| == |caches| && caches[t].region == batch
      ensures {caches[t], caches[t].chunks, batch, classes[c], classes[c].list, chunks[c][t], chunks[c][t].chunks}
        !! OtherThreads(t) && allocated(OtherThreads(t))
    {
      assert chunks[c][t] in chunks[c];
      forall u | 0 <= u < |caches| && u != t
        ensures caches[u] != caches[t] && caches[u].chunks !in {caches[t].chunks, chunks[c][t].chunks}
      {
        assert caches[u] in caches;
      }
    }

    lemma ClassDistinct(c: nat, t: nat)
      requires |chunks| == |classes| && Wired(batch, classes, caches, chunks) && c < |classes| && t < |caches|
      ensures t < |chunks[c]|
      ensures {caches[t], caches[t].chunks, batch, classes[c], classes[c].list, chunks[c][t], chunks[c][t].chunks}
        !! OtherClasses(c) && allocated(OtherClasses(c))
    {
      assert chunks[c][t] in chunks[c] && caches[t] in caches;
      forall d, p | 0 <= d < |classes| && d != c && p in chunks[d]
        ensures p != chunks[c][t] && p.chunks !in {caches[t].chunks, chunks[c][t].chunks}
      {
        RowApart(c, t, d, p);
      }
      hide Allocator.Apart, Allocator.ApartInRow, Allocator.ApartFromCaches;
    }

    lemma RowApart(c: nat, t: nat, d: nat, p: PerClass)
      requires |chunks| == |classes| && Wired(batch, classes, caches, chunks) && c < |classes| && t < |caches|
      requires d < |classes| && d != c && p in chunks[d]
      ensures t < |chunks[c]| && p != chunks[c][t] && p.chunks !in {caches[t].chunks, chunks[c][t].chunks}
    {
      assert chunks[c][t] in chunks[c] && caches[t] in caches;
      assert if d < c then Apart(chunks[d], chunks[c]) else Apart(chunks[c], chunks[d]);
      assert ApartFromCaches(chunks[d], caches);
    }

    lemma ChunksDistinct(c: nat, t: nat)
      requires |chunks| == |classes| && Wired(batch, classes, caches, chunks) && c < |classes| && t < |caches|
      ensures t < |chunks[c]|
      ensures {caches[t], caches[t].chunks, batch, classes[c], classes[c].list, chunks[c][t], chunks[c][t].chunks}
        !! OtherChunks(c, t) && allocated(OtherChunks(c, t))
    {
      assert chunks[c][t] in chunks[c] && caches[t] in caches;
      forall u | 0 <= u < |chunks[c]| && u != t
        ensures chunks[c][u].chunks !in {caches[t].chunks, chunks[c][t].chunks} && chunks[c][u] != chunks[c][t]
      {
        assert chunks[c][u] in chunks[c];
      }
    }

    lemma OthersAreOk(c: nat, t: nat)
      requires Valid() && c < |classes| && t < |caches|
      ensures |chunks[c]| == |caches| && Sized() && ThreadsOk(t) && ClassesOk(c) && RowOk(c, t)
    {
      hide ListBooks, Allocator.BatchOk;
      assert ClassBooks(classes[c], chunks[c], nodes[c], books[c]);
      forall u | 0 <= u < |caches| && u != t ensures Holds(caches[u], held[u]) {
        assert CacheOk(u);
      }
    }

    lemma HasMapping(c: nat)
      requires Valid() && c < |classes|
      ensures classes[c].mapping.Ok()
    {
      ListIsOk(c);
    }

    /** Nothing to allocate from without carving. */
    predicate NothingToPop(c: nat, t: nat)
      requires c < |classes| == |chunks| && t < |chunks[c]|
      reads chunks[c][t], classes[c].list
    {
      chunks[c][t].count == 0 && classes[c].list.groups == []
    }

    /** Thread `t` allocates a block of class `c`. */
    method Allocate(c: nat, t: nat, n0: nat, remaps: bool, draws: seq<nat>) returns (ok: bool, x: nat)
      requires Valid() && c < |classes| && t < |caches| && n0 > 0 && |draws| >= classes[c].mapping.MostNewBlocks()
      modifies this`held, this`nodes, this`books, caches`elsewhere, caches[t], caches[t].chunks, batch
      modifies classes[c], classes[c].list`groups, classes[c].list`pushedBlocks, classes[c].list`poppedBlocks
      modifies chunks[c][t], chunks[c][t].chunks
      ensures Valid() && |books| == |old(books)| && |classes| == |chunks| && t < |chunks[c]| && classes[c].mapping.Ok()
      ensures !ok <==> old(NothingToPop(c, t)) && old(classes[c].Stuck(remaps))
      ensures !ok || !old(NothingToPop(c, t)) ==>
        classes[c].carved == old(classes[c].carved) && classes[c].mappedUser == old(classes[c].mappedUser)
      ensures |old(chunks[c][t].Held())| == old(chunks[c][t].count) && |chunks[c][t].Held()| == chunks[c][t].count
      ensures !ok ==> chunks[c][t].count == 0
      ensures old(chunks[c][t].Held()) != [] ==>
        old(chunks[c][t].Held()) == chunks[c][t].Held() + [x] && classes[c].list.groups == old(classes[c].list.groups)
      ensures OtherClassesStay(c) && OtherChunksStay(c, t) && OtherCachesStay(t)
      ensures books[c].live == if ok then old(books[c].live) + multiset{x} else old(books[c].live)
      ensures ok ==> x !in old(books[c].live)
      ensures forall d | 0 <= d < |books| && d != c :: books[d].live == old(books[d].live)
    {
      hide Allocator.Valid, Allocator.ThreadsOk, Allocator.ClassesOk, Allocator.RowOk, Allocator.Wired, SizeClass.Books;
      hide Ledger.Outside, Allocator.InUse, FreeList.NodeBlocks, Sum;
      hide Allocator.OtherThreads, Allocator.OtherClasses, Allocator.OtherChunks, PerClass.Held, Drained, Deallocated;
      BooksOf(c, t);
      HasMapping(c);
      ThreadDistinct(c, t);
      ClassDistinct(c, t);
      ChunksDistinct(c, t);
      OthersAreOk(c, t);
      ghost var e0, use := caches[t].elsewhere, InUse();
      ghost var outside := books[c].Outside(t);
      ok, x := classes[c].Allocate(chunks[c][t], caches[t], n0, remaps, draws, outside);
      ghost var liveNow := if ok then books[c].live + multiset{x} else books[c].live;
      OneMoreOutside(books[c], t, x);
      NodesTaken(caches[t].elsewhere, e0, held[t], nodes[c], classes[c].list.NodeBlocks(), use);
      Settle(c, t, liveNow);
    }

    /** Thread `t` gives back a block of class `c`. */
    method Deallocate(c: nat, t: nat, x: nat, n0: nat)
      requires Valid() && c < |classes| && t < |caches| && n0 > 0 && x in books[c].live
      modifies this`held, this`nodes, this`books, caches`elsewhere, caches[t], caches[t].chunks, batch
      modifies classes[c].list`groups, classes[c].list`pushedBlocks, chunks[c][t], chunks[c][t].chunks
      ensures Valid() && |books| == |old(books)| && books[c].live == old(books[c].live) - multiset{x}
      ensures forall d | 0 <= d < |books| && d != c :: books[d].live == old(books[d].live)
      ensures |classes| == |chunks| && t < |chunks[c]|
      ensures |old(chunks[c][t].Held())| == old(chunks[c][t].count) && |chunks[c][t].Held()| == chunks[c][t].count
      ensures chunks[c][t].Held() == Deallocated(old(chunks[c][t].Held()), chunks[c][t].maxCount, x)
      ensures old(chunks[c][t].count) < chunks[c][t].maxCount ==>
        classes[c].list.groups == old(classes[c].list.groups)
      ensures OtherClassesStay(c) && OtherChunksStay(c, t) && OtherCachesStay(t)
    {
      hide Allocator.Valid, Allocator.ThreadsOk, Allocator.ClassesOk, Allocator.RowOk, Allocator.Wired, SizeClass.Books;
      hide Ledger.Outside, Allocator.InUse, FreeList.NodeBlocks, Sum;
      hide Allocator.OtherThreads, Allocator.OtherClasses, Allocator.OtherChunks, PerClass.Held, Drained, Deallocated;
      BooksOf(c, t);
      ghost var e0, use := caches[t].elsewhere, InUse();
      ThreadDistinct(c, t);
      ClassDistinct(c, t);
      ChunksDistinct(c, t);
      OthersAreOk(c, t);
      OneLessOutside(books[c], t, x);
      hide Allocator.AllChunks;
      GiveChunk(c, t, x, n0, books[c].Outside(t));
      NodesTaken(caches[t].elsewhere, e0, held[t], nodes[c], classes[c].list.NodeBlocks(), use);
      Settle(c, t, books[c].live - multiset{x});
    }

    /** A block given back is the next one the thread gets. */
    method Reuse(c: nat, t: nat, x: nat, n0: nat, remaps: bool, draws: seq<nat>) returns (ok: bool, y: nat)
      requires Valid() && c < |classes| && t < |caches| && n0 > 0 && x in books[c].live
      requires |draws| >= classes[c].mapping.MostNewBlocks()
      modifies this`held, this`nodes, this`books, caches`elsewhere, caches[t], caches[t].chunks, batch
      modifies classes[c], classes[c].list`groups, classes[c].list`pushedBlocks, classes[c].list`poppedBlocks
      modifies chunks[c][t], chunks[c][t].chunks
      ensures Valid() && ok && y == x && |books| == |old(books)| && books[c].live == old(books[c].live)
    {
      Rows(t);
      hide Allocator.Valid, PerClass.Held, Deallocated;
      hide Allocator.OtherClassesStay, Allocator.OtherChunksStay, Allocator.OtherCachesStay, Allocator.AllChunks;
      ghost var was, live := chunks[c][t].Held(), books[c].live;
      Deallocate(c, t, x, n0);
      LastIsGiven(was, chunks[c][t].maxCount, x, live);
      ok, y := Allocate(c, t, n0, remaps, draws);
      LastIsTaken(Deallocated(was, chunks[c][t].maxCount, x), chunks[c][t].Held(), y);
    }

    static lemma LastIsGiven(was: seq<nat>, maxCount: nat, x: nat, live: multiset<nat>)
      ensures
        var held := Deallocated(was, maxCount, x);
        held != [] && held[|held| - 1] == x
      ensures x in live ==> live - multiset{x} + multiset{x} == live
    {
    }

    static lemma LastIsTaken(was: seq<nat>, now: seq<nat>, y: nat)
      requires was == now + [y]
      ensures was[|was| - 1] == y
    {
    }

    /** What thread `t` works on for class `c`. */
    ghost function Mine(c: nat, t: nat): set<object>
      requires c < |classes| && c < |chunks| && t < |caches| && t < |chunks[c]|
    {
      {caches[t], caches[t].chunks, batch, classes[c], classes[c].list, chunks[c][t], chunks[c][t].chunks}
    }

    /** The deallocation itself, before the books are brought up to date. */
    method GiveChunk(c: nat, t: nat, x: nat, n0: nat, ghost outside: multiset<nat>)
      requires Sized() && c < |classes| && t < |caches| && t < |chunks[c]| && n0 > 0 && x in outside
      requires caches[t].region == batch && ThreadsOk(t) && ClassesOk(c) && RowOk(c, t)
      requires Mine(c, t) !! OtherThreads(t) && allocated(OtherThreads(t))
      requires Mine(c, t) !! OtherClasses(c) && allocated(OtherClasses(c))
      requires Mine(c, t) !! OtherChunks(c, t) && allocated(OtherChunks(c, t))
      requires classes[c].Books(chunks[c][t], caches[t], outside)
      modifies caches[t], caches[t].chunks, batch
      modifies classes[c].list`groups, classes[c].list`pushedBlocks, chunks[c][t], chunks[c][t].chunks
      ensures classes[c].Books(chunks[c][t], caches[t], outside - multiset{x})
      ensures classes[c].list.NodesAccounted(caches[t]) && ThreadsOk(t) && ClassesOk(c) && RowOk(c, t)
      ensures |old(chunks[c][t].Held())| == old(chunks[c][t].count) && |chunks[c][t].Held()| == chunks[c][t].count
      ensures chunks[c][t].Held() == Deallocated(old(chunks[c][t].Held()), chunks[c][t].maxCount, x)
      ensures old(chunks[c][t].count) < chunks[c][t].maxCount ==>
        classes[c].list.groups == old(classes[c].list.groups)
    {
      hide Allocator.ThreadsOk, Allocator.ClassesOk, Allocator.RowOk, SizeClass.Books, FreeList.NodeBlocks;
      hide Allocator.OtherThreads, Allocator.OtherClasses, Allocator.OtherChunks, PerClass.Held, Deallocated;
      classes[c].Deallocate(chunks[c][t], caches[t], x, n0, outside);
    }

    /** Thread `t` drains half of its chunks of class `c`. */
    method Drain(c: nat, t: nat, n0: nat)
      requires Valid() && c < |classes| && t < |caches| && n0 > 0 && chunks[c][t].count > 0
      modifies this`held, this`nodes, this`books, caches`elsewhere, caches[t], caches[t].chunks, batch
      modifies classes[c].list`groups, classes[c].list`pushedBlocks, chunks[c][t], chunks[c][t].chunks
      ensures Valid() && |books| == |old(books)| && books[c].live == old(books[c].live)
      ensures forall d | 0 <= d < |books| && d != c :: books[d].live == old(books[d].live)
      ensures chunks[c][t].count < old(chunks[c][t].count)
      ensures |classes| == |chunks| && t < |chunks[c]|
      ensures |old(chunks[c][t].Held())| == old(chunks[c][t].count) && |chunks[c][t].Held()| == chunks[c][t].count
      ensures chunks[c][t].Held() == Drained(old(chunks[c][t].Held()), chunks[c][t].maxCount)
      ensures OtherClassesStay(c) && OtherChunksStay(c, t) && OtherCachesStay(t)
    {
      hide Allocator.Valid, Allocator.ThreadsOk, Allocator.ClassesOk, Allocator.RowOk, Allocator.Wired, SizeClass.Books;
      hide Ledger.Outside, Allocator.InUse, FreeList.NodeBlocks, Sum;
      hide Allocator.OtherThreads, Allocator.OtherClasses, Allocator.OtherChunks, PerClass.Held, Drained, Deallocated;
      BooksOf(c, t);
      ghost var e0, use := caches[t].elsewhere, InUse();
      ThreadDistinct(c, t);
      ClassDistinct(c, t);
      ChunksDistinct(c, t);
      OthersAreOk(c, t);
      OneMoreOutside(books[c], t, 0);
      DrainChunks(c, t, n0, books[c].Outside(t));
      NodesTaken(caches[t].elsewhere, e0, held[t], nodes[c], classes[c].list.NodeBlocks(), use);
      Settle(c, t, books[c].live);
    }

    /** The draining itself, before the books are brought up to date. */
    method DrainChunks(c: nat, t: nat, n0: nat, ghost outside: multiset<nat>)
      requires Sized() && c < |classes| && t < |caches| && t < |chunks[c]| && n0 > 0 && chunks[c][t].count > 0
      requires caches[t].region == batch && ThreadsOk(t) && ClassesOk(c) && RowOk(c, t)
      requires Mine(c, t) !! OtherThreads(t) && allocated(OtherThreads(t))
      requires Mine(c, t) !! OtherClasses(c) && allocated(OtherClasses(c))
      requires Mine(c, t) !! OtherChunks(c, t) && allocated(OtherChunks(c, t))
      requires classes[c].Books(chunks[c][t], caches[t], outside)
      modifies caches[t], caches[t].chunks, batch
      modifies classes[c].list`groups, classes[c].list`pushedBlocks, chunks[c][t], chunks[c][t].chunks
      ensures classes[c].Books(chunks[c][t], caches[t], outside) && classes[c].list.NodesAccounted(caches[t])
      ensures ThreadsOk(t) && ClassesOk(c) && RowOk(c, t)
      ensures chunks[c][t].count < old(chunks[c][t].count)
      ensures |old(chunks[c][t].Held())| == old(chunks[c][t].count) && |chunks[c][t].Held()| == chunks[c][t].count
      ensures chunks[c][t].Held() == Drained(old(chunks[c][t].Held()), chunks[c][t].maxCount)
    {
      hide Allocator.ThreadsOk, Allocator.ClassesOk, Allocator.RowOk, SizeClass.Books, FreeList.NodeBlocks;
      hide Allocator.OtherThreads, Allocator.OtherClasses, Allocator.OtherChunks, PerClass.Held, Drained;
      classes[c].Drain(chunks[c][t], caches[t], n0, outside);
    }

    /** Thread `t` drains half of its cache of batch-class blocks. */
    method DrainCache(t: nat)
      requires Valid() && t < |caches| && caches[t].count > 0
      modifies this`held, caches`elsewhere, caches[t], caches[t].chunks, batch
      ensures Valid() && caches[t].count < old(caches[t].count)
      ensures caches[t].count == old(caches[t].count) - Min(caches[t].maxCount / 2, old(caches[t].count))
      ensures forall u | 0 <= u < |caches| && u != t :: caches[u].count == old(caches[u].count)
      ensures |books| == |old(books)| && forall d | 0 <= d < |books| :: books[d] == old(books[d])
      ensures forall d, u | 0 <= d < |chunks| && 0 <= u < |chunks[d]| :: ChunksStay(chunks[d][u])
    {
      hide Allocator.ThreadsOk, Allocator.ClassesOk, Allocator.Wired, Allocator.OtherThreads, Allocator.OtherClasses;
      hide Cache.Valid, Sum, ClassBooks, Holds, Allocator.BatchOk;
      CacheDistinct(t);
      CacheInOrder(t);
      ghost var h0, hs0 := held[t], held;
      caches[t].Drain();
      ghost var h1 := multiset(caches[t].chunks[..caches[t].count]);
      SumUpdate(held, t, h1);
      InUseNow(caches[t].elsewhere, h0, h1, multiset{}, multiset{}, Sum(held), Sum(held[t := h1]), Sum(nodes),
               Sum(nodes));
      NowHeld(t, h1);
      held := held[t := h1];
      BatchSettled(t);
      AllClassesOk();
      ShareOut(t);
    }

    /** drain of a whole thread: the other classes first, because draining them may put nodes
        into its cache of batch-class blocks; then that cache. */
    method DrainThread(t: nat, n0: nat)
      requires Valid() && t < |caches| && n0 > 0
      modifies this`held, this`nodes, this`books, caches, caches[t].chunks, batch
      modifies classes, (set k | k in classes :: k.list), AllChunks(), (set p | p in AllChunks() :: p.chunks)
      ensures Valid() && caches[t].count == 0
      ensures forall c | 0 <= c < |classes| :: t < |chunks[c]| && chunks[c][t].count == 0
      ensures |books| == |old(books)| && forall c | 0 <= c < |books| :: books[c].live == old(books[c].live)
    {
      hide Allocator.Valid, PerClass.Held, Drained, Allocator.AllChunks;
      hide Allocator.OtherClassesStay, Allocator.OtherChunksStay, Allocator.OtherCachesStay;
      Rows(t);
      var c := 0;
      while c < |classes|
        invariant Valid() && c <= |classes| == |books| == |chunks|
        invariant forall d | 0 <= d < c :: chunks[d][t].count == 0
        invariant |books| == |old(books)| && forall d | 0 <= d < |books| :: books[d].live == old(books[d].live)
      {
        while chunks[c][t].count > 0
          invariant Valid() && |books| == |classes|
          invariant forall d | 0 <= d < c :: chunks[d][t].count == 0
          invariant |books| == |old(books)| && forall d | 0 <= d < |books| :: books[d].live == old(books[d].live)
          decreases chunks[c][t].count
        {
          Drain(c, t, n0);
        }
        c := c + 1;
      }
      while caches[t].count > 0
        invariant Valid()
        invariant forall d | 0 <= d < |chunks| :: chunks[d][t].count == 0
        invariant |books| == |old(books)| && forall d | 0 <= d < |books| :: books[d].live == old(books[d].live)
        decreases caches[t].count
      {
        DrainCache(t);
      }
    }

    lemma Rows(t: nat)
      requires Valid() && t < |caches|
      ensures |classes| == |chunks| == |books| && forall c | 0 <= c < |chunks| :: |chunks[c]| == |caches|
      ensures forall c, d | 0 <= c < |chunks| && 0 <= d < |chunks| && c != d :: chunks[c][t] != chunks[d][t]
    {
      forall c, d | 0 <= c < |chunks| && 0 <= d < |chunks| && c != d ensures chunks[c][t] != chunks[d][t] {
        assert if d < c then Apart(chunks[d], chunks[c]) else Apart(chunks[c], chunks[d]);
        assert chunks[c][t] in chunks[c] && chunks[d][t] in chunks[d];
      }
    }

    /** What thread `t` works on when it drains its cache is no one else's. */
    lemma CacheDistinct(t: nat)
      requires |chunks| == |classes| && Wired(batch, classes, caches, chunks) && t < |caches|
      ensures caches[t].region == batch && forall u | 0 <= u < |caches| && u != t :: caches[u] != caches[t]
      ensures {caches[t], caches[t].chunks, batch} !! OtherThreads(t) && allocated(OtherThreads(t))
      ensures {caches[t], caches[t].chunks, batch} !! OtherClasses(|classes|) && allocated(OtherClasses(|classes|))
    {
      forall d, p | 0 <= d < |classes| && p in chunks[d] ensures p.chunks != caches[t].chunks {
        assert ApartFromCaches(chunks[d], caches) && caches[t] in caches;
      }
      forall u | 0 <= u < |caches| && u != t ensures caches[u] != caches[t] && caches[u].chunks != caches[t].chunks {
      }
    }

    lemma CacheInOrder(t: nat)
      requires Valid() && t < |caches|
      ensures caches[t].Valid() && caches[t].Shape() && ThreadsOk(t) && ClassesOk(|classes|)
      ensures caches[t].elsewhere + held[t] == Sum(held) + Sum(nodes)
    {
      hide ClassBooks, Cache.Valid, Allocator.BatchOk;
      forall u | 0 <= u < |caches| ensures Holds(caches[u], held[u]) {
        assert CacheOk(u);
      }
      assert CacheOk(t);
    }

    lemma NowHeld(t: nat, now: multiset<nat>)
      requires |held| == |caches| && t < |caches| && ThreadsOk(t) && caches[t].Valid()
      requires now == multiset(caches[t].chunks[..caches[t].count])
      ensures forall u | 0 <= u < |caches| :: Holds(caches[u], held[t := now][u])
    {
    }

    lemma AllClassesOk()
      requires Sized() && ClassesOk(|classes|)
      ensures forall d | 0 <= d < |classes| :: ClassBooks(classes[d], chunks[d], nodes[d], books[d])
    {
    }

    // ---------------------------------------------------------------- page release

    /** The groups of class `c` whose pages may be released are pulled out of its list. */
    method CollectGroups(c: nat, t: nat, tuning: Tuning, forceAll: bool)
      requires Valid() && c < |classes| && t < |caches| && tuning.Ok()
      requires classes[c].list.released == []
      modifies classes[c].list`groups, classes[c].list`released
      ensures Valid() && classes[c].list.Free() == old(classes[c].list.Free())
      ensures classes[c].list.groups == (if forceAll then [] else tuning.Kept(old(classes[c].list.groups)))
      ensures classes[c].list.released ==
        if forceAll then old(classes[c].list.groups) else tuning.Taken(old(classes[c].list.groups))
      ensures !forceAll ==>
        && ChosenFrom(old(classes[c].list.groups), classes[c].list.released, tuning.blockSize, tuning.pageSize,
                   tuning.groupSize, tuning.ptrBytes, tuning.used, tuning.pageDelta)
        && KeptFrom(old(classes[c].list.groups), classes[c].list.groups, classes[c].list.released, tuning.blockSize)
    {
      hide ChosenFrom, KeptFrom;
      hide Allocator.CacheOk, Allocator.BatchOk, Allocator.ClassesOk, Allocator.Wired, ListBooks, HoldsChunks;
      hide Allocator.OtherClasses, FreeList.ListsOk, FreeList.Free, FreeList.NodeBlocks, Tuning.Kept, Tuning.Taken;
      ClassDistinct(c, t);
      OthersAreOk(c, t);
      ListIsOk(c);
      classes[c].list.PullOut(tuning, forceAll);
      SameList(classes[c], nodes[c], Sum(books[c].cached), books[c].live);
      ClassesKept(c);
    }

    lemma ListIsOk(c: nat)
      requires Valid() && c < |classes|
      ensures ClassBooks(classes[c], chunks[c], nodes[c], books[c]) && classes[c].list.ListsOk()
      ensures classes[c].Shape() && classes[c].Counted() && nodes[c] == classes[c].list.NodeBlocks()
      ensures classes[c].mapping.Inv(classes[c].carved, classes[c].mappedUser)
      ensures multiset(Carved(classes[c].unit, classes[c].carved))
        == classes[c].list.Free() + Sum(books[c].cached) + books[c].live
    {
      assert ClassBooks(classes[c], chunks[c], nodes[c], books[c]);
    }

    static lemma SameList(k: SizeClass, nodes: multiset<nat>, cached: multiset<nat>, live: multiset<nat>)
      requires k.Shape() && k.Counted() && k.list.ListsOk() && nodes == k.list.NodeBlocks()
      requires multiset(Carved(k.unit, k.carved)) == k.list.Free() + cached + live
      ensures ListBooks(k, nodes, cached, live)
    {
    }

    lemma ClassesKept(c: nat)
      requires Sized() && c < |classes| && ClassesOk(c) && ClassBooks(classes[c], chunks[c], nodes[c], books[c])
      ensures forall d | 0 <= d < |classes| :: ClassBooks(classes[d], chunks[d], nodes[d], books[d])
    {
    }

    /** And merged back, on thread `t`. */
    method MergeGroups(c: nat, t: nat)
      requires Valid() && c < |classes| && t < |caches|
      modifies this`held, this`nodes, this`books, caches`elsewhere, batch, classes[c].list
      ensures Valid() && |books| == |old(books)| && books[c].live == old(books[c].live)
      ensures forall d | 0 <= d < |books| && d != c :: books[d].live == old(books[d].live)
      ensures classes[c].list.released == []
    {
      hide Allocator.Valid, Allocator.ThreadsOk, Allocator.ClassesOk, Allocator.RowOk, Allocator.Wired, SizeClass.Books;
      hide Ledger.Outside, Allocator.InUse, FreeList.NodeBlocks, Sum;
      hide Allocator.OtherThreads, Allocator.OtherClasses, Allocator.OtherChunks, PerClass.Held, Drained, Deallocated;
      BooksOf(c, t);
      ghost var e0, use := caches[t].elsewhere, InUse();
      ThreadDistinct(c, t);
      ClassDistinct(c, t);
      ChunksDistinct(c, t);
      OthersAreOk(c, t);
      OneMoreOutside(books[c], t, 0);
      classes[c].MergeBack(chunks[c][t], caches[t], books[c].Outside(t));
      NodesTaken(caches[t].elsewhere, e0, held[t], nodes[c], classes[c].list.NodeBlocks(), use);
      Settle(c, t, books[c].live);
    }

    // ---------------------------------------------------------------- what it comes to

    /** A live block of a class is carved, not on its list, and in no thread's chunks. */
    lemma LiveIsNowhereElse(c: nat, x: nat)
      requires Valid() && c < |classes| && x in books[c].live
      ensures x in Carved(classes[c].unit, classes[c].carved) && x !in classes[c].list.Free()
      ensures forall t | 0 <= t < |chunks[c]| :: x !in chunks[c][t].chunks[..chunks[c][t].count]
    {
      hide FreeList.ListsOk, FreeList.Free, Sum, Carved;
      ListIsOk(c);
      var all: multiset<nat> := multiset(Carved(classes[c].unit, classes[c].carved));
      CarvedDistinct(classes[c].unit, classes[c].carved);
      OnceEach(Carved(classes[c].unit, classes[c].carved), x);
      assert all[x] <= 1 && x in all;
      forall t | 0 <= t < |chunks[c]| ensures x !in chunks[c][t].chunks[..chunks[c][t].count] {
        assert HoldsChunks(chunks[c][t], books[c].cached[t]);
        SumUpdate(books[c].cached, t, multiset{});
        assert books[c].cached[t][x] <= Sum(books[c].cached)[x];
      }
    }

    /** `AllocatedUser - (PoppedBlocks - PushedBlocks) * BlockSize` is the number of bytes on
        the free list, and the difference counts what threads have cached and users hold. */
    lemma FreeBytes(c: nat, blockSize: nat)
      requires Valid() && c < |classes|
      ensures
        var k := classes[c];
        && k.carved * blockSize - (k.list.poppedBlocks - k.list.pushedBlocks) * blockSize
          == |k.list.Free()| * blockSize
        && k.list.poppedBlocks - k.list.pushedBlocks == |Sum(books[c].cached)| + |books[c].live|
    {
      hide FreeList.ListsOk, FreeList.Free, Sum, Carved;
      ListIsOk(c);
      var k := classes[c];
      var off := k.list.poppedBlocks - k.list.pushedBlocks;
      assert |multiset(Carved(k.unit, k.carved))| == |k.list.Free() + Sum(books[c].cached) + books[c].live|;
      assert (k.carved - off) * blockSize == k.carved * blockSize - off * blockSize;
    }

    /** Once users have given back all blocks, the threads have drained their caches and no
        groups are out for a page release, each class's list holds every carved block, ... */
    lemma AllReleased(c: nat)
      requires Valid() && c < |classes| && books[c].live == multiset{}
      requires forall t | 0 <= t < |chunks[c]| :: chunks[c][t].count == 0
      requires classes[c].list.released == []
      ensures TotalBlocks(classes[c].list.groups) == classes[c].carved
      ensures classes[c].list.pushedBlocks == classes[c].list.poppedBlocks
    {
      hide FreeList.ListsOk, Sum, Carved;
      ListIsOk(c);
      forall t | 0 <= t < |chunks[c]| ensures books[c].cached[t] == multiset{} {
        assert HoldsChunks(chunks[c][t], books[c].cached[t]);
        assert chunks[c][t].chunks[..0] == [];
      }
      SumOfEmpty(books[c].cached);
      CountsAreSizes(classes[c].list.groups);
      FreeBytes(c, 1);
      assert AllBlocks([]) == multiset{};
    }

    /** ... and the batch class's blocks are on its own list or in use in the other lists,
        whose number its counters tell. */
    lemma BatchClassReleased(lists: seq<seq<BatchGroup>>)
      requires Valid() && forall t | 0 <= t < |caches| :: caches[t].count == 0
      requires |lists| == |classes| && forall c | 0 <= c < |classes| :: lists[c] == classes[c].list.groups
      requires forall c | 0 <= c < |classes| :: classes[c].list.released == []
      ensures BatchTotal(batch.front, batch.batches) + SumOfNodesUsed(lists) == batch.carved
      ensures batch.poppedBlocks - batch.pushedBlocks == SumOfNodesUsed(lists)
    {
      hide Sum, Cache.Valid, FreeList.ListsOk, Recorded, Nodes, Allocator.Wired, Allocator.BatchOk;
      assert BatchOk();
      NothingHeld();
      forall c | 0 <= c < |classes| ensures nodes[c] == Nodes(lists[c]) {
        ListIsOk(c);
        NoNodes();
      }
      SumCounts(nodes, lists);
      BatchSizes();
      assert InUse() == Sum(nodes);
    }

    lemma NothingHeld()
      requires Valid() && forall t | 0 <= t < |caches| :: caches[t].count == 0
      ensures Sum(held) == multiset{}
    {
      hide Sum, Cache.Valid, ClassBooks, Allocator.Wired, Allocator.BatchOk;
      forall t | 0 <= t < |caches| ensures held[t] == multiset{} {
        assert CacheOk(t) && caches[t].chunks[..0] == [];
      }
      SumOfEmpty(held);
    }

    static lemma NoNodes()
      ensures Nodes([]) == multiset{}
    {
    }

    lemma BatchSizes()
      requires BatchOk()
      ensures |batch.Free()| == BatchTotal(batch.front, batch.batches)
      ensures batch.carved == |batch.Free()| + |InUse()|
      ensures batch.poppedBlocks - batch.pushedBlocks == |InUse()|
    {
      hide Sum;
      RecordedCount(batch.batches);
      assert |multiset(Consecutive(0, batch.carved))| == |batch.Free() + InUse()|;
    }
  }
}

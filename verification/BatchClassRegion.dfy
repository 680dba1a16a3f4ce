/** The batch class of the primary allocator (primary64.h pushBatchClassBlocks and the
    class-0 side of popBlocksImpl and populateFreeListAndPopBlocks): a free list that
    needs no memory of its own. */
module BatchClassRegion {

  import opened Arithmetic
  import opened BatchClassNodes
  import opened FreeListTypes

  class BatchClass {
    const maxCachedPerBatch: nat
    /** What is written in each carved block, free or not. */
    var memory: map<nat, Node>
    var carved: nat
    var front: Pointer
    var pushedBlocks: int
    var poppedBlocks: int
    ghost var batches: seq<TransferBatch>

    ghost function Free(): multiset<nat>
      reads this`front, this`batches
    {
      FreeBlocks(front, batches)
    }

    ghost predicate ListValid()
      reads this`memory, this`carved, this`front, this`batches
    {
      && maxCachedPerBatch >= 2
      && ListOk(memory, front, batches, maxCachedPerBatch)
      && forall x: nat :: x in memory <==> x < carved
    }

    /** ... and the two counters tell how many blocks are off the list. */
    ghost predicate Valid()
      reads this
    {
      ListValid() && poppedBlocks - pushedBlocks == carved - |Free()|
    }

    constructor (maxCachedPerBatch: nat)
      requires maxCachedPerBatch >= 2
      ensures Valid() && Free() == multiset{} && carved == 0 && this.maxCachedPerBatch == maxCachedPerBatch
    {
      this.maxCachedPerBatch := maxCachedPerBatch;
      memory, carved, front := map[], 0, Null;
      pushedBlocks, poppedBlocks, batches := 0, 0, [];
    }

    /** Whoever holds a block that is not free may write anything into it; the nodes of
        other classes' free lists are written this way. */
    method Write(x: nat, node: Node)
      requires Valid() && x < carved && x !in Free()
      modifies this`memory
      ensures Valid() && memory == old(memory)[x := node]
    {
      WriteOutside(memory, front, batches, maxCachedPerBatch, x, node);
      memory := memory[x := node];
    }

    /** Blocks that are not free keep their contents. */
    twostate predicate LeavesOthers()
      reads this
    {
      KeepsOutside(old(memory), memory, Free())
    }

    static ghost predicate KeepsOutside(before: map<nat, Node>, after: map<nat, Node>, free: multiset<nat>) {
      forall x | x in before && x !in free :: x in after && after[x] == before[x]
    }

    static lemma KeepsOn(m0: map<nat, Node>, m1: map<nat, Node>, m2: map<nat, Node>, f1: multiset<nat>,
                         f2: multiset<nat>)
      requires KeepsOutside(m0, m1, f1) && KeepsOutside(m1, m2, f2) && f1 <= f2
      ensures KeepsOutside(m0, m2, f2)
    {
      forall x | x in m0 && x !in f2 ensures x in m2 && m2[x] == m0[x] {
        assert f1[x] <= f2[x];
      }
    }

    /** Makes `x` the front batch, recording `blocks`. */
    method PushBatch(g: nat, x: nat, blocks: seq<nat>)
      requires ListValid() && front == To(g) && x in memory && x !in Free() && x != g
      requires blocks == if batches == [] then [x, g] else [x]
      modifies this`memory, this`batches
      ensures ListValid() && Free() == old(Free()) + multiset{x}
      ensures batches == [TransferBatch(x, blocks)] + old(batches)
      ensures memory.Keys == old(memory).Keys
      ensures forall y | y in old(memory) && y != x && y != g :: memory[y] == old(memory)[y]
    {
      if batches == [] {
        FirstBatchKeeps(memory, g, maxCachedPerBatch, x);
        assert [TransferBatch(x, blocks)] + batches == [TransferBatch(x, [x, g])];
      } else {
        PushFrontKeeps(memory, g, batches, maxCachedPerBatch, x);
      }
      assert g in memory && memory[g].GroupNode?;
      hide ListOk, FreeBlocks, PushFront;
      PushFrontFrame(memory[x := BatchNode(Null, blocks)], g, x);
      memory := memory[x := BatchNode(Null, blocks)];
      memory := PushFront(memory, g, x);
      batches := [TransferBatch(x, blocks)] + batches;
    }

    /** Appends to the front batch. */
    method AppendToFront(cur: nat, xs: seq<nat>)
      requires ListValid() && batches != [] && cur == batches[0].addr && front.To?
      requires |batches[0].blocks| + |xs| <= maxCachedPerBatch && Fresh(xs, memory, Free())
      modifies this`memory, this`batches
      ensures ListValid() && Free() == old(Free()) + multiset(xs)
      ensures batches == Appended(old(batches), xs)
      ensures memory.Keys == old(memory).Keys
      ensures forall y | y in old(memory) && y != cur :: memory[y] == old(memory)[y]
    {
      GroupReads(memory, front.block, batches, maxCachedPerBatch);
      AppendKeeps(memory, front.block, batches, maxCachedPerBatch, xs);
      hide ListOk, FreeBlocks, Fresh;
      var node := memory[cur];
      memory := memory[cur := node.(blocks := node.blocks + xs)];
      batches := Appended(batches, xs);
    }

    /** pushBatchClassBlocks: the new blocks join the list, the nodes it needs being built
        in some of them. */
    method Push(a: array<nat>, size: nat)
      requires ListValid() && 0 < size <= a.Length && Fresh(a[..size], memory, Free())
      modifies this`memory, this`front, this`pushedBlocks, this`batches
      ensures ListValid() && Free() == old(Free()) + multiset(a[..size])
      ensures pushedBlocks == old(pushedBlocks) + size
      ensures LeavesOthers()
    {
      hide ListOk, FreeBlocks, Fresh;
      pushedBlocks := pushedBlocks + size;
      var n := StartGroup(a, size);
      if n == 0 {
        return;
      }
      FillBatches(a, n);
    }

    /** If the list is empty its group goes on the last block; `n` blocks remain. */
    method StartGroup(a: array<nat>, size: nat) returns (n: nat)
      requires ListValid() && 0 < size <= a.Length && Fresh(a[..size], memory, Free())
      modifies this`memory, this`front
      ensures ListValid() && front.To? && n <= size && Fresh(a[..n], memory, Free())
      ensures Free() + multiset(a[..n]) == old(Free()) + multiset(a[..size])
      ensures memory.Keys == old(memory).Keys && LeavesOthers()
    {
      hide ListOk, FreeBlocks, Fresh;
      n := size;
      if front == Null {
        n := n - 1;
        assert a[..size][..n] == a[..n] && a[..size][n] == a[n];
        LastOfFresh(a[..size], memory, Free());
        NewGroup(a[n]);
        FreshKeys(a[..n], old(memory), memory, Free());
      }
    }

    static lemma LastOfFresh(xs: seq<nat>, memory: map<nat, Node>, free: multiset<nat>)
      requires |xs| > 0 && Fresh(xs, memory, free)
      ensures
        var rest, x := xs[..|xs| - 1], xs[|xs| - 1];
        && x in memory && x !in free && Fresh(rest, memory, free + multiset{x})
        && multiset(xs) == multiset(rest) + multiset{x}
    {
      var rest, x := xs[..|xs| - 1], xs[|xs| - 1];
      assert xs == rest + [x];
      FreshSplit(rest, [x], memory, free);
    }

    static lemma FirstOfFresh(xs: seq<nat>, memory: map<nat, Node>, free: multiset<nat>)
      requires |xs| > 0 && Fresh(xs, memory, free)
      ensures
        var rest, x := xs[1..], xs[0];
        && x in memory && x !in free && Fresh(rest, memory, free + multiset{x})
        && multiset(xs) == multiset(rest) + multiset{x}
    {
      var rest, x := xs[1..], xs[0];
      assert xs == [x] + rest;
      FreshSplit([x], rest, memory, free);
    }

    /** The first block of an empty list becomes the group. */
    method NewGroup(g: nat)
      requires ListValid() && front == Null && g in memory
      modifies this`memory, this`front
      ensures ListValid() && front == To(g) && batches == []
      ensures Free() == old(Free()) + multiset{g}
      ensures memory.Keys == old(memory).Keys && LeavesOthers()
    {
      NewGroupKeeps(memory, maxCachedPerBatch, g);
      memory := memory[g := GroupNode(Null, Null, 0)];
      front := To(g);
    }

    /** Distributes `a[..n]` over batches behind an existing group. */
    method FillBatches(a: array<nat>, n: nat)
      requires ListValid() && front.To? && 0 < n <= a.Length && Fresh(a[..n], memory, Free())
      modifies this`memory, this`batches
      ensures ListValid() && Free() == old(Free()) + multiset(a[..n])
      ensures memory.Keys == old(memory).Keys && LeavesOthers()
    {
      hide ListOk, FreeBlocks, Fresh;
      var size := FirstBatch(a, n);
      var cur := FirstAddress();
      assert a[0..size] == a[..size];
      AppendLoop(a, size, cur);
    }

    method FirstAddress() returns (cur: nat)
      requires ListValid() && front.To? && batches != []
      ensures cur == batches[0].addr
    {
      GroupReads(memory, front.block, batches, maxCachedPerBatch);
      cur := memory[front.block].first.block;
    }

    /** If the group has no batch, its first one goes on the last block. */
    method FirstBatch(a: array<nat>, n: nat) returns (size: nat)
      requires ListValid() && front.To? && 0 < n <= a.Length && Fresh(a[..n], memory, Free())
      modifies this`memory, this`batches
      ensures ListValid() && batches != [] && size <= n && Fresh(a[..size], memory, Free())
      ensures Free() + multiset(a[..size]) == old(Free()) + multiset(a[..n])
      ensures memory.Keys == old(memory).Keys && LeavesOthers()
    {
      hide ListOk, FreeBlocks, Fresh;
      size := n;
      var g := front.block;
      GroupReads(memory, g, batches, maxCachedPerBatch);
      if memory[g].size == 0 {
        size := size - 1;
        assert a[..n][..size] == a[..size] && a[..n][size] == a[size];
        LastOfFresh(a[..n], memory, Free());
        PushBatch(g, a[size], [a[size], g]);
        FreshKeys(a[..size], old(memory), memory, Free());
        GroupReads(memory, g, batches, maxCachedPerBatch);
      }
    }

    static lemma FreshKeys(xs: seq<nat>, m: map<nat, Node>, m': map<nat, Node>, free: multiset<nat>)
      requires Fresh(xs, m, free) && m.Keys == m'.Keys
      ensures Fresh(xs, m', free)
    {
      forall x | x in xs ensures x in m' {
        assert x in m.Keys;
      }
    }

    static lemma Unchanged(m: map<nat, Node>, free: multiset<nat>)
      ensures KeepsOutside(m, m, free)
    {
    }

    /** The loop of pushBatchClassBlocks. */
    method AppendLoop(a: array<nat>, size: nat, first: nat)
      requires ListValid() && front.To? && size <= a.Length && Fresh(a[0..size], memory, Free())
      requires batches != [] && first == batches[0].addr
      modifies this`memory, this`batches
      ensures ListValid() && Free() == old(Free()) + multiset(a[..size])
      ensures memory.Keys == old(memory).Keys && LeavesOthers()
    {
      Unchanged(memory, Free());
      hide ListOk, FreeBlocks, Fresh, BatchClass.KeepsOutside;
      ghost var g := front.block;
      var cur := first;
      var i := 0;
      while i < size
        invariant i <= size
        invariant ListValid() && batches != [] && cur == batches[0].addr
        invariant Fresh(a[i..size], memory, Free())
        invariant Free() == old(Free()) + multiset(a[..i])
        invariant memory.Keys == old(memory).Keys && LeavesOthers()
      {
        ghost var from, m1, f1 := i, memory, Free();
        i, cur := AppendStep(a, size, i, cur);
        ConcatCounts(a[..i], a[..from], a[from..i]);
        KeepsOn(old(memory), m1, memory, f1, Free());
      }
      assert a[..i] == a[..size];
    }

    /** One round: a new front batch if the old one is full, then as much as fits. */
    method AppendStep(a: array<nat>, size: nat, from: nat, cur: nat) returns (i: nat, cur': nat)
      requires ListValid() && front.To? && from < size <= a.Length && Fresh(a[from..size], memory, Free())
      requires batches != [] && cur == batches[0].addr
      modifies this`memory, this`batches
      ensures from < i <= size
      ensures ListValid() && batches != [] && cur' == batches[0].addr
      ensures Free() == old(Free()) + multiset(a[from..i])
      ensures Fresh(a[i..size], memory, Free())
      ensures memory.Keys == old(memory).Keys && LeavesOthers()
    {
      hide ListOk, FreeBlocks, Fresh, BatchClass.KeepsOutside;
      var unused: nat;
      i, cur', unused := MakeRoom(a, size, from, cur);
      var m := i;
      ghost var m1, f1 := memory, Free();
      i := i + Min(unused, size - i);
      AppendSome(a, size, m, i, cur');
      ConcatCounts(a[from..i], a[from..m], a[m..i]);
      KeepsOn(old(memory), m1, memory, f1, Free());
    }

    method AppendSome(a: array<nat>, size: nat, from: nat, to: nat, cur: nat)
      requires ListValid() && front.To? && from <= to <= size <= a.Length && Fresh(a[from..size], memory, Free())
      requires batches != [] && cur == batches[0].addr && |batches[0].blocks| + (to - from) <= maxCachedPerBatch
      modifies this`memory, this`batches
      ensures ListValid() && batches != [] && cur == batches[0].addr
      ensures Free() == old(Free()) + multiset(a[from..to])
      ensures Fresh(a[to..size], memory, Free())
      ensures memory.Keys == old(memory).Keys && LeavesOthers()
    {
      hide ListOk, FreeBlocks, Fresh;
      GroupReads(memory, front.block, batches, maxCachedPerBatch);
      ghost var xs, ys := a[from..to], a[to..size];
      assert a[from..size] == xs + ys;
      FreshSplit(xs, ys, memory, Free());
      AppendToFront(cur, a[from..to]);
      FreshKeys(ys, old(memory), memory, Free());
    }

    static lemma ConcatCounts(all: seq<nat>, xs: seq<nat>, ys: seq<nat>)
      requires all == xs + ys
      ensures multiset(all) == multiset(xs) + multiset(ys)
    {
    }

    method MakeRoom(a: array<nat>, size: nat, from: nat, cur: nat) returns (i: nat, cur': nat, unused: nat)
      requires ListValid() && front.To? && from < size <= a.Length && Fresh(a[from..size], memory, Free())
      requires batches != [] && cur == batches[0].addr
      modifies this`memory, this`batches
      ensures from <= i <= size
      ensures ListValid() && batches != [] && cur' == batches[0].addr
      ensures unused == maxCachedPerBatch - |batches[0].blocks| && (i == from ==> unused > 0)
      ensures Free() == old(Free()) + multiset(a[from..i])
      ensures Fresh(a[i..size], memory, Free())
      ensures memory.Keys == old(memory).Keys && LeavesOthers()
    {
      hide ListOk, FreeBlocks, Fresh, BatchClass.KeepsOutside;
      Unchanged(memory, Free());
      i, cur' := from, cur;
      GroupReads(memory, front.block, batches, maxCachedPerBatch);
      unused := maxCachedPerBatch - |memory[cur].blocks|;
      if unused == 0 {
        cur' := a[i];
        NewFront(a, size, i);
        i := i + 1;
        unused := maxCachedPerBatch - 1;
      }
      assert a[from..from] == [] && a[from..from + 1] == [a[from]];
    }

    /** The next block becomes the front batch, recording itself. */
    method NewFront(a: array<nat>, size: nat, i: nat)
      requires ListValid() && front.To? && i < size <= a.Length && Fresh(a[i..size], memory, Free())
      requires batches != []
      modifies this`memory, this`batches
      ensures ListValid() && batches == [TransferBatch(a[i], [a[i]])] + old(batches)
      ensures Free() == old(Free()) + multiset{a[i]} && Fresh(a[i + 1..size], memory, Free())
      ensures memory.Keys == old(memory).Keys && LeavesOthers()
    {
      hide ListOk, FreeBlocks, Fresh;
      GroupReads(memory, front.block, batches, maxCachedPerBatch);
      FirstOfFresh(a[i..size], memory, Free());
      assert a[i..size][1..] == a[i + 1..size];
      PushBatch(front.block, a[i], [a[i]]);
      FreshKeys(a[i + 1..size], old(memory), memory, Free());
    }

    /** popBlocksImpl for the batch class: a lone group block, or the whole front batch. */
    method Pop(to: array<nat>) returns (count: nat)
      requires ListValid() && to.Length >= maxCachedPerBatch
      modifies this`memory, this`front, this`poppedBlocks, this`batches, to
      ensures ListValid() && count <= maxCachedPerBatch
      ensures Free() + multiset(to[..count]) == old(Free())
      ensures old(batches) != [] ==> to[..count] == old(batches)[0].blocks && batches == old(batches)[1..]
      ensures count == 0 <==> old(Free()) == multiset{}
      ensures forall x | x in to[..count] ::
        x !in Free() && x in memory && front != To(x) && forall i | 0 <= i < |batches| :: batches[i].addr != x
      ensures poppedBlocks == old(poppedBlocks) + count
      ensures memory.Keys == old(memory).Keys && LeavesOthers()
      ensures forall k | count <= k < to.Length :: to[k] == old(to[k])
    {
      hide ListOk, FreeBlocks, Recorded, BatchAt;
      count := 0;
      ghost var was := Free();
      if front.To? {
        var g := front.block;
        GroupReads(memory, g, batches, maxCachedPerBatch);
        if memory[g].size == 0 {
          PopGroup(to);
          count := 1;
        } else {
          count := PopBatch(to);
        }
        poppedBlocks := poppedBlocks + count;
        SomethingPopped(was, to[..count]);
      } else {
        EmptyList(memory, batches, maxCachedPerBatch);
        assert to[..0] == [];
      }
      PoppedIsNoNode(memory, front, batches, maxCachedPerBatch, was, to[..count], old(memory), old(front),
                     old(batches));
    }

    static lemma SomethingPopped(was: multiset<nat>, popped: seq<nat>)
      requires popped != [] && multiset(popped) <= was
      ensures was != multiset{}
    {
      assert popped[0] in multiset(popped);
    }

    /** The group without a batch is itself the block. */
    method PopGroup(to: array<nat>)
      requires ListValid() && front.To? && batches == [] && to.Length > 0
      modifies this`front, to
      ensures ListValid() && Free() + multiset(to[..1]) == old(Free())
      ensures forall k | 1 <= k < to.Length :: to[k] == old(to[k])
    {
      to[0] := front.block;
      front := Null;
      assert to[..1] == [old(front.block)];
    }

    static lemma EmptyList(memory: map<nat, Node>, batches: seq<TransferBatch>, max: nat)
      requires ListOk(memory, Null, batches, max)
      ensures batches == [] && FreeBlocks(Null, batches) == multiset{}
    {
    }

    /** Nothing popped is still free, let alone still linked. */
    static lemma PoppedIsNoNode(memory: map<nat, Node>, front: Pointer, batches: seq<TransferBatch>, max: nat,
                                was: multiset<nat>, popped: seq<nat>,
                                memory0: map<nat, Node>, front0: Pointer, batches0: seq<TransferBatch>)
      requires ListOk(memory, front, batches, max) && FreeBlocks(front, batches) + multiset(popped) == was
      requires ListOk(memory0, front0, batches0, max) && FreeBlocks(front0, batches0) == was
      requires memory.Keys == memory0.Keys
      ensures forall x | x in popped ::
        x !in FreeBlocks(front, batches) && x in memory && front != To(x)
        && forall i | 0 <= i < |batches| :: batches[i].addr != x
    {
      forall x | x in popped
        ensures x !in FreeBlocks(front, batches) && x in memory && front != To(x)
        ensures forall i | 0 <= i < |batches| :: batches[i].addr != x
      {
        assert was[x] <= 1 && multiset(popped)[x] >= 1;
        assert x in was;
        assert x in memory0.Keys;
        NotFreeNotANode(memory, front, batches, max, x);
      }
    }

    /** Takes the front batch off, and the group with the last one. */
    method PopBatch(to: array<nat>) returns (count: nat)
      requires ListValid() && front.To? && batches != [] && to.Length >= maxCachedPerBatch
      modifies this`memory, this`front, this`batches, to
      ensures ListValid() && 0 < count <= maxCachedPerBatch
      ensures Free() + multiset(to[..count]) == old(Free())
      ensures to[..count] == old(batches)[0].blocks && batches == old(batches)[1..]
      ensures memory.Keys == old(memory).Keys && LeavesOthers()
      ensures forall k | count <= k < to.Length :: to[k] == old(to[k])
    {
      hide ListOk, Recorded;
      var g := front.block;
      GroupReads(memory, g, batches, maxCachedPerBatch);
      FrontIsNotEmpty(memory, g, batches, maxCachedPerBatch);
      PopKeeps(memory, g, batches, maxCachedPerBatch);
      var node := memory[memory[g].first.block];
      count := |node.blocks|;
      forall k | 0 <= k < count {
        to[k] := node.blocks[k];
      }
      assert to[..count] == node.blocks;
      if memory[g].size == 1 {
        front := Null;
      } else {
        memory := memory[g := GroupNode(node.next, memory[g].last, memory[g].size - 1)];
      }
      batches := batches[1..];
      if front.To? {
        GroupReads(memory, g, batches, maxCachedPerBatch);
      }
    }

    static lemma FrontIsNotEmpty(memory: map<nat, Node>, g: nat, batches: seq<TransferBatch>, max: nat)
      requires ListOk(memory, To(g), batches, max) && batches != []
      ensures |batches[0].blocks| > 0
    {
    }

    /** Maps room for `n` more blocks, which come with arbitrary contents. */
    method Carve(n: nat) returns (a: array<nat>)
      requires ListValid() && n > 0
      modifies this`memory, this`carved
      ensures ListValid() && Free() == old(Free()) && fresh(a) && a.Length == n
      ensures carved == old(carved) + n
      ensures a[..n] == Consecutive(old(carved), n) && Fresh(a[..n], memory, Free())
      ensures forall x | x in old(memory) :: x in memory && memory[x] == old(memory)[x]
    {
      hide ListOk, FreeBlocks, Fresh, Consecutive;
      ghost var base := carved;
      a := new nat[n](i requires i >= 0 => i);
      var i := 0;
      while i < n
        invariant i <= n && carved == base + i
        invariant ListValid() && Free() == old(Free())
        invariant forall j | 0 <= j < i :: a[j] == base + j
        invariant forall x | x in old(memory) :: x in memory && memory[x] == old(memory)[x]
      {
        a[i] := carved;
        NewBlockKeeps(memory, front, batches, maxCachedPerBatch, carved, Raw);
        memory := memory[carved := Raw];
        carved := carved + 1;
        i := i + 1;
      }
      assert a[..n] == Consecutive(base, n);
      ConsecutiveIsFresh(base, n, memory, front, batches, maxCachedPerBatch, old(memory));
    }

    static lemma NewBlockKeeps(memory: map<nat, Node>, front: Pointer, batches: seq<TransferBatch>, max: nat,
                               x: nat, node: Node)
      requires ListOk(memory, front, batches, max) && x !in memory
      ensures ListOk(memory[x := node], front, batches, max)
    {
      forall i | 0 <= i < |batches| ensures batches[i].addr != x {
        assert ChainedAt(memory, batches, i);
      }
      ChainedElsewhere(memory, batches, x, node);
    }

    static lemma ConsecutiveIsFresh(base: nat, n: nat, memory: map<nat, Node>, front: Pointer,
                                    batches: seq<TransferBatch>, max: nat, was: map<nat, Node>)
      requires ListOk(was, front, batches, max) && (forall x: nat :: x in was <==> x < base)
      requires forall x | base <= x < base + n :: x in memory
      ensures Fresh(Consecutive(base, n), memory, FreeBlocks(front, batches))
    {
      ConsecutiveDistinct(base, n);
    }

    static lemma PushedSomething(free: multiset<nat>, was: multiset<nat>, xs: seq<nat>)
      requires free == was + multiset(xs)
      ensures |free| == |was| + |xs| && (xs != [] ==> free != multiset{})
    {
      if xs != [] {
        assert xs[0] in free;
      }
    }

    method CarveAndPush(n: nat)
      requires ListValid() && n > 0
      modifies this`memory, this`carved, this`front, this`pushedBlocks, this`batches
      ensures ListValid() && carved == old(carved) + n
      ensures Free() == old(Free()) + multiset(Consecutive(old(carved), n))
      ensures pushedBlocks == old(pushedBlocks) + n && LeavesOthers()
    {
      hide ListOk, FreeBlocks, Fresh, Consecutive, BatchClass.ListValid;
      var a := Carve(n);
      Push(a, n);
    }

    /** populateFreeListAndPopBlocks for the batch class. */
    method Populate(n: nat, to: array<nat>) returns (count: nat)
      requires Valid() && n > 0 && to.Length >= maxCachedPerBatch
      modifies this, to
      ensures Valid() && carved == old(carved) + n && 0 < count <= maxCachedPerBatch
      ensures Free() + multiset(to[..count]) == old(Free()) + multiset(Consecutive(old(carved), n))
      ensures forall x | x in old(memory) && x !in Free() && x !in to[..count] ::
        x in memory && memory[x] == old(memory)[x]
      ensures poppedBlocks == old(poppedBlocks) + count && pushedBlocks == old(pushedBlocks)
      ensures forall k | count <= k < to.Length :: to[k] == old(to[k])
    {
      hide ListOk, FreeBlocks, Consecutive, BatchClass.ListValid, BatchClass.Free;
      CarveAndPush(n);
      ghost var full := Free();
      PushedSomething(full, old(Free()), Consecutive(old(carved), n));
      label Filled:
      count := Pop(to);
      pushedBlocks := pushedBlocks - n;
      ghost var popped := to[..count];
      SplitCount(Free(), popped, full);
      forall x | x in old(memory) && x !in Free() && x !in popped ensures x in memory && memory[x] == old(memory)[x] {
        assert x !in full;
        assert x in old@Filled(memory);
      }
    }

    static lemma SplitCount(free: multiset<nat>, popped: seq<nat>, full: multiset<nat>)
      requires free + multiset(popped) == full
      ensures |full| == |free| + |popped|
      ensures forall x | x in full :: x in free || x in popped
    {
    }
  }
}

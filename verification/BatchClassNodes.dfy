/** The free list of the batch class, whose nodes live in the very blocks they record
    (primary64.h pushBatchClassBlocks).  Memory maps each carved block to what is written
    at its start; the list is read off it. */
module BatchClassNodes {

  import opened FreeListTypes

  datatype Pointer = Null | To(block: nat)

  /** The contents of a block of the batch class. */
  datatype Node =
    | Raw
    | GroupNode(first: Pointer, last: Pointer, size: nat)
    | BatchNode(next: Pointer, blocks: seq<nat>)

  /** How often each block is recorded by the batches. */
  function Recorded(batches: seq<TransferBatch>): multiset<nat> {
    if batches == [] then multiset{} else multiset(batches[0].blocks) + Recorded(batches[1..])
  }

  /** The free blocks: all that the batches record, or the lone group block. */
  function FreeBlocks(front: Pointer, batches: seq<TransferBatch>): multiset<nat> {
    if batches == [] && front.To? then multiset{front.block} else Recorded(batches)
  }

  function BatchAt(batches: seq<TransferBatch>, i: int): Pointer {
    if 0 <= i < |batches| then To(batches[i].addr) else Null
  }

  ghost predicate Chained(memory: map<nat, Node>, batches: seq<TransferBatch>) {
    forall i | 0 <= i < |batches| :: ChainedAt(memory, batches, i)
  }

  predicate ChainedAt(memory: map<nat, Node>, batches: seq<TransferBatch>, i: nat)
    requires i < |batches|
  {
    batches[i].addr in memory && memory[batches[i].addr] == BatchNode(BatchAt(batches, i + 1), batches[i].blocks)
  }

  /** Every batch records itself. */
  predicate SelfContained(batches: seq<TransferBatch>, max: nat) {
    forall i | 0 <= i < |batches| :: batches[i].addr in batches[i].blocks && |batches[i].blocks| <= max
  }

  ghost predicate EachOnce(blocks: multiset<nat>) {
    forall x: nat :: blocks[x] <= 1
  }

  /** The list in memory: a group block with its batches linked behind it, every batch
      recording itself and the last one the group; no block recorded twice. */
  ghost predicate ListOk(memory: map<nat, Node>, front: Pointer, batches: seq<TransferBatch>, max: nat) {
    && EachOnce(FreeBlocks(front, batches))
    && (forall x: nat | x in FreeBlocks(front, batches) :: x in memory)
    && match front
       case Null => batches == []
       case To(g) =>
         && g in memory
         && memory[g] == GroupNode(BatchAt(batches, 0), BatchAt(batches, |batches| - 1), |batches|)
         && Chained(memory, batches) && SelfContained(batches, max)
         && (batches != [] ==> g in batches[|batches| - 1].blocks)
         && (forall i | 0 <= i < |batches| :: batches[i].addr != g)
  }

  // ------------------------------------------------------------------ counting blocks

  lemma {:induction false} RecordedHas(batches: seq<TransferBatch>, i: nat, x: nat)
    requires i < |batches| && x in batches[i].blocks
    ensures x in Recorded(batches)
  {
    if i == 0 {
    } else {
      assert batches[1..][i - 1] == batches[i];
      RecordedHas(batches[1..], i - 1, x);
    }
  }

  lemma {:induction false} RecordedFrom(batches: seq<TransferBatch>, x: nat) returns (i: nat)
    requires x in Recorded(batches)
    ensures i < |batches| && x in batches[i].blocks
  {
    if x in batches[0].blocks {
      i := 0;
    } else {
      var j := RecordedFrom(batches[1..], x);
      i := j + 1;
    }
  }

  /** Two batches share no block. */
  lemma {:induction false} RecordedOnce(batches: seq<TransferBatch>, i: nat, j: nat, x: nat)
    requires EachOnce(Recorded(batches)) && i < j < |batches|
    requires x in batches[i].blocks
    ensures x !in batches[j].blocks
  {
    if i == 0 {
      assert batches[1..][j - 1] == batches[j];
      if x in batches[j].blocks {
        RecordedHas(batches[1..], j - 1, x);
        var twice := Recorded(batches)[x];
        assert false;
      }
    } else {
      var rest := batches[1..];
      forall y: nat ensures Recorded(rest)[y] <= 1 {
        assert Recorded(batches)[y] <= 1;
      }
      assert rest[i - 1] == batches[i] && rest[j - 1] == batches[j];
      RecordedOnce(rest, i - 1, j - 1, x);
    }
  }

  lemma AddressesDiffer(batches: seq<TransferBatch>, max: nat)
    requires EachOnce(Recorded(batches)) && SelfContained(batches, max)
    ensures forall i, j | 0 <= i < j < |batches| :: batches[i].addr != batches[j].addr
  {
    forall i, j | 0 <= i < j < |batches| ensures batches[i].addr != batches[j].addr {
      RecordedOnce(batches, i, j, batches[i].addr);
    }
  }

  /** A block that is not free is no node of the list. */
  lemma NotFreeNotANode(memory: map<nat, Node>, front: Pointer, batches: seq<TransferBatch>, max: nat, x: nat)
    requires ListOk(memory, front, batches, max) && x !in FreeBlocks(front, batches)
    ensures front != To(x)
    ensures forall i | 0 <= i < |batches| :: batches[i].addr != x
  {
    forall i | 0 <= i < |batches| ensures batches[i].addr != x {
      if batches[i].addr == x {
        RecordedHas(batches, i, x);
      }
    }
    if front == To(x) && batches != [] {
      RecordedHas(batches, |batches| - 1, x);
    }
  }

  lemma ChainedElsewhere(memory: map<nat, Node>, batches: seq<TransferBatch>, x: nat, node: Node)
    requires Chained(memory, batches) && forall i | 0 <= i < |batches| :: batches[i].addr != x
    ensures Chained(memory[x := node], batches)
  {
    var m := memory[x := node];
    forall i | 0 <= i < |batches| ensures ChainedAt(m, batches, i) {
      assert ChainedAt(memory, batches, i);
    }
  }

  /** Writing to a block that is not free leaves the list alone. */
  lemma WriteOutside(memory: map<nat, Node>, front: Pointer, batches: seq<TransferBatch>, max: nat, x: nat, node: Node)
    requires ListOk(memory, front, batches, max) && x in memory && x !in FreeBlocks(front, batches)
    ensures ListOk(memory[x := node], front, batches, max)
  {
    NotFreeNotANode(memory, front, batches, max, x);
    ChainedElsewhere(memory, batches, x, node);
  }

  /** What a reader of the list finds in memory. */
  lemma GroupReads(memory: map<nat, Node>, g: nat, batches: seq<TransferBatch>, max: nat)
    requires ListOk(memory, To(g), batches, max)
    ensures g in memory && g in FreeBlocks(To(g), batches)
    ensures memory[g] == GroupNode(BatchAt(batches, 0), BatchAt(batches, |batches| - 1), |batches|)
    ensures batches != [] ==>
      && batches[0].addr in memory && batches[0].addr in FreeBlocks(To(g), batches) && batches[0].addr != g
      && memory[batches[0].addr] == BatchNode(BatchAt(batches, 1), batches[0].blocks)
      && |batches[0].blocks| <= max
  {
    if batches != [] {
      assert ChainedAt(memory, batches, 0);
      RecordedHas(batches, |batches| - 1, g);
      RecordedHas(batches, 0, batches[0].addr);
    }
  }

  // ------------------------------------------------------------------ list surgery

  function PushFront(memory: map<nat, Node>, g: nat, x: nat): (m: map<nat, Node>)
    requires g in memory && memory[g].GroupNode? && x in memory && memory[x].BatchNode?
  {
    var group := memory[g];
    memory[x := memory[x].(next := group.first)]
          [g := GroupNode(To(x), if group.last == Null then To(x) else group.last, group.size + 1)]
  }

  lemma PushFrontFrame(memory: map<nat, Node>, g: nat, x: nat)
    requires g in memory && memory[g].GroupNode? && x in memory && memory[x].BatchNode? && x != g
    ensures g in PushFront(memory, g, x)
    ensures PushFront(memory, g, x)[g] ==
      GroupNode(To(x), if memory[g].last == Null then To(x) else memory[g].last, memory[g].size + 1)
    ensures PushFront(memory, g, x).Keys == memory.Keys
    ensures forall y | y in memory && y != x && y != g :: PushFront(memory, g, x)[y] == memory[y]
  {
  }

  /** A fresh block becomes a batch of itself in front of the others. */
  lemma PushFrontKeeps(memory: map<nat, Node>, g: nat, batches: seq<TransferBatch>, max: nat, x: nat)
    requires ListOk(memory, To(g), batches, max) && batches != [] && max > 0
    requires x in memory && x !in FreeBlocks(To(g), batches) && x != g
    ensures
      var front := [TransferBatch(x, [x])] + batches;
      && ListOk(PushFront(memory[x := BatchNode(Null, [x])], g, x), To(g), front, max)
      && FreeBlocks(To(g), front) == FreeBlocks(To(g), batches) + multiset{x}
  {
    NotFreeNotANode(memory, To(g), batches, max, x);
    PushedRecords(batches, x);
    PushedChain(memory, g, batches, x, max);
    FreshStaysUnique(FreeBlocks(To(g), batches), [x]);
    var front := [TransferBatch(x, [x])] + batches;
    PushFrontFrame(memory[x := BatchNode(Null, [x])], g, x);
    PushedEnds(batches, x, g, front);
    PushedShape(memory, g, batches, max, x, front, PushFront(memory[x := BatchNode(Null, [x])], g, x));
  }

  lemma PushedShape(memory: map<nat, Node>, g: nat, batches: seq<TransferBatch>, max: nat, x: nat,
                    front: seq<TransferBatch>, m: map<nat, Node>)
    requires ListOk(memory, To(g), batches, max) && batches != [] && x in memory && m.Keys == memory.Keys
    requires Recorded(front) == Recorded(batches) + multiset([x]) && EachOnce(Recorded(batches) + multiset([x]))
    requires Chained(m, front) && SelfContained(front, max)
    requires |front| == |batches| + 1 && front[|front| - 1] == batches[|batches| - 1]
    requires forall i | 0 <= i < |front| :: front[i].addr != g
    requires g in m && m[g] == GroupNode(BatchAt(front, 0), BatchAt(front, |front| - 1), |front|)
    ensures ListOk(m, To(g), front, max)
  {
    hide Recorded, Chained, SelfContained, EachOnce, BatchAt;
    forall y: nat | y in Recorded(front) ensures y in m.Keys {
      assert y == x || y in Recorded(batches);
    }
  }

  lemma PushedEnds(batches: seq<TransferBatch>, x: nat, g: nat, front: seq<TransferBatch>)
    requires batches != [] && front == [TransferBatch(x, [x])] + batches && x != g
    requires forall i | 0 <= i < |batches| :: batches[i].addr != g
    ensures |front| == |batches| + 1 && front[|front| - 1] == batches[|batches| - 1]
    ensures BatchAt(front, 0) == To(x) && BatchAt(front, |front| - 1) == BatchAt(batches, |batches| - 1) != Null
    ensures forall i | 0 <= i < |front| :: front[i].addr != g
  {
    forall i | 0 <= i < |front| ensures front[i].addr != g {
      if i > 0 {
        assert front[i] == batches[i - 1];
      }
    }
  }

  lemma PushedRecords(batches: seq<TransferBatch>, x: nat)
    ensures Recorded([TransferBatch(x, [x])] + batches) == Recorded(batches) + multiset([x])
    ensures EachOnce(multiset([x]))
  {
    var front := [TransferBatch(x, [x])] + batches;
    assert front[1..] == batches;
  }

  lemma PushedChain(memory: map<nat, Node>, g: nat, batches: seq<TransferBatch>, x: nat, max: nat)
    requires g in memory && memory[g].GroupNode? && memory[g].first == BatchAt(batches, 0)
    requires Chained(memory, batches) && SelfContained(batches, max) && max > 0 && x != g
    requires forall i | 0 <= i < |batches| :: batches[i].addr != x && batches[i].addr != g
    requires x in memory
    ensures
      var front := [TransferBatch(x, [x])] + batches;
      && Chained(PushFront(memory[x := BatchNode(Null, [x])], g, x), front)
      && SelfContained(front, max)
  {
    var front := [TransferBatch(x, [x])] + batches;
    assert forall i | 0 < i < |front| :: front[i] == batches[i - 1];
    var m := PushFront(memory[x := BatchNode(Null, [x])], g, x);
    forall i | 0 <= i < |front| ensures ChainedAt(m, front, i) {
      if i > 0 {
        assert ChainedAt(memory, batches, i - 1);
      }
    }
  }

  /** The first batch, on the last block pushed: it records itself and the group. */
  lemma FirstBatchKeeps(memory: map<nat, Node>, g: nat, max: nat, x: nat)
    requires ListOk(memory, To(g), [], max) && max >= 2
    requires x in memory && x != g
    ensures
      var first := [TransferBatch(x, [x, g])];
      && ListOk(PushFront(memory[x := BatchNode(Null, [x, g])], g, x), To(g), first, max)
      && FreeBlocks(To(g), first) == FreeBlocks(To(g), []) + multiset{x}
  {
    var first := [TransferBatch(x, [x, g])];
    assert first[1..] == [];
    assert multiset(first[0].blocks) == multiset{x, g};
    assert Recorded(first) == multiset{x, g} + Recorded([]);
    assert memory[g] == GroupNode(Null, Null, 0);
  }

  lemma NewGroupKeeps(memory: map<nat, Node>, max: nat, g: nat)
    requires g in memory
    ensures ListOk(memory[g := GroupNode(Null, Null, 0)], To(g), [], max)
    ensures FreeBlocks(To(g), []) == multiset{g} && FreeBlocks(Null, []) == multiset{}
  {
  }

  function Appended(batches: seq<TransferBatch>, xs: seq<nat>): seq<TransferBatch>
    requires batches != []
  {
    [TransferBatch(batches[0].addr, batches[0].blocks + xs)] + batches[1..]
  }

  ghost predicate Fresh(xs: seq<nat>, memory: map<nat, Node>, free: multiset<nat>) {
    && EachOnce(multiset(xs))
    && forall x | x in xs :: x in memory && x !in free
  }

  lemma AppendedRecords(batches: seq<TransferBatch>, xs: seq<nat>)
    requires batches != []
    ensures Recorded(Appended(batches, xs)) == Recorded(batches) + multiset(xs)
  {
    var after := Appended(batches, xs);
    assert after[1..] == batches[1..];
    assert multiset(after[0].blocks) == multiset(batches[0].blocks) + multiset(xs);
  }

  lemma FreshStaysUnique(free: multiset<nat>, xs: seq<nat>)
    requires EachOnce(free) && EachOnce(multiset(xs)) && forall x | x in xs :: x !in free
    ensures EachOnce(free + multiset(xs))
  {
    forall x: nat ensures (free + multiset(xs))[x] <= 1 {
      assert multiset(xs)[x] <= 1 && free[x] <= 1;
      if x in xs {
        assert free[x] == 0;
      } else {
        assert multiset(xs)[x] == 0;
      }
    }
  }

  /** Blocks appended to the front batch, where there is room. */
  lemma AppendKeeps(memory: map<nat, Node>, g: nat, batches: seq<TransferBatch>, max: nat, xs: seq<nat>)
    requires ListOk(memory, To(g), batches, max) && batches != []
    requires |batches[0].blocks| + |xs| <= max && Fresh(xs, memory, FreeBlocks(To(g), batches))
    ensures
      var b := batches[0];
      && ListOk(memory[b.addr := BatchNode(BatchAt(batches, 1), b.blocks + xs)], To(g), Appended(batches, xs), max)
      && FreeBlocks(To(g), Appended(batches, xs)) == FreeBlocks(To(g), batches) + multiset(xs)
  {
    AddressesDiffer(batches, max);
    AppendedRecords(batches, xs);
    FreshStaysUnique(FreeBlocks(To(g), batches), xs);
    hide EachOnce, Recorded;
    var after := Appended(batches, xs);
    assert forall i | 0 < i < |after| :: after[i] == batches[i];
    assert after[0].blocks == batches[0].blocks + xs && after[0].addr == batches[0].addr;
    AppendedChain(memory, batches, xs, max);
    hide Chained, SelfContained;
  }

  lemma AppendedChain(memory: map<nat, Node>, batches: seq<TransferBatch>, xs: seq<nat>, max: nat)
    requires batches != [] && Chained(memory, batches) && SelfContained(batches, max)
    requires |batches[0].blocks| + |xs| <= max
    requires forall i, j | 0 <= i < j < |batches| :: batches[i].addr != batches[j].addr
    ensures
      var b := batches[0];
      && Chained(memory[b.addr := BatchNode(BatchAt(batches, 1), b.blocks + xs)], Appended(batches, xs))
      && SelfContained(Appended(batches, xs), max)
  {
    var after := Appended(batches, xs);
    assert forall i | 0 < i < |after| :: after[i] == batches[i];
    var b := batches[0];
    var m := memory[b.addr := BatchNode(BatchAt(batches, 1), b.blocks + xs)];
    forall i | 0 <= i < |after| ensures ChainedAt(m, after, i) {
      assert ChainedAt(memory, batches, i);
    }
  }

  /** The front batch leaves with all its blocks; the last one takes the group along. */
  lemma PopKeeps(memory: map<nat, Node>, g: nat, batches: seq<TransferBatch>, max: nat)
    requires ListOk(memory, To(g), batches, max) && batches != []
    ensures
      var rest := batches[1..];
      && (rest == [] ==> ListOk(memory, Null, [], max) && FreeBlocks(Null, []) == multiset{})
      && (rest != [] ==> ListOk(memory[g := GroupNode(BatchAt(batches, 1), memory[g].last, |rest|)], To(g), rest, max))
      && FreeBlocks(To(g), batches) == multiset(batches[0].blocks) + Recorded(rest)
  {
    var rest := batches[1..];
    assert forall i | 0 <= i < |rest| :: rest[i] == batches[i + 1];
    if rest != [] {
      var after := memory[g := GroupNode(BatchAt(batches, 1), memory[g].last, |rest|)];
      forall i | 0 <= i < |rest| ensures ChainedAt(after, rest, i) {
        assert ChainedAt(memory, batches, i + 1);
      }
      forall x: nat ensures FreeBlocks(To(g), rest)[x] <= 1 && (x in FreeBlocks(To(g), rest) ==> x in memory) {
        assert Recorded(batches)[x] <= 1;
        assert x in Recorded(rest) ==> x in Recorded(batches);
      }
    }
  }

  /** Part of a fresh array stays fresh once the other part is on the list. */
  lemma FreshSplit(xs: seq<nat>, ys: seq<nat>, memory: map<nat, Node>, free: multiset<nat>)
    requires Fresh(xs + ys, memory, free)
    ensures Fresh(xs, memory, free) && Fresh(ys, memory, free)
    ensures Fresh(ys, memory, free + multiset(xs)) && Fresh(xs, memory, free + multiset(ys))
  {
    var all := xs + ys;
    assert multiset(all) == multiset(xs) + multiset(ys);
    var counts: multiset<nat> := multiset(all);
    forall x: nat ensures multiset(xs)[x] <= 1 && multiset(ys)[x] <= 1 && multiset(xs)[x] + multiset(ys)[x] <= 1 {
      assert counts[x] <= 1;
    }
    assert forall x | x in xs :: x in all;
    assert forall x | x in ys :: x in all;
    assert forall x | x in xs :: multiset(xs)[x] >= 1;
    assert forall x | x in ys :: multiset(ys)[x] >= 1;
  }

  /** The blocks base, base + 1, ..., in the order they are carved. */
  function Consecutive(base: nat, n: nat): (xs: seq<nat>)
    ensures |xs| == n && forall i | 0 <= i < n :: xs[i] == base + i
  {
    if n == 0 then [] else Consecutive(base, n - 1) + [base + n - 1]
  }

  lemma {:induction false} ConsecutiveDistinct(base: nat, n: nat)
    ensures EachOnce(multiset(Consecutive(base, n)))
  {
    if n == 0 {
    } else {
      var before, last := Consecutive(base, n - 1), base + n - 1;
      ConsecutiveDistinct(base, n - 1);
      assert last !in before;
      assert Consecutive(base, n) == before + [last];
      OneMoreDistinct(before, last);
    }
  }

  lemma OneMoreDistinct(xs: seq<nat>, x: nat)
    requires EachOnce(multiset(xs)) && x !in xs
    ensures EachOnce(multiset(xs + [x]))
  {
    var counts: multiset<nat> := multiset(xs);
    assert multiset(xs + [x]) == counts + multiset{x};
    forall y: nat ensures (counts + multiset{x})[y] <= 1 {
      assert counts[y] <= 1;
    }
  }

  lemma ConsecutiveSplit(base: nat, m: nat, n: nat)
    ensures Consecutive(base, m + n) == Consecutive(base, m) + Consecutive(base + m, n)
  {
  }
}

/** Merging two groups of the same base (primary64.h mergeGroupsToReleaseBack): the two
    front batches may both be partly filled, and only one of them may stay so. */
module GroupMerge {

  import opened Arithmetic
  import opened BatchClassNodes
  import opened FreeListTypes
  import opened GroupLists
  import opened GroupSort

  /** The blocks of a list of batches, whatever their order. */
  lemma BlocksOf(front: TransferBatch, rest: seq<TransferBatch>)
    ensures multiset(Blocks([front] + rest)) == multiset(front.blocks) + multiset(Blocks(rest))
    ensures BatchNodes([front] + rest) == multiset{front.addr} + BatchNodes(rest)
  {
    assert ([front] + rest)[1..] == rest;
    assert Blocks([front] + rest) == front.blocks + Blocks(rest);
  }

  lemma AppendBack(a: seq<TransferBatch>, b: seq<TransferBatch>)
    ensures multiset(Blocks(a + b)) == multiset(Blocks(a)) + multiset(Blocks(b))
    ensures BatchNodes(a + b) == BatchNodes(a) + BatchNodes(b)
  {
    BlocksConcat(a, b);
    BatchNodesConcat(a, b);
  }

  /** appendFromTransferBatch: the last `n` blocks of `from` move to the end of `to`. */
  function MoveBlocks(to: TransferBatch, from: TransferBatch, n: nat): (TransferBatch, TransferBatch)
    requires n <= |from.blocks|
  {
    var keep := |from.blocks| - n;
    (to.(blocks := to.blocks + from.blocks[keep..]), from.(blocks := from.blocks[..keep]))
  }

  function BlockOf(p: Pointer): multiset<nat> {
    if p.To? then multiset{p.block} else multiset{}
  }

  /** The batches of `bg` with those of `cur` merged in, and the block of a batch left
      empty by it, if any. */
  method MergeBatches(bg: seq<TransferBatch>, cur: seq<TransferBatch>, max: nat)
    returns (merged: seq<TransferBatch>, unused: Pointer)
    requires OnlyFrontPartial(bg, max) && OnlyFrontPartial(cur, max)
    ensures OnlyFrontPartial(merged, max)
    ensures multiset(Blocks(merged)) == multiset(Blocks(bg)) + multiset(Blocks(cur))
    ensures BatchNodes(merged) + BlockOf(unused) == BatchNodes(bg) + BatchNodes(cur)
  {
    hide Blocks, BatchNodes;
    unused := Null;
    if |cur[0].blocks| == max {
      AppendBack(bg, cur);
      merged := bg + cur;
    } else {
      var nonFull, rest := cur[0], cur[1..];
      assert cur == [nonFull] + rest;
      BlocksOf(nonFull, rest);
      AppendBack(bg, rest);
      merged, unused := PutNonFull(bg + rest, nonFull, max);
    }
  }

  /** A partly filled batch joins batches of which only the front may be partly filled. */
  method PutNonFull(batches: seq<TransferBatch>, nonFull: TransferBatch, max: nat)
    returns (merged: seq<TransferBatch>, unused: Pointer)
    requires OnlyFrontPartial(batches, max) && 0 < |nonFull.blocks| < max
    ensures OnlyFrontPartial(merged, max)
    ensures multiset(Blocks(merged)) == multiset(Blocks(batches)) + multiset(nonFull.blocks)
    ensures BatchNodes(merged) + BlockOf(unused) == BatchNodes(batches) + multiset{nonFull.addr}
  {
    hide Blocks, BatchNodes;
    unused := Null;
    if |batches[0].blocks| == max {
      BlocksOf(nonFull, batches);
      merged := [nonFull] + batches;
    } else {
      var n := Min(max - |batches[0].blocks|, |nonFull.blocks|);
      var (to, from) := MoveBlocks(batches[0], nonFull, n);
      MoveKeeps(batches, nonFull, n);
      merged := [to] + batches[1..];
      if from.blocks == [] {
        unused := To(from.addr);
        assert multiset(from.blocks) == multiset{};
      } else {
        BlocksOf(from, merged);
        merged := [from] + merged;
      }
    }
  }

  lemma MoveKeeps(batches: seq<TransferBatch>, from: TransferBatch, n: nat)
    requires batches != [] && n <= |from.blocks|
    ensures
      var (to, left) := MoveBlocks(batches[0], from, n);
      var after := [to] + batches[1..];
      && multiset(Blocks(after)) + multiset(left.blocks) == multiset(Blocks(batches)) + multiset(from.blocks)
      && BatchNodes(after) == BatchNodes(batches)
  {
    hide Blocks, BatchNodes;
    var (to, left) := MoveBlocks(batches[0], from, n);
    var keep := |from.blocks| - n;
    assert from.blocks == from.blocks[..keep] + from.blocks[keep..];
    assert batches == [batches[0]] + batches[1..];
    BlocksOf(batches[0], batches[1..]);
    BlocksOf(to, batches[1..]);
  }

  /** The merged group. */
  method MergeGroups(bg: BatchGroup, cur: BatchGroup, max: nat, ghost span: nat)
    returns (g: BatchGroup, unused: Pointer)
    requires span > 0 && GroupOk(bg, max, span) && GroupOk(cur, max, span) && bg.groupBase == cur.groupBase
    ensures GroupOk(g, max, span) && g.groupBase == bg.groupBase && g.addr == bg.addr
    ensures g.bytesAtLastCheckpoint == cur.bytesAtLastCheckpoint
    ensures multiset(Blocks(g.batches)) == multiset(Blocks(bg.batches)) + multiset(Blocks(cur.batches))
    ensures GroupNodes(g) + multiset{cur.addr} + BlockOf(unused)
      == GroupNodes(bg) + GroupNodes(cur)
  {
    hide Blocks, BatchNodes, Group, OnlyFrontPartial;
    var merged;
    merged, unused := MergeBatches(bg.batches, cur.batches, max);
    g := bg.(bytesAtLastCheckpoint := cur.bytesAtLastCheckpoint, batches := merged);
    Rearrange(multiset{bg.addr}, BatchNodes(merged), multiset{cur.addr},
              BlockOf(unused), BatchNodes(bg.batches), BatchNodes(cur.batches));
    forall p | p in Blocks(merged) ensures Group(p, span) == bg.groupBase {
      assert p in multiset(Blocks(merged));
      assert p in multiset(Blocks(bg.batches)) || p in multiset(Blocks(cur.batches));
    }
  }

  lemma Rearrange(g: multiset<nat>, m: multiset<nat>, c: multiset<nat>, u: multiset<nat>, b: multiset<nat>,
                  d: multiset<nat>)
    requires m + u == b + d
    ensures g + m + c + u == (g + b) + (c + d)
  {
    forall x ensures (g + m + c + u)[x] == ((g + b) + (c + d))[x] {
      assert (m + u)[x] == (b + d)[x];
    }
  }
}

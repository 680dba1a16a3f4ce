/** Lists of batch groups as values: which blocks they hold, which class-0 blocks they are
    built in, and the shape every operation of the primary allocator keeps. */
module GroupLists {

  import opened FreeListTypes
  import opened GroupSort

  function AllBlocks(groups: seq<BatchGroup>): multiset<nat> {
    if groups == [] then multiset{} else multiset(Blocks(groups[0].batches)) + AllBlocks(groups[1..])
  }

  function BatchNodes(batches: seq<TransferBatch>): multiset<nat> {
    if batches == [] then multiset{} else multiset{batches[0].addr} + BatchNodes(batches[1..])
  }

  function GroupNodes(g: BatchGroup): multiset<nat> {
    multiset{g.addr} + BatchNodes(g.batches)
  }

  /** The blocks of the batch class in use as nodes. */
  function Nodes(groups: seq<BatchGroup>): multiset<nat> {
    if groups == [] then multiset{} else GroupNodes(groups[0]) + Nodes(groups[1..])
  }

  /** The groups apart from their checkpoints. */
  function Bare(groups: seq<BatchGroup>): multiset<BatchGroup> {
    if groups == [] then multiset{} else multiset{groups[0].(bytesAtLastCheckpoint := 0)} + Bare(groups[1..])
  }

  /** Every block of a group is of that group. */
  ghost predicate Home(g: BatchGroup, span: nat)
    requires span > 0
  {
    forall p | p in Blocks(g.batches) :: Group(p, span) == g.groupBase
  }

  ghost predicate GroupOk(g: BatchGroup, max: nat, span: nat)
    requires span > 0
  {
    OnlyFrontPartial(g.batches, max) && Home(g, span)
  }

  /** A group about to receive blocks may have an empty front batch. */
  ghost predicate GroupOpen(g: BatchGroup, max: nat, span: nat)
    requires span > 0
  {
    && g.batches != [] && |g.batches[0].blocks| <= max
    && (forall i | 0 < i < |g.batches| :: |g.batches[i].blocks| == max)
    && Home(g, span)
  }

  predicate Sorted(groups: seq<BatchGroup>) {
    forall i, j | 0 <= i < j < |groups| :: groups[i].groupBase < groups[j].groupBase
  }

  ghost predicate GroupsOk(groups: seq<BatchGroup>, max: nat, span: nat)
    requires span > 0
  {
    Sorted(groups) && forall i | 0 <= i < |groups| :: GroupOk(groups[i], max, span)
  }

  ghost predicate ListOpenAt(groups: seq<BatchGroup>, k: nat, max: nat, span: nat)
    requires span > 0
  {
    && Sorted(groups) && k < |groups| && GroupOpen(groups[k], max, span)
    && forall i | 0 <= i < |groups| && i != k :: GroupOk(groups[i], max, span)
  }

  // ------------------------------------------------------------------ sums

  lemma {:induction false} ConcatBlocks(a: seq<BatchGroup>, b: seq<BatchGroup>)
    ensures AllBlocks(a + b) == AllBlocks(a) + AllBlocks(b)
  {
    hide Blocks, GroupNodes;
    if a == [] {
      assert a + b == b;
    } else {
      assert (a + b)[1..] == a[1..] + b;
      ConcatBlocks(a[1..], b);
    }
  }

  lemma {:induction false} ConcatNodes(a: seq<BatchGroup>, b: seq<BatchGroup>)
    ensures Nodes(a + b) == Nodes(a) + Nodes(b)
  {
    hide Blocks, GroupNodes;
    if a == [] {
      assert a + b == b;
    } else {
      assert (a + b)[1..] == a[1..] + b;
      ConcatNodes(a[1..], b);
    }
  }

  lemma {:induction false} ConcatBare(a: seq<BatchGroup>, b: seq<BatchGroup>)
    ensures Bare(a + b) == Bare(a) + Bare(b)
  {
    hide Blocks, GroupNodes;
    if a == [] {
      assert a + b == b;
    } else {
      assert (a + b)[1..] == a[1..] + b;
      ConcatBare(a[1..], b);
    }
  }

  lemma Concat(a: seq<BatchGroup>, b: seq<BatchGroup>)
    ensures AllBlocks(a + b) == AllBlocks(a) + AllBlocks(b)
    ensures Nodes(a + b) == Nodes(a) + Nodes(b)
    ensures Bare(a + b) == Bare(a) + Bare(b)
  {
    ConcatBlocks(a, b);
    ConcatNodes(a, b);
    ConcatBare(a, b);
  }

  lemma One(g: BatchGroup)
    ensures AllBlocks([g]) == multiset(Blocks(g.batches)) && Nodes([g]) == GroupNodes(g)
    ensures Bare([g]) == multiset{g.(bytesAtLastCheckpoint := 0)}
  {
    assert [g][1..] == [];
  }

  lemma SplitAt(groups: seq<BatchGroup>, k: nat)
    requires k < |groups|
    ensures AllBlocks(groups) ==
      AllBlocks(groups[..k]) + multiset(Blocks(groups[k].batches)) + AllBlocks(groups[k + 1..])
    ensures Nodes(groups) == Nodes(groups[..k]) + GroupNodes(groups[k]) + Nodes(groups[k + 1..])
    ensures Bare(groups) == Bare(groups[..k]) + multiset{groups[k].(bytesAtLastCheckpoint := 0)} + Bare(groups[k + 1..])
  {
    hide AllBlocks, Bare, Nodes, GroupNodes, Blocks;
    var l, r := groups[..k], groups[k + 1..];
    assert groups == l + ([groups[k]] + r);
    Concat(l, [groups[k]] + r);
    Concat([groups[k]], r);
    One(groups[k]);
  }

  lemma Replace(groups: seq<BatchGroup>, k: nat, g: BatchGroup)
    requires k < |groups|
    ensures AllBlocks(groups[k := g]) + multiset(Blocks(groups[k].batches)) ==
      AllBlocks(groups) + multiset(Blocks(g.batches))
    ensures Nodes(groups[k := g]) + GroupNodes(groups[k]) == Nodes(groups) + GroupNodes(g)
  {
    hide AllBlocks, Nodes, GroupNodes, Blocks;
    var after := groups[k := g];
    SplitAt(groups, k);
    SplitAt(after, k);
    assert after[..k] == groups[..k] && after[k + 1..] == groups[k + 1..];
  }

  lemma Insert(groups: seq<BatchGroup>, k: nat, g: BatchGroup)
    requires k <= |groups|
    ensures AllBlocks(groups[..k] + [g] + groups[k..]) == AllBlocks(groups) + multiset(Blocks(g.batches))
    ensures Nodes(groups[..k] + [g] + groups[k..]) == Nodes(groups) + GroupNodes(g)
  {
    hide AllBlocks, Nodes, GroupNodes, Blocks;
    var after := groups[..k] + [g] + groups[k..];
    SplitAt(after, k);
    assert after[..k] == groups[..k] && after[k + 1..] == groups[k..];
    Concat(groups[..k], groups[k..]);
    assert groups == groups[..k] + groups[k..];
  }

  lemma {:induction false} BatchNodesConcat(a: seq<TransferBatch>, b: seq<TransferBatch>)
    ensures BatchNodes(a + b) == BatchNodes(a) + BatchNodes(b)
  {
    if a == [] {
      assert a + b == b;
    } else {
      assert (a + b)[1..] == a[1..] + b;
      BatchNodesConcat(a[1..], b);
    }
  }

  lemma Remove(groups: seq<BatchGroup>, k: nat)
    requires k < |groups|
    ensures AllBlocks(groups[..k] + groups[k + 1..]) + multiset(Blocks(groups[k].batches)) == AllBlocks(groups)
    ensures Nodes(groups[..k] + groups[k + 1..]) + GroupNodes(groups[k]) == Nodes(groups)
    ensures Bare(groups[..k] + groups[k + 1..]) + multiset{groups[k].(bytesAtLastCheckpoint := 0)} == Bare(groups)
  {
    hide AllBlocks, Nodes, Bare, GroupNodes, Blocks;
    SplitAt(groups, k);
    Concat(groups[..k], groups[k + 1..]);
  }

  /** A new checkpoint changes nothing else. */
  lemma Checkpoint(groups: seq<BatchGroup>, k: nat, bytes: nat)
    requires k < |groups|
    ensures
      var after := groups[k := groups[k].(bytesAtLastCheckpoint := bytes)];
      AllBlocks(after) == AllBlocks(groups) && Nodes(after) == Nodes(groups) && Bare(after) == Bare(groups)
  {
    hide AllBlocks, Nodes, Bare, Blocks;
    var after := groups[k := groups[k].(bytesAtLastCheckpoint := bytes)];
    SplitAt(groups, k);
    SplitAt(after, k);
    assert after[..k] == groups[..k] && after[k + 1..] == groups[k + 1..];
  }

  // ------------------------------------------------------------------ where blocks are

  lemma {:induction false} BlocksSomewhere(groups: seq<BatchGroup>, p: nat) returns (k: nat)
    requires p in AllBlocks(groups)
    ensures k < |groups| && p in Blocks(groups[k].batches)
  {
    if p in Blocks(groups[0].batches) {
      k := 0;
    } else {
      var j := BlocksSomewhere(groups[1..], p);
      k := j + 1;
    }
  }

  lemma {:induction false} BlocksIncluded(groups: seq<BatchGroup>, k: nat, p: nat)
    requires k < |groups| && p in Blocks(groups[k].batches)
    ensures p in AllBlocks(groups)
  {
    if k == 0 {
    } else {
      assert groups[1..][k - 1] == groups[k];
      BlocksIncluded(groups[1..], k - 1, p);
    }
  }

  lemma FirstBlock(g: BatchGroup, max: nat, span: nat)
    requires span > 0 && GroupOk(g, max, span)
    ensures g.batches[0].blocks[0] in Blocks(g.batches)
  {
    assert Blocks(g.batches)[0] == g.batches[0].blocks[0];
  }

  /** A sorted list holds each block in the one group it belongs to, so the multiset of
      all its blocks says what every group holds, and which groups there are. */
  lemma GroupHoldsItsOwn(groups: seq<BatchGroup>, k: nat, p: nat, max: nat, span: nat)
    requires span > 0 && GroupsOk(groups, max, span) && k < |groups|
    ensures Group(p, span) == groups[k].groupBase ==> multiset(Blocks(groups[k].batches))[p] == AllBlocks(groups)[p]
    ensures Group(p, span) != groups[k].groupBase ==> multiset(Blocks(groups[k].batches))[p] == 0
    ensures exists q :: q in AllBlocks(groups) && Group(q, span) == groups[k].groupBase
  {
    hide Group, AllBlocks, Blocks;
    SplitAt(groups, k);
    assert GroupOk(groups[k], max, span);
    if Group(p, span) == groups[k].groupBase {
      if p in AllBlocks(groups[..k]) {
        var j := BlocksSomewhere(groups[..k], p);
        var here := GroupOk(groups[j], max, span);
        assert false;
      }
      if p in AllBlocks(groups[k + 1..]) {
        var j := BlocksSomewhere(groups[k + 1..], p);
        var here := GroupOk(groups[k + 1 + j], max, span);
        assert false;
      }
    } else {
      assert p !in Blocks(groups[k].batches);
    }
    FirstBlock(groups[k], max, span);
    BlocksIncluded(groups, k, groups[k].batches[0].blocks[0]);
  }
}

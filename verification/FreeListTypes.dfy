/** The nodes of a size class's free list (allocator_common.h): transfer batches
    holding compact block pointers, collected in groups by address range.  Each
    node carries the address of the class-0 block it is built in. */
module FreeListTypes {

  datatype TransferBatch = TransferBatch(addr: nat, blocks: seq<nat>)

  datatype BatchGroup = BatchGroup(
    addr: nat,
    groupBase: nat,
    bytesAtLastCheckpoint: nat,
    batches: seq<TransferBatch>)

  /** All blocks recorded by a list of batches, front batch first. */
  function Blocks(batches: seq<TransferBatch>): seq<nat> {
    if batches == [] then [] else batches[0].blocks + Blocks(batches[1..])
  }

  lemma {:induction false} BlocksConcat(a: seq<TransferBatch>, b: seq<TransferBatch>)
    ensures Blocks(a + b) == Blocks(a) + Blocks(b)
  {
    if a == [] {
      assert a + b == b;
    } else {
      assert (a + b)[1..] == a[1..] + b;
      BlocksConcat(a[1..], b);
    }
  }

  /** Only the front batch of a group may be partly filled, and no batch is empty. */
  ghost predicate OnlyFrontPartial(batches: seq<TransferBatch>, max: nat) {
    && batches != []
    && 0 < |batches[0].blocks| <= max
    && forall i | 0 < i < |batches| :: |batches[i].blocks| == max
  }

  /** The block count as the release code computes it, without a walk. */
  function CountByShape(batches: seq<TransferBatch>, max: nat): nat
    requires batches != []
  {
    (|batches| - 1) * max + |batches[0].blocks|
  }

  lemma {:induction false} FullBatches(batches: seq<TransferBatch>, max: nat)
    requires forall i | 0 <= i < |batches| :: |batches[i].blocks| == max
    ensures |Blocks(batches)| == |batches| * max
  {
    if batches == [] {
    } else {
      FullBatches(batches[1..], max);
      assert |batches| * max == max + (|batches| - 1) * max;
    }
  }

  /** The computed count is the real one whenever only the front batch is partial. */
  lemma CountByShapeExact(batches: seq<TransferBatch>, max: nat)
    requires OnlyFrontPartial(batches, max)
    ensures CountByShape(batches, max) == |Blocks(batches)|
  {
    FullBatches(batches[1..], max);
  }
}

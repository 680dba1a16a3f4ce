/** TransferBatch of allocator_common.h as it is stored: a fixed array of compact block
    pointers of which the first Count are in use.  The free-list models treat a batch
    as the sequence of its pointers; here each operation is shown to do to that
    sequence what those models say. */
module TransferBatches {

  /** Count is 16 bits wide. */
  const U16: nat := 0x1_0000

  class TransferBatch {
    const batch: array<nat>
    var count: nat

    ghost predicate Valid()
      reads this`count
    {
      count <= batch.Length < U16
    }

    /** The pointers the batch holds. */
    ghost function Pointers(): seq<nat>
      requires Valid()
      reads this`count, batch
    {
      batch[..count]
    }

    constructor (maxNumCached: nat)
      requires 0 < maxNumCached < U16
      ensures Valid() && fresh(batch) && batch.Length == maxNumCached && Pointers() == []
    {
      batch := new nat[maxNumCached];
      count := 0;
    }

    method SetFromArray(a: array<nat>, n: nat)
      requires batch.Length < U16 && n <= a.Length && n <= batch.Length && a != batch
      modifies this`count, batch
      ensures Valid() && Pointers() == a[..n]
    {
      count := n;
      forall k | 0 <= k < count {
        batch[k] := a[k];
      }
    }

    method AppendFromArray(a: array<nat>, from: nat, n: nat)
      requires Valid() && from + n <= a.Length && n <= batch.Length - count && a != batch
      modifies this`count, batch
      ensures Valid() && Pointers() == old(Pointers()) + a[from..from + n]
    {
      forall k | 0 <= k < n {
        batch[count + k] := a[from + k];
      }
      count := (count + n) % U16;
      assert batch[..old(count)] == old(batch[..count]);
    }

    /** Appends the last `n` pointers of `b`, which gives them up. */
    method AppendFromTransferBatch(b: TransferBatch, n: nat)
      requires Valid() && b.Valid() && b != this && b.batch != batch
      requires n <= batch.Length - count && n <= b.count
      modifies this`count, batch, b`count
      ensures Valid() && b.Valid()
      ensures old(b.Pointers()) == b.Pointers() + old(b.Pointers())[old(b.count) - n..]
      ensures Pointers() == old(Pointers()) + old(b.Pointers())[old(b.count) - n..]
      ensures |b.Pointers()| == old(b.count) - n
    {
      ghost var held, moved := batch[..count], b.batch[b.count - n..b.count];
      forall k | 0 <= k < n {
        batch[count + k] := b.batch[b.count - n + k];
      }
      assert batch[..count + n] == held + moved;
      count := (count + n) % U16;
      b.count := (b.count - n) % U16;
    }

    method Clear()
      requires batch.Length < U16
      modifies this`count
      ensures Valid() && Pointers() == []
    {
      count := 0;
    }

    method Add(p: nat)
      requires Valid() && count < batch.Length
      modifies this`count, batch
      ensures Valid() && Pointers() == old(Pointers()) + [p]
    {
      batch[count] := p;
      count := (count + 1) % U16;
    }

    method MoveToArray(a: array<nat>)
      requires Valid() && count <= a.Length && a != batch
      modifies this`count, a
      ensures Valid() && Pointers() == [] && a[..old(count)] == old(Pointers())
      ensures a[old(count)..] == old(a[count..])
    {
      forall k | 0 <= k < count {
        a[k] := batch[k];
      }
      Clear();
    }

    /** The last `n` pointers leave, in order. */
    method MoveNToArray(a: array<nat>, n: nat)
      requires Valid() && n <= count && n <= a.Length && a != batch
      modifies this`count, a
      ensures Valid() && old(Pointers()) == Pointers() + a[..n] && a[n..] == old(a[n..])
    {
      forall k | 0 <= k < n {
        a[k] := batch[count - n + k];
      }
      count := (count - n) % U16;
    }

    method GetCount() returns (n: nat)
      requires Valid()
      ensures n == |Pointers()|
    {
      n := count;
    }

    method Get(i: nat) returns (p: nat)
      requires Valid() && i < count
      ensures p == Pointers()[i]
    {
      p := batch[i];
    }
  }
}

/** The per-core operation log shared with the kernel (shared_arena_linux.cpp
    appendLogPagesLocked and initLogRing): one producer under the arena lock, one
    consumer that advances Head on its own.  Head and Tail are 32-bit words that
    wrap around; the producer works from a possibly stale copy of Head. */
module LogRing {

  import opened Arithmetic

  const U32: nat := 0x1_0000_0000
  const PAGE_SIZE: nat := 4096
  const RING_HEADER_BYTES: nat := 36
  const LOG_ENTRY_BYTES: nat := 12

  datatype LogOp = Alloc | Free

  datatype LogEntry = LogEntry(op: LogOp, srcCpu: nat, startPage: nat, numPages: nat)

  /** A 32-bit unsigned word. */
  function Wrap(x: int): (w: nat) {
    x % U32
  }

  /** The powers of two a 32-bit mask can describe. */
  predicate IsRingCapacity(c: nat) {
    c > 0 && U32 % c == 0
  }

  /** `Entries[Tail & LogCapacityMask]` for a power-of-two capacity. */
  function Slot(i: nat, capacity: nat): (s: nat)
    requires capacity > 0
    ensures s < capacity
  {
    i % capacity
  }

  lemma WrapNext(x: nat)
    ensures Wrap(Wrap(x) + 1) == Wrap(x + 1)
  {
    AddMulMod(Wrap(x) + 1, x / U32, U32);
  }

  /** A true distance below 2^32 survives the wrap. */
  lemma WrappedDistance(a: nat, b: nat)
    requires b <= a < b + U32
    ensures Wrap(Wrap(a) - Wrap(b)) == a - b
    ensures Wrap(a) == Wrap(b) <==> a == b
  {
    var qa, qb := a / U32, b / U32;
    assert a == qa * U32 + Wrap(a) && b == qb * U32 + Wrap(b);
    assert (qa - qb) * U32 == qa * U32 - qb * U32;
    var d := Wrap(a) - Wrap(b);
    if qa - qb >= 2 {
      MulMono(2, qa - qb, U32);
      assert false;
    } else if qa - qb < 0 {
      MulMono(qa - qb, -1, U32);
      assert false;
    }
  }

  /** The masked index of a wrapped counter is the index of the true one. */
  lemma WrappedSlot(x: nat, capacity: nat)
    requires IsRingCapacity(capacity)
    ensures Slot(Wrap(x), capacity) == Slot(x, capacity)
  {
    var k := U32 / capacity;
    var q := x / U32;
    assert U32 == k * capacity by {
      DivFacts(U32, capacity);
      assert U32 == (U32 / capacity) * capacity + U32 % capacity;
    }
    assert x == q * U32 + Wrap(x);
    assert q * (k * capacity) == (q * k) * capacity;
    AddMulMod(Wrap(x), q * k, capacity);
  }

  /** Slots are reused only after `capacity` steps. */
  lemma SlotsDiffer(i: nat, j: nat, capacity: nat)
    requires i < j < i + capacity
    ensures Slot(i, capacity) != Slot(j, capacity)
  {
    var a, b := i / capacity, j / capacity;
    DivFacts(i, capacity);
    DivFacts(j, capacity);
    assert i == a * capacity + Slot(i, capacity) && j == b * capacity + Slot(j, capacity);
    if b <= a {
      MulMono(b, a, capacity);
    } else {
      MulMono(a + 1, b, capacity);
      assert (a + 1) * capacity == a * capacity + capacity;
    }
  }

  class Ring {
    const capacity: nat
    const entries: array<LogEntry>
    /** Shared words. */
    var head: nat
    var tail: nat
    var dropped: nat
    /** The producer's private copies. */
    var headCache: nat
    var tailCache: nat
    /** Every entry ever appended, how many the consumer has taken, and how many it
        had taken when `headCache` was read. */
    ghost var produced: seq<LogEntry>
    ghost var consumed: nat
    ghost var seen: nat

    /** The unconsumed entries are intact in the ring. */
    ghost predicate Valid()
      reads this, entries
    {
      && IsRingCapacity(capacity) && capacity < U32 && entries.Length == capacity
      && seen <= consumed <= |produced| <= seen + capacity
      && head == Wrap(consumed) && tail == Wrap(|produced|)
      && headCache == Wrap(seen) && tailCache == tail
      && Intact(entries[..], produced, consumed)
    }

    static ghost predicate Intact(slots: seq<LogEntry>, log: seq<LogEntry>, from: nat)
      requires |slots| > 0
    {
      forall i | from <= i < |log| :: slots[Slot(i, |slots|)] == log[i]
    }

    /** initLogRing: the rest of the page behind the ring header, rounded down to a
        power of two of entries. */
    constructor ()
      ensures Valid() && fresh(entries)
      ensures produced == [] && consumed == 0 && capacity == 256 && dropped == 0
    {
      var rawCapacity := (PAGE_SIZE - RING_HEADER_BYTES) / LOG_ENTRY_BYTES;
      assert Pow2(8) == 256 && Pow2(9) == 512;
      MsbUnique(rawCapacity, 8);
      var size := Pow2(Msb(rawCapacity));
      capacity := size;
      entries := new LogEntry[size](_ => LogEntry(Alloc, 0, 0, 0));
      head, tail, dropped, headCache, tailCache := 0, 0, 0, 0, 0;
      produced, consumed, seen := [], 0, 0;
    }

    /** The kernel takes the next entry, if there is one. */
    method Consume() returns (taken: bool, entry: LogEntry)
      requires Valid()
      modifies this`head, this`consumed
      ensures Valid()
      ensures taken == (old(consumed) < |produced|)
      ensures taken ==> entry == produced[old(consumed)] && consumed == old(consumed) + 1
      ensures !taken ==> consumed == old(consumed)
    {
      hide Wrap, IsRingCapacity, Slot;
      WrappedSlot(consumed, capacity);
      WrappedDistance(|produced|, consumed);
      WrapNext(consumed);
      entry := entries[Slot(head, capacity)];
      taken := head != tail;
      if taken {
        head := Wrap(head + 1);
        consumed := consumed + 1;
      }
    }

    /** Between two steps of the producer the consumer may take any number of entries. */
    method ConsumerRuns(n: nat)
      requires Valid()
      modifies this`head, this`consumed
      ensures Valid() && consumed == Min(old(consumed) + n, |produced|)
    {
      InBounds();
      hide Valid;
      var i := 0;
      while i < n
        invariant 0 <= i <= n && Valid() && consumed == Min(old(consumed) + i, |produced|)
      {
        var taken, entry := Consume();
        i := i + 1;
      }
    }

    lemma InBounds()
      requires Valid()
      ensures seen <= consumed <= |produced| <= consumed + capacity
    {
    }

    /** Refreshes the producer's copy of Head. */
    method LoadHead()
      requires Valid()
      modifies this`headCache, this`seen
      ensures Valid() && seen == consumed
    {
      hide Wrap, IsRingCapacity, Slot;
      headCache := head;
      seen := consumed;
    }

    method Full() returns (full: bool)
      requires Valid()
      ensures full == (|produced| >= seen + capacity)
    {
      hide Wrap, IsRingCapacity, Slot;
      WrappedDistance(|produced|, seen);
      full := Wrap(tailCache - headCache) >= capacity;
    }

    /** Writes one entry behind Tail and publishes it. */
    method Publish(entry: LogEntry)
      requires Valid() && |produced| < seen + capacity
      modifies this`tail, this`tailCache, this`produced, entries
      ensures Valid() && produced == old(produced) + [entry]
    {
      hide Wrap, IsRingCapacity, Slot;
      ghost var t := |produced|;
      WrappedSlot(t, capacity);
      WrapNext(t);
      entries[Slot(tailCache, capacity)] := entry;
      tail := Wrap(tailCache + 1);
      tailCache := tail;
      produced := produced + [entry];
      forall i | consumed <= i < |produced| ensures entries[..][Slot(i, capacity)] == produced[i] {
        if i < t {
          SlotsDiffer(i, t, capacity);
        }
      }
    }

    /** How far the consumer is known to get: Head is reread only while the ring looks full. */
    static function ConsumedAfter(count: nat, known: nat, consumed: nat, capacity: nat, first: nat, second: nat): nat {
      var once := Min(consumed + first, count);
      if count < known + capacity then consumed
      else if count < once + capacity then once
      else Min(once + second, count)
    }

    /** Makes sure there is room for one entry, rereading Head at most twice; `first`
        and `second` say how far the consumer gets before each reading. */
    method Reserve(first: nat, second: nat) returns (ok: bool)
      requires Valid()
      modifies this`head, this`consumed, this`headCache, this`seen, this`dropped
      ensures Valid() && consumed >= old(consumed)
      ensures ok ==> |produced| < seen + capacity
      ensures consumed == ConsumedAfter(|produced|, old(seen), old(consumed), capacity, first, second)
      ensures ok <==> |produced| < consumed + capacity
      ensures dropped == if ok then old(dropped) else Wrap(old(dropped) + 1)
    {
      hide Wrap, IsRingCapacity, Slot, Intact;
      var full := Full();
      if full {
        ConsumerRuns(first);
        LoadHead();
        full := Full();
        if full {
          ConsumerRuns(second);
          LoadHead();
          full := Full();
          if full {
            dropped := Wrap(dropped + 1);
          }
        }
      }
      ok := !full;
    }

    /** Appends one entry unless the size is not a positive number of pages or the
        ring is full; a refusal writes nothing the consumer can see but the count of
        drops. */
    method Append(op: LogOp, srcCpu: nat, startPage: nat, commitSize: nat, first: nat, second: nat)
      returns (ok: bool)
      requires Valid()
      modifies this, entries
      ensures Valid() && consumed >= old(consumed)
      ensures
        var asked := commitSize > 0 && commitSize % PAGE_SIZE == 0;
        && consumed == (if asked
          then ConsumedAfter(old(|produced|), old(seen), old(consumed), capacity, first, second) else old(consumed))
        && (ok <==> asked && old(|produced|) < consumed + capacity)
        && (asked && !ok ==> |produced| == consumed + capacity)
        && dropped == (if asked && !ok then Wrap(old(dropped) + 1) else old(dropped))
      ensures produced == if ok
        then old(produced) + [LogEntry(op, srcCpu, startPage, Wrap(commitSize / PAGE_SIZE))] else old(produced)
      ensures !ok ==> entries[..] == old(entries[..]) && tail == old(tail)
    {
      hide Wrap, IsRingCapacity, Slot, Intact;
      if commitSize == 0 || commitSize % PAGE_SIZE != 0 {
        return false;
      }
      ok := Reserve(first, second);
      if ok {
        Publish(LogEntry(op, srcCpu, startPage, Wrap(commitSize / PAGE_SIZE)));
      }
    }
  }
}

/** The cache of freed large mappings (secondary.h MapAllocatorCache), without memory
    tagging and without its quarantine: an array of entries, the used ones in a list from
    most to least recent, the unused ones in another. */
module SecondaryCache {

  import opened Arithmetic
  import opened Sequences

  const PAGE_SIZE: nat := 4096
  const U32: nat := 0x1_0000_0000
  const U64: nat := 0x1_0000_0000_0000_0000
  const MAX_MALLOC_SIZE: nat := 0x100_0000_0000
  const MAX_ALIGNMENT: nat := 0x100_0000
  /** User-space addresses end well below the top of the address space. */
  const ADDRESS_LIMIT: nat := 0x100_0000_0000_0000
  const NANOSECONDS_PER_MS: nat := 1000000
  const MAX_RELEASED_CACHE_PAGES: nat := 4
  const MAX_UNRELEASED_CACHE_PAGES: nat := 4
  const FRAGMENTED_BYTES_DIVISOR: nat := 10

  /** `mapping` identifies the MemMap; a time of 0 means the pages have been released. */
  datatype CachedBlock = CachedBlock(commitBase: nat, commitSize: nat, mapping: nat, time: nat) {
    predicate IsValid() { commitBase != 0 }

    function End(): nat { commitBase + commitSize }
  }

  ghost predicate Below(items: seq<nat>, n: nat) {
    forall i | 0 <= i < |items| :: items[i] < n
  }

  /** Every index below `n` is in exactly one of the two lists, once. */
  ghost predicate Partition(lru: seq<nat>, avail: seq<nat>, n: nat) {
    && Distinct(lru) && Distinct(avail)
    && Below(lru, n) && Below(avail, n)
    && (forall i | 0 <= i < |lru| :: lru[i] !in avail)
    && |lru| + |avail| == n
  }

  /** The mappings held by the cache. */
  function Mappings(entries: seq<CachedBlock>, lru: seq<nat>): multiset<nat>
    requires Below(lru, |entries|)
  {
    if lru == [] then multiset{} else multiset{entries[lru[0]].mapping} + Mappings(entries, lru[1..])
  }

  ghost predicate EntriesOk(entries: seq<CachedBlock>, lru: seq<nat>) {
    forall i | 0 <= i < |entries| ::
      && (entries[i].IsValid() <==> i in lru)
      && (entries[i].IsValid() ==> entries[i].End() <= ADDRESS_LIMIT && entries[i].commitBase % PAGE_SIZE == 0)
  }

  /** `oldest` is 0 or not later than any unreleased entry; if there is one it is not 0. */
  ghost predicate OldestOk(entries: seq<CachedBlock>, oldest: nat) {
    forall i | 0 <= i < |entries| && entries[i].IsValid() && entries[i].time != 0 :: 0 < oldest <= entries[i].time
  }

  // ------------------------------------------------------------------ list facts

  lemma {:induction false} MappingsConcat(entries: seq<CachedBlock>, a: seq<nat>, b: seq<nat>)
    requires Below(a, |entries|) && Below(b, |entries|)
    ensures Below(a + b, |entries|)
    ensures Mappings(entries, a + b) == Mappings(entries, a) + Mappings(entries, b)
  {
    if a == [] {
      assert a + b == b;
    } else {
      assert (a + b)[1..] == a[1..] + b;
      MappingsConcat(entries, a[1..], b);
    }
  }

  /** Only the mappings of listed entries matter. */
  lemma {:induction false} MappingsFrame(entries: seq<CachedBlock>, entries': seq<CachedBlock>, lru: seq<nat>)
    requires |entries'| == |entries| && Below(lru, |entries|)
    requires forall i | 0 <= i < |lru| :: entries'[lru[i]].mapping == entries[lru[i]].mapping
    ensures Mappings(entries', lru) == Mappings(entries, lru)
  {
    if lru == [] {
    } else {
      MappingsFrame(entries, entries', lru[1..]);
    }
  }

  lemma {:induction false} MappingsRemove(entries: seq<CachedBlock>, lru: seq<nat>, k: nat)
    requires k < |lru| && Below(lru, |entries|)
    ensures Below(lru[..k] + lru[k + 1..], |entries|)
    ensures Mappings(entries, lru[..k] + lru[k + 1..]) + multiset{entries[lru[k]].mapping} == Mappings(entries, lru)
  {
    var l, r := lru[..k], lru[k + 1..];
    assert lru == l + ([lru[k]] + r);
    assert [lru[k]][1..] == [];
    MappingsConcat(entries, l, [lru[k]] + r);
    MappingsConcat(entries, [lru[k]], r);
    MappingsConcat(entries, l, r);
  }

  /** Moving the element at `k` of the first list to the front of the second. */
  lemma PartitionRemove(lru: seq<nat>, avail: seq<nat>, n: nat, k: nat)
    requires Partition(lru, avail, n) && k < |lru|
    ensures Partition(lru[..k] + lru[k + 1..], [lru[k]] + avail, n)
    ensures forall x: nat :: x in lru[..k] + lru[k + 1..] <==> x in lru && x != lru[k]
  {
    var l, a := lru[..k] + lru[k + 1..], [lru[k]] + avail;
    forall i | 0 <= i < |l| ensures l[i] == lru[if i < k then i else i + 1] {
    }
    forall x: nat ensures x in l <==> x in lru && x != lru[k] {
      if x in lru && x != lru[k] {
        var i :| 0 <= i < |lru| && lru[i] == x;
        assert l[if i < k then i else i - 1] == x;
      }
      if x in l {
        var i :| 0 <= i < |l| && l[i] == x;
        var j := if i < k then i else i + 1;
        assert lru[j] == x && (j < k || k < j);
      }
    }
    forall i, j | 0 <= i < j < |l| ensures l[i] != l[j] {
      assert l[i] == lru[if i < k then i else i + 1] && l[j] == lru[if j < k then j else j + 1];
    }
    forall i, j | 0 <= i < j < |a| ensures a[i] != a[j] {
      if i == 0 {
        assert a[j] == avail[j - 1] && avail[j - 1] in avail;
      }
    }
    forall i | 0 <= i < |l| ensures l[i] < n && l[i] !in a {
      assert l[i] in l;
    }
  }

  /** Moving the first element of the second list to the front of the first. */
  lemma PartitionInsert(lru: seq<nat>, avail: seq<nat>, n: nat)
    requires Partition(lru, avail, n) && avail != []
    ensures Partition([avail[0]] + lru, avail[1..], n) && avail[0] !in lru
  {
    var x, l := avail[0], [avail[0]] + lru;
    assert x in avail;
    forall i, j | 0 <= i < j < |l| ensures l[i] != l[j] {
      if i == 0 {
        assert l[j] == lru[j - 1] && lru[j - 1] in lru;
      }
    }
    forall i | 0 <= i < |l| ensures l[i] < n && l[i] !in avail[1..] {
      if i > 0 {
        assert lru[i - 1] !in avail;
      }
    }
  }

  /** From most to least recent, the times of unreleased entries do not increase. */
  ghost predicate TimeSorted(entries: seq<CachedBlock>, lru: seq<nat>)
    requires Below(lru, |entries|)
  {
    forall i, j | 0 <= i < j < |lru| && entries[lru[i]].time != 0 && entries[lru[j]].time != 0 ::
      entries[lru[i]].time >= entries[lru[j]].time
  }

  ghost predicate NotAfter(entries: seq<CachedBlock>, now: nat) {
    forall i | 0 <= i < |entries| :: entries[i].time <= now
  }

  lemma TimeSortedRemove(entries: seq<CachedBlock>, entries': seq<CachedBlock>, lru: seq<nat>, k: nat)
    requires k < |lru| && Below(lru, |entries|) && |entries'| == |entries| && Distinct(lru)
    requires TimeSorted(entries, lru)
    requires forall i | 0 <= i < |entries| :: entries'[i].time == entries[i].time
    ensures Below(lru[..k] + lru[k + 1..], |entries'|) && TimeSorted(entries', lru[..k] + lru[k + 1..])
  {
    var l := lru[..k] + lru[k + 1..];
    assert forall i | 0 <= i < |l| :: l[i] == lru[if i < k then i else i + 1];
  }

  // ------------------------------------------------------------------ does a block fit

  /** Where a request would go in a block, computed in 64-bit words. */
  function AllocPos(b: CachedBlock, size: nat, alignment: nat): nat
    requires alignment > 0
  {
    RoundDown((b.End() - size) % U64, alignment)
  }

  function HeaderPos(b: CachedBlock, size: nat, alignment: nat, headersSize: nat): nat
    requires alignment > 0
  {
    (AllocPos(b, size, alignment) - headersSize) % U64
  }

  /** The tests retrieve makes on each block. */
  predicate Suits(b: CachedBlock, size: nat, alignment: nat, headersSize: nat, maxFragmentedPages: nat)
    requires alignment > 0
  {
    && HeaderPos(b, size, alignment, headersSize) <= b.End()
    && HeaderPos(b, size, alignment, headersSize) >= b.commitBase
    && AllocPos(b, size, alignment) <= b.commitBase + maxFragmentedPages * PAGE_SIZE
  }

  function Diff(b: CachedBlock, size: nat, alignment: nat, headersSize: nat): int
    requires alignment > 0
  {
    RoundDown(HeaderPos(b, size, alignment, headersSize), PAGE_SIZE) - b.commitBase
  }

  predicate CloseEnough(b: CachedBlock, size: nat, alignment: nat, headersSize: nat)
    requires alignment > 0
  {
    Diff(b, size, alignment, headersSize) <=
      (b.End() - HeaderPos(b, size, alignment, headersSize)) / FRAGMENTED_BYTES_DIVISOR
  }

  /** What the front end lets through. */
  predicate IsRequest(size: nat, alignment: nat, headersSize: nat) {
    size < MAX_MALLOC_SIZE && 0 < alignment <= MAX_ALIGNMENT && 0 < headersSize <= PAGE_SIZE
  }

  lemma WrapAround(x: int)
    requires 0 <= x + U64 && x < U64
    ensures x % U64 == if x < 0 then x + U64 else x
  {
  }

  /** A block passes the word tests exactly when the request really fits: header and
      aligned user area inside it, with no more than the allowed waste in front. */
  lemma SuitsMeansFits(b: CachedBlock, size: nat, alignment: nat, headersSize: nat, pages: nat)
    requires IsRequest(size, alignment, headersSize) && b.IsValid() && b.End() <= ADDRESS_LIMIT
    ensures Suits(b, size, alignment, headersSize, pages) <==>
      && size <= b.End()
      && b.commitBase + headersSize <= RoundDown(b.End() - size, alignment) <= b.commitBase + pages * PAGE_SIZE
    ensures Suits(b, size, alignment, headersSize, pages) ==>
      var pos := AllocPos(b, size, alignment);
      && pos % alignment == 0 && pos + size <= b.End()
      && HeaderPos(b, size, alignment, headersSize) + headersSize == pos
  {
    WrapAround(b.End() - size);
    var x := (b.End() - size) % U64;
    DivFacts(x, alignment);
    assert (x / alignment + 1) * alignment == x / alignment * alignment + alignment;
    AddMulMod(0, x / alignment, alignment);
    var pos := AllocPos(b, size, alignment);
    assert x - alignment < pos <= x;
    WrapAround(pos - headersSize);
  }

  /** The same without words that wrap: where the request goes in a block it fits, ... */
  function Place(b: CachedBlock, size: nat, alignment: nat): int
    requires alignment > 0 && size <= b.End()
  {
    (b.End() - size) / alignment * alignment
  }

  /** ... whether it fits, with the header and no more than the allowed waste in front, ... */
  predicate Fits(b: CachedBlock, size: nat, alignment: nat, headersSize: nat, pages: nat)
    requires alignment > 0
  {
    && size <= b.End()
    && b.commitBase + headersSize <= Place(b, size, alignment) <= b.commitBase + pages * PAGE_SIZE
  }

  /** ... and how many bytes of whole pages stay unused in front. */
  function Waste(b: CachedBlock, size: nat, alignment: nat, headersSize: nat): int
    requires alignment > 0 && size <= b.End()
  {
    (Place(b, size, alignment) - headersSize) / PAGE_SIZE * PAGE_SIZE - b.commitBase
  }

  /** No more than a tenth of what is used. */
  predicate WastesLittle(b: CachedBlock, size: nat, alignment: nat, headersSize: nat)
    requires alignment > 0 && size <= b.End()
  {
    Waste(b, size, alignment, headersSize) <= (b.End() - (Place(b, size, alignment) - headersSize)) / 10
  }

  lemma WordsDoNotWrap(b: CachedBlock, size: nat, alignment: nat, headersSize: nat, pages: nat)
    requires IsRequest(size, alignment, headersSize) && b.IsValid() && b.End() <= ADDRESS_LIMIT
    ensures Suits(b, size, alignment, headersSize, pages) <==> Fits(b, size, alignment, headersSize, pages)
    ensures Fits(b, size, alignment, headersSize, pages) ==>
      && HeaderPos(b, size, alignment, headersSize) == Place(b, size, alignment) - headersSize
      && Diff(b, size, alignment, headersSize) == Waste(b, size, alignment, headersSize)
      && (CloseEnough(b, size, alignment, headersSize) <==> WastesLittle(b, size, alignment, headersSize))
  {
    SuitsMeansFits(b, size, alignment, headersSize, pages);
    if size <= b.End() {
      WrapAround(b.End() - size);
      assert AllocPos(b, size, alignment) == Place(b, size, alignment);
    }
  }

  /** Is `k` the block that the walk over `blocks` ends with?  It wastes less than those before
      it, none of which was the least wasteful so far and wasted little, and unless it wastes
      little itself it wastes least of all. */
  ghost predicate IsChoice(blocks: seq<CachedBlock>, k: nat, size: nat, alignment: nat, headersSize: nat, pages: nat)
    requires alignment > 0
  {
    && k < |blocks| && Fits(blocks[k], size, alignment, headersSize, pages)
    && (forall j | 0 <= j < k && Fits(blocks[j], size, alignment, headersSize, pages) ::
         Waste(blocks[j], size, alignment, headersSize) > Waste(blocks[k], size, alignment, headersSize))
    && (forall j | 0 <= j < k && IsLeastSoFar(blocks, j, size, alignment, headersSize, pages) ::
         !WastesLittle(blocks[j], size, alignment, headersSize))
    && (!WastesLittle(blocks[k], size, alignment, headersSize) ==>
         forall j | 0 <= j < |blocks| && Fits(blocks[j], size, alignment, headersSize, pages) ::
           Waste(blocks[j], size, alignment, headersSize) >= Waste(blocks[k], size, alignment, headersSize))
  }

  predicate IsLeastSoFar(blocks: seq<CachedBlock>, j: nat, size: nat, alignment: nat, headersSize: nat, pages: nat)
    requires alignment > 0 && j < |blocks|
  {
    && Fits(blocks[j], size, alignment, headersSize, pages)
    && forall i | 0 <= i < j && Fits(blocks[i], size, alignment, headersSize, pages) ::
         Waste(blocks[i], size, alignment, headersSize) > Waste(blocks[j], size, alignment, headersSize)
  }

  /** The blocks in the order of `lru`. */
  function InOrder(entries: seq<CachedBlock>, lru: seq<nat>): (blocks: seq<CachedBlock>)
    requires Below(lru, |entries|)
    ensures |blocks| == |lru| && forall j | 0 <= j < |lru| :: blocks[j] == entries[lru[j]]
  {
    seq(|lru|, j requires 0 <= j < |lru| => entries[lru[j]])
  }

  /** The bound on the request is needed: a size near 2^64 wraps and passes the tests. */
  lemma HugeSizeSuits() returns (b: CachedBlock, size: nat)
    ensures b.IsValid() && b.End() <= ADDRESS_LIMIT && Suits(b, size, 16, 16, 8) && size > b.commitSize
  {
    b, size := CachedBlock(4096, 4096, 0, 1), U64 - 16;
    WrapAround(b.End() - size);
    assert AllocPos(b, size, 16) == 8208;
    WrapAround(8208 - 16);
  }

  /** Before the system has been up for one interval the release time wraps to one later
      than any entry's, so store then releases everything, the new block included. */
  lemma EarlyReleaseTimeWraps(time: nat, interval: nat, entryTime: nat)
    requires entryTime <= time < U64 / 2 && interval * NANOSECONDS_PER_MS <= U64 / 2
    ensures entryTime <= (time - interval * NANOSECONDS_PER_MS) % U64 <==>
      (time < interval * NANOSECONDS_PER_MS || entryTime <= time - interval * NANOSECONDS_PER_MS)
  {
    WrapAround(time - interval * NANOSECONDS_PER_MS);
  }

  /** The waste is whole pages in front of the header's page. */
  lemma DiffFacts(b: CachedBlock, size: nat, alignment: nat, headersSize: nat, pages: nat)
    requires alignment > 0 && b.commitBase % PAGE_SIZE == 0
    requires Suits(b, size, alignment, headersSize, pages)
    ensures 0 <= Diff(b, size, alignment, headersSize) && Diff(b, size, alignment, headersSize) % PAGE_SIZE == 0
  {
    hide AllocPos, HeaderPos, RoundDown;
    WholePagesAbove(b.commitBase, HeaderPos(b, size, alignment, headersSize), PAGE_SIZE);
  }

  lemma WholePagesAbove(base: nat, h: nat, ps: nat)
    requires ps > 0 && base % ps == 0 && base <= h
    ensures base <= RoundDown(h, ps) && (RoundDown(h, ps) - base) % ps == 0
  {
    DivFacts(base, ps);
    DivBounds(base / ps, h, ps);
    assert RoundDown(h, ps) - base == (h / ps - base / ps) * ps;
    AddMulMod(0, h / ps - base / ps, ps);
  }

  class MapAllocatorCache {
    const entries: array<CachedBlock>
    /** LRUEntries, most recent first, and AvailEntries, as indices. */
    var lru: seq<nat>
    var avail: seq<nat>
    var oldestTime: nat
    var maxEntriesCount: nat
    var maxEntrySize: nat
    /** Every mapping the cache has unmapped, and the latest time it has been told. */
    ghost var unmapped: multiset<nat>
    ghost var now: nat

    ghost predicate Lists()
      reads this`lru, this`avail, entries
    {
      Partition(lru, avail, entries.Length) && EntriesOk(entries[..], lru)
    }

    ghost predicate Valid()
      reads this`lru, this`avail, this`oldestTime, this`maxEntriesCount, this`now, entries
    {
      && Lists() && OldestOk(entries[..], oldestTime) && TimeSorted(entries[..], lru) && NotAfter(entries[..], now)
      && maxEntriesCount <= entries.Length && oldestTime <= now < U64
    }

    /** The mappings in the cache. */
    ghost function Cached(): multiset<nat>
      requires Lists()
      reads this`lru, this`avail, entries
    {
      Mappings(entries[..], lru)
    }

    constructor (size: nat, maxEntriesCount: nat, maxEntrySize: nat)
      requires maxEntriesCount <= size
      ensures Valid() && fresh(entries) && lru == [] && unmapped == multiset{} && now == 0
    {
      entries := new CachedBlock[size](_ => CachedBlock(0, 0, 0, 0));
      lru, avail := [], seq(size, i => i);
      oldestTime := 0;
      this.maxEntriesCount, this.maxEntrySize := maxEntriesCount, maxEntrySize;
      unmapped, now := multiset{}, 0;
    }

    /** setOption for the number of entries, which is cut to 32 bits before it is clipped:
        a value of 2^32 turns the cache off. */
    method SetMaxEntriesCount(value: int) returns (ok: bool)
      requires Valid()
      modifies this`maxEntriesCount
      ensures Valid() && ok == (value >= 0) && (!ok ==> maxEntriesCount == old(maxEntriesCount))
      ensures 0 <= value < U32 ==> maxEntriesCount == Min(value, entries.Length)
      ensures value >= 0 && value % U32 == 0 ==> !CanCache(0)
    {
      ok := value >= 0;
      if ok {
        maxEntriesCount := Min(value % U32, entries.Length);
      }
    }

    predicate CanCache(size: nat)
      reads this`maxEntriesCount, this`maxEntrySize
    {
      maxEntriesCount != 0 && size <= maxEntrySize
    }

    // ---------------------------------------------------------------- the two lists

    /** remove: the entry at position `k` becomes available. */
    method Remove(k: nat) returns (mapping: nat)
      requires Valid() && k < |lru|
      modifies this`lru, this`avail, entries
      ensures Valid() && |lru| == |old(lru)| - 1
      ensures Cached() + multiset{mapping} == old(Cached())
      ensures old(lru)[k] < entries.Length && mapping == old(entries[lru[k]].mapping)
      ensures lru == old(lru)[..k] + old(lru)[k + 1..] && old(lru)[k] !in lru
      ensures forall i | 0 <= i < entries.Length && i != old(lru)[k] :: entries[i] == old(entries[i])
    {
      hide Mappings, Partition, TimeSorted;
      ghost var before, l := entries[..], lru;
      PartitionRemove(lru, avail, entries.Length, k);
      PartitionBelow(lru, avail, entries.Length);
      MappingsRemove(before, l, k);
      var i := lru[k];
      mapping := entries[i].mapping;
      entries[i] := entries[i].(commitBase := 0);
      lru := lru[..k] + lru[k + 1..];
      avail := [i] + avail;
      PartitionBelow(lru, avail, entries.Length);
      MappingsFrame(before, entries[..], lru);
      TimeSortedRemove(before, entries[..], l, k);
    }

    /** insert: a block goes into the first available entry. */
    method Insert(block: CachedBlock)
      requires Valid() && avail != [] && block.IsValid() && block.End() <= ADDRESS_LIMIT &&
        block.commitBase % PAGE_SIZE == 0
      requires block.time == now && (block.time > 0 && (oldestTime != 0 ==> oldestTime <= block.time))
      modifies this`lru, this`avail, this`oldestTime, entries
      ensures Valid() && |lru| > 0 && lru[1..] == old(lru) && entries[lru[0]] == block
      ensures forall i | i in old(lru) :: i < entries.Length && entries[i] == old(entries[..])[i]
      ensures Cached() == old(Cached()) + multiset{block.mapping}
    {
      hide Mappings, Partition, TimeSorted;
      ghost var before, l := entries[..], lru;
      PartitionBelow(lru, avail, entries.Length);
      PartitionInsert(lru, avail, entries.Length);
      var i := avail[0];
      avail := avail[1..];
      entries[i] := block;
      lru := [i] + lru;
      PartitionBelow(lru, avail, entries.Length);
      MappingsFrame(before, entries[..], l);
      MappingsFront(entries[..], i, l);
      TimeSortedInsert(before, entries[..], l, i, now);
      if oldestTime == 0 {
        oldestTime := block.time;
      }
    }

    static lemma MappingsFront(entries: seq<CachedBlock>, i: nat, lru: seq<nat>)
      requires i < |entries| && Below(lru, |entries|) && Below([i] + lru, |entries|)
      ensures Mappings(entries, [i] + lru) == Mappings(entries, lru) + multiset{entries[i].mapping}
    {
      assert ([i] + lru)[1..] == lru;
    }

    static lemma TimeSortedInsert(before: seq<CachedBlock>, after: seq<CachedBlock>, lru: seq<nat>, i: nat, now: nat)
      requires i < |before| && Below(lru, |before|) && TimeSorted(before, lru) && NotAfter(before, now)
      requires i !in lru && |after| == |before| && after[i].time == now
      requires forall j | 0 <= j < |before| && j != i :: after[j] == before[j]
      ensures Below([i] + lru, |after|) && TimeSorted(after, [i] + lru)
    {
      var l := [i] + lru;
      assert forall j | 0 < j < |l| :: l[j] == lru[j - 1] && lru[j - 1] in lru;
    }

    static lemma PartitionBelow(lru: seq<nat>, avail: seq<nat>, n: nat)
      requires Partition(lru, avail, n)
      ensures Below(lru, n) && Below(avail, n) && Distinct(lru) && |lru| + |avail| == n
    {
    }

    // ---------------------------------------------------------------- releasing

    static function ReleasedIf(b: CachedBlock, time: nat): CachedBlock {
      if b.IsValid() && 0 < b.time <= time then b.(time := 0) else b
    }

    /** releaseOlderThan: every cached block last used no later than `time` has had its
        pages released afterwards, and no other; this also where it returns early. */
    method ReleaseOlderThan(time: nat)
      requires Valid()
      modifies this`oldestTime, entries
      ensures Valid() && lru == old(lru) && Cached() == old(Cached())
      ensures forall i | 0 <= i < entries.Length :: entries[i] == ReleasedIf(old(entries[i]), time)
      ensures forall i | 0 <= i < entries.Length && entries[i].IsValid() && entries[i].time != 0 ::
        entries[i].time > time
    {
      hide Mappings, Partition;
      PartitionBelow(lru, avail, entries.Length);
      if lru == [] || oldestTime == 0 || oldestTime > time {
        NothingIsOlder(entries[..], lru, oldestTime, time);
        return;
      }
      ghost var before := entries[..];
      ReleaseLoop(time);
      MappingsFrame(before, entries[..], lru);
    }

    static lemma NothingIsOlder(entries: seq<CachedBlock>, lru: seq<nat>, oldest: nat, time: nat)
      requires EntriesOk(entries, lru) && OldestOk(entries, oldest) && (lru == [] || oldest == 0 || oldest > time)
      ensures forall i | 0 <= i < |entries| :: ReleasedIf(entries[i], time) == entries[i]
      ensures forall i | 0 <= i < |entries| && entries[i].IsValid() && entries[i].time != 0 :: entries[i].time > time
    {
    }

    method ReleaseLoop(time: nat)
      requires NotAfter(entries[..], now) && now < U64
      modifies this`oldestTime, entries
      ensures forall i | 0 <= i < entries.Length :: entries[i] == ReleasedIf(old(entries[i]), time)
      ensures OldestOk(entries[..], oldestTime) && oldestTime <= now
    {
      oldestTime := 0;
      var i := 0;
      while i < entries.Length
        invariant 0 <= i <= entries.Length && oldestTime <= now
        invariant forall j | 0 <= j < i :: entries[j] == ReleasedIf(old(entries[j]), time)
        invariant forall j | i <= j < entries.Length :: entries[j] == old(entries[j])
        invariant OldestOk(entries[..i], oldestTime)
      {
        ghost var before := entries[..i];
        if entries[i].IsValid() && entries[i].time != 0 {
          if entries[i].time > time {
            if oldestTime == 0 || entries[i].time < oldestTime {
              oldestTime := entries[i].time;
            }
          } else {
            entries[i] := entries[i].(time := 0);
          }
        }
        assert entries[..i + 1] == before + [entries[i]];
        i := i + 1;
      }
      assert entries[..i] == entries[..];
    }

    // ---------------------------------------------------------------- store

    /** Unmaps the least recent entries until there is room for one more. */
    method Evict()
      requires Valid() && maxEntriesCount > 0
      modifies this`lru, this`avail, this`unmapped, entries
      ensures Valid() && |lru| < maxEntriesCount
      ensures Cached() + unmapped == old(Cached()) + old(unmapped)
      ensures lru == old(lru)[..Min(|old(lru)|, maxEntriesCount - 1)]
      ensures forall i | i in lru :: i < entries.Length && entries[i] == old(entries[..])[i]
    {
      hide Mappings, Partition, TimeSorted, EntriesOk;
      PartitionBelow(lru, avail, entries.Length);
      while |lru| >= maxEntriesCount
        invariant forall i | i in lru :: i < entries.Length && entries[i] == old(entries[..])[i]
        invariant Valid() && Cached() + unmapped == old(Cached()) + old(unmapped)
        invariant |lru| <= |old(lru)| && lru == old(lru)[..|lru|] && |lru| >= Min(|old(lru)|, maxEntriesCount - 1)
        decreases |lru|
      {
        ghost var cached, gone, l := Cached(), unmapped, lru;
        var mapping := Remove(|lru| - 1);
        unmapped := unmapped + multiset{mapping};
        MovedOut(cached, Cached(), gone, mapping);
        assert lru == l[..|l| - 1];
      }
    }

    static lemma MovedOut(cached: multiset<nat>, cached': multiset<nat>, gone: multiset<nat>, mapping: nat)
      requires cached' + multiset{mapping} == cached
      ensures cached' + (gone + multiset{mapping}) == cached + gone
    {
    }

    /** What a store at `time` makes of a block that stays in the cache. */
    static function AfterStore(b: CachedBlock, time: nat, interval: int): CachedBlock {
      if interval >= 0 then ReleasedIf(b, (time - interval * NANOSECONDS_PER_MS) % U64) else b
    }

    /** A block's pages are released exactly if the block has not been used for the interval
        or the system has not been up for it yet: then even the new block's are. */
    static lemma ReleasedByStore(b: CachedBlock, time: nat, interval: nat)
      requires b.IsValid() && b.time <= time < U64 / 2 && interval * NANOSECONDS_PER_MS <= U64 / 2
      ensures AfterStore(b, time, interval) == b.(time :=
        if time < interval * NANOSECONDS_PER_MS || b.time <= time - interval * NANOSECONDS_PER_MS then 0 else b.time)
    {
      EarlyReleaseTimeWraps(time, interval, b.time);
    }

    /** One second after boot, with the interval at five: the block just stored is released. */
    static lemma ReleasedAtOnce(base: nat, size: nat, mapping: nat)
      requires base != 0
      ensures
        var now, interval := 1_000_000_000, 5_000;
        AfterStore(CachedBlock(base, size, mapping, now), now, interval) == CachedBlock(base, size, mapping, 0)
    {
      ReleasedByStore(CachedBlock(base, size, mapping, 1_000_000_000), 1_000_000_000, 5_000);
    }

    /** store, at `time`; a non-negative `interval` releases what is older. */
    method Store(commitBase: nat, commitSize: nat, mapping: nat, time: nat, interval: int)
      requires Valid() && CanCache(commitSize) && commitBase != 0 && commitBase % PAGE_SIZE == 0
      requires commitBase + commitSize <= ADDRESS_LIMIT
      requires 0 < time < U64 && now <= time
      modifies this`lru, this`avail, this`oldestTime, this`unmapped, this`now, entries
      ensures Valid() && now == time && 0 < |lru| <= maxEntriesCount
      ensures Cached() + unmapped == old(Cached()) + old(unmapped) + multiset{mapping}
      ensures lru[1..] == old(lru)[..Min(|old(lru)|, maxEntriesCount - 1)]
      ensures entries[lru[0]] == AfterStore(CachedBlock(commitBase, commitSize, mapping, time), time, interval)
      ensures forall k | 0 < k < |lru| ::
        lru[k] < entries.Length && entries[lru[k]] == AfterStore(old(entries[..])[lru[k]], time, interval)
      ensures interval >= 0 ==> forall i | 0 <= i < entries.Length && entries[i].IsValid() && entries[i].time != 0 ::
        entries[i].time > (time - interval * NANOSECONDS_PER_MS) % U64
    {
      hide Mappings, Partition, TimeSorted, EntriesOk;
      InsertEvicting(commitBase, commitSize, mapping, time);
      PartitionBelow(lru, avail, entries.Length);
      assert lru[0] < entries.Length;
      if interval >= 0 {
        ReleaseOlderThan((time - interval * NANOSECONDS_PER_MS) % U64);
      }
    }

    /** The first locked section of store: room is made and the block goes in. */
    method InsertEvicting(commitBase: nat, commitSize: nat, mapping: nat, time: nat)
      requires Valid() && CanCache(commitSize) && commitBase != 0 && commitBase % PAGE_SIZE == 0
      requires commitBase + commitSize <= ADDRESS_LIMIT
      requires 0 < time < U64 && now <= time
      modifies this`lru, this`avail, this`oldestTime, this`unmapped, this`now, entries
      ensures Valid() && now == time && 0 < |lru| <= maxEntriesCount
      ensures Cached() + unmapped == old(Cached()) + old(unmapped) + multiset{mapping}
      ensures lru[1..] == old(lru)[..Min(|old(lru)|, maxEntriesCount - 1)]
      ensures lru[0] < entries.Length && entries[lru[0]] == CachedBlock(commitBase, commitSize, mapping, time)
      ensures forall k | 0 < k < |lru| :: lru[k] < entries.Length && entries[lru[k]] == old(entries[..])[lru[k]]
    {
      hide Mappings, Partition, TimeSorted, EntriesOk;
      TimePasses(entries[..], now, time);
      now := time;
      Evict();
      ghost var kept, gone := Cached(), unmapped;
      HasRoom(lru, avail, entries.Length);
      Insert(CachedBlock(commitBase, commitSize, mapping, time));
      PartitionBelow(lru, avail, entries.Length);
      assert lru[0] < entries.Length;
    }

    static lemma TimePasses(entries: seq<CachedBlock>, now: nat, time: nat)
      requires NotAfter(entries, now) && now <= time
      ensures NotAfter(entries, time)
    {
    }

    static lemma HasRoom(lru: seq<nat>, avail: seq<nat>, n: nat)
      requires Partition(lru, avail, n) && |lru| < n
      ensures avail != []
    {
    }

    // ---------------------------------------------------------------- retrieve

    /** Does the block at `j` waste less than every suitable one before it? */
    predicate LeastSoFar(j: nat, size: nat, alignment: nat, headersSize: nat, maxFragmentedPages: nat)
      requires alignment > 0 && j < |lru| && Below(lru, entries.Length)
      reads this`lru, entries
    {
      && Suits(entries[lru[j]], size, alignment, headersSize, maxFragmentedPages)
      && forall i | 0 <= i < j && Suits(entries[lru[i]], size, alignment, headersSize, maxFragmentedPages) ::
           Diff(entries[lru[i]], size, alignment, headersSize) > Diff(entries[lru[j]], size, alignment, headersSize)
    }

    /** The search: nothing suits, or the chosen block wastes less than every suitable one
        before it and, unless it is close enough, no more than any other. */
    method FindFit(size: nat, alignment: nat, headersSize: nat, maxFragmentedPages: nat)
      returns (found: bool, k: nat)
      requires Valid() && IsRequest(size, alignment, headersSize)
      ensures Below(lru, entries.Length)
      ensures found ==> k < |lru| && Suits(entries[lru[k]], size, alignment, headersSize, maxFragmentedPages)
      ensures !found ==> forall j | 0 <= j < |lru| ::
        !Suits(entries[lru[j]], size, alignment, headersSize, maxFragmentedPages)
      ensures found ==>
        forall j | 0 <= j < k && Suits(entries[lru[j]], size, alignment, headersSize, maxFragmentedPages) ::
        Diff(entries[lru[j]], size, alignment, headersSize) > Diff(entries[lru[k]], size, alignment, headersSize)
      ensures found ==> forall j | 0 <= j < k && LeastSoFar(j, size, alignment, headersSize, maxFragmentedPages) ::
        !CloseEnough(entries[lru[j]], size, alignment, headersSize)
      ensures found && !CloseEnough(entries[lru[k]], size, alignment, headersSize) ==>
        forall j | 0 <= j < |lru| && Suits(entries[lru[j]], size, alignment, headersSize, maxFragmentedPages) ::
          Diff(entries[lru[j]], size, alignment, headersSize) >= Diff(entries[lru[k]], size, alignment, headersSize)
    {
      hide Suits, Diff, CloseEnough, Partition, Mappings, TimeSorted, OldestOk, NotAfter, EntriesOk;
      PartitionBelow(lru, avail, entries.Length);
      found, k := false, 0;
      var i := 0;
      var minDiff := U64 - 1;
      while i < |lru|
        invariant 0 <= i <= |lru|
        invariant !found ==> minDiff == U64 - 1 && forall j | 0 <= j < i ::
          !Suits(entries[lru[j]], size, alignment, headersSize, maxFragmentedPages)
        invariant found ==> k < i && Suits(entries[lru[k]], size, alignment, headersSize, maxFragmentedPages)
        invariant found ==> minDiff == Diff(entries[lru[k]], size, alignment, headersSize)
        invariant found ==> !CloseEnough(entries[lru[k]], size, alignment, headersSize)
        invariant forall j | 0 <= j < i && LeastSoFar(j, size, alignment, headersSize, maxFragmentedPages) ::
          !CloseEnough(entries[lru[j]], size, alignment, headersSize)
        invariant found ==>
          forall j | 0 <= j < k && Suits(entries[lru[j]], size, alignment, headersSize, maxFragmentedPages) ::
          Diff(entries[lru[j]], size, alignment, headersSize) > Diff(entries[lru[k]], size, alignment, headersSize)
        invariant found ==>
          forall j | 0 <= j < i && Suits(entries[lru[j]], size, alignment, headersSize, maxFragmentedPages) ::
          Diff(entries[lru[j]], size, alignment, headersSize) >= Diff(entries[lru[k]], size, alignment, headersSize)
      {
        var b := entries[lru[i]];
        if Suits(b, size, alignment, headersSize, maxFragmentedPages) {
          DiffIsSmall(entries[..], lru, i, size, alignment, headersSize, maxFragmentedPages);
          var diff := Diff(b, size, alignment, headersSize);
          if diff < minDiff {
            minDiff := diff;
            found, k := true, i;
            if CloseEnough(b, size, alignment, headersSize) {
              return;
            }
          }
        }
        i := i + 1;
      }
    }

    static lemma DiffIsSmall(entries: seq<CachedBlock>, lru: seq<nat>, i: nat, size: nat, alignment: nat,
                             headersSize: nat, pages: nat)
      requires EntriesOk(entries, lru) && i < |lru| && lru[i] < |entries| && IsRequest(size, alignment, headersSize)
      requires Suits(entries[lru[i]], size, alignment, headersSize, pages)
      ensures 0 <= Diff(entries[lru[i]], size, alignment, headersSize) < U64 - 1
      ensures entries[lru[i]].IsValid() && entries[lru[i]].End() <= ADDRESS_LIMIT
      ensures entries[lru[i]].commitBase % PAGE_SIZE == 0
    {
      var b := entries[lru[i]];
      assert lru[i] in lru && b.IsValid();
      DiffFacts(b, size, alignment, headersSize, pages);
      var h := HeaderPos(b, size, alignment, headersSize);
      DivFacts(h, PAGE_SIZE);
    }

    /** retrieve: a cached block that the request fits, with how many bytes in front of it
        are given back to the system. */
    method Retrieve(size: nat, alignment: nat, headersSize: nat, maxFragmentedPages: nat)
      returns (found: bool, block: CachedBlock, headerPos: nat, released: nat, ghost k: nat)
      requires Valid() && IsRequest(size, alignment, headersSize)
      modifies this`lru, this`avail, entries
      ensures Valid() && Below(old(lru), entries.Length)
      ensures !found ==> Cached() == old(Cached()) && forall j | 0 <= j < |lru| && lru[j] < entries.Length ::
        !Suits(entries[lru[j]], size, alignment, headersSize, maxFragmentedPages)
      ensures !found ==> lru == old(lru) && entries[..] == old(entries[..]) && forall j | 0 <= j < |lru| ::
        !Fits(entries[lru[j]], size, alignment, headersSize, maxFragmentedPages)
      ensures found ==> Cached() + multiset{block.mapping} == old(Cached())
      ensures found ==>
        && IsChoice(InOrder(old(entries[..]), old(lru)), k, size, alignment, headersSize, maxFragmentedPages)
        && block == old(entries[..])[old(lru)[k]] && lru == old(lru)[..k] + old(lru)[k + 1..]
        && (forall i | 0 <= i < entries.Length && i != old(lru)[k] :: entries[i] == old(entries[..])[i])
        && headerPos == Place(block, size, alignment) - headersSize
        && released == (if block.time == 0 then 0 else BytesGivenBack(Waste(block, size, alignment, headersSize)))
      ensures found ==>
        var pos := headerPos + headersSize;
        && block.commitBase <= headerPos && pos % alignment == 0 && pos + size <= block.End()
        && pos <= block.commitBase + maxFragmentedPages * PAGE_SIZE
        && released <= MAX_RELEASED_CACHE_PAGES * PAGE_SIZE
        && block.commitBase + released <= RoundDown(headerPos, PAGE_SIZE)
    {
      hide Suits, Diff, CloseEnough, Partition, Mappings, TimeSorted, HeaderPos, Fits, Waste, WastesLittle, IsChoice,
           Place;
      PartitionBelow(lru, avail, entries.Length);
      var j;
      found, j := FindFit(size, alignment, headersSize, maxFragmentedPages);
      k := j;
      InWords(found, k, size, alignment, headersSize, maxFragmentedPages);
      block, headerPos, released := CachedBlock(0, 0, 0, 0), 0, 0;
      if found {
        block := entries[lru[j]];
        DiffIsSmall(entries[..], lru, j, size, alignment, headersSize, maxFragmentedPages);
        headerPos := HeaderPos(block, size, alignment, headersSize);
        SuitsMeansFits(block, size, alignment, headersSize, maxFragmentedPages);
        SuitsBounds(block, size, alignment, headersSize, maxFragmentedPages);
        WordsDoNotWrap(block, size, alignment, headersSize, maxFragmentedPages);
        var mapping := Remove(j);
        if block.time != 0 {
          released := BytesToRelease(block, size, alignment, headersSize, maxFragmentedPages);
        }
      }
    }

    /** What may be unused in front of a block without being given back is 4 pages, and no
        more than 4 are given back. */
    static function BytesGivenBack(waste: int): int {
      if waste <= 4 * PAGE_SIZE then 0 else Min(4 * PAGE_SIZE, waste - 4 * PAGE_SIZE)
    }

    /** The search made in words is the search among the blocks that fit. */
    lemma InWords(found: bool, k: nat, size: nat, alignment: nat, headersSize: nat, pages: nat)
      requires Valid() && IsRequest(size, alignment, headersSize) && Below(lru, entries.Length)
      requires !found ==> forall j | 0 <= j < |lru| :: !Suits(entries[lru[j]], size, alignment, headersSize, pages)
      requires found ==>
        && k < |lru| && Suits(entries[lru[k]], size, alignment, headersSize, pages)
        && (forall j | 0 <= j < k && Suits(entries[lru[j]], size, alignment, headersSize, pages) ::
             Diff(entries[lru[j]], size, alignment, headersSize) > Diff(entries[lru[k]], size, alignment, headersSize))
        && (forall j | 0 <= j < k && LeastSoFar(j, size, alignment, headersSize, pages) ::
             !CloseEnough(entries[lru[j]], size, alignment, headersSize))
        && (!CloseEnough(entries[lru[k]], size, alignment, headersSize) ==>
             forall j | 0 <= j < |lru| && Suits(entries[lru[j]], size, alignment, headersSize, pages) ::
               Diff(entries[lru[j]], size, alignment, headersSize)
               >= Diff(entries[lru[k]], size, alignment, headersSize))
      ensures !found ==> forall j | 0 <= j < |lru| :: !Fits(entries[lru[j]], size, alignment, headersSize, pages)
      ensures found ==> IsChoice(InOrder(entries[..], lru), k, size, alignment, headersSize, pages)
    {
      hide Suits, Diff, CloseEnough, Fits, Waste, WastesLittle, Place, HeaderPos;
      forall j | 0 <= j < |lru|
        ensures Suits(entries[lru[j]], size, alignment, headersSize, pages)
          <==> Fits(entries[lru[j]], size, alignment, headersSize, pages)
        ensures Fits(entries[lru[j]], size, alignment, headersSize, pages) ==>
          && size <= entries[lru[j]].End()
          && Diff(entries[lru[j]], size, alignment, headersSize) == Waste(entries[lru[j]], size, alignment, headersSize)
          && (CloseEnough(entries[lru[j]], size, alignment, headersSize)
              <==> WastesLittle(entries[lru[j]], size, alignment, headersSize))
      {
        ListedIsValid(j);
        WordsDoNotWrap(entries[lru[j]], size, alignment, headersSize, pages);
        FitsBelow(entries[lru[j]], size, alignment, headersSize, pages);
      }
    }

    lemma ListedIsValid(j: nat)
      requires Valid() && j < |lru|
      ensures lru[j] < entries.Length && entries[lru[j]].IsValid() && entries[lru[j]].End() <= ADDRESS_LIMIT
    {
      PartitionBelow(lru, avail, entries.Length);
      assert lru[j] in lru;
    }

    static lemma FitsBelow(b: CachedBlock, size: nat, alignment: nat, headersSize: nat, pages: nat)
      requires alignment > 0
      ensures Fits(b, size, alignment, headersSize, pages) ==> size <= b.End()
    {
    }

    static lemma SuitsBounds(b: CachedBlock, size: nat, alignment: nat, headersSize: nat, pages: nat)
      requires alignment > 0 && Suits(b, size, alignment, headersSize, pages)
      ensures b.commitBase <= HeaderPos(b, size, alignment, headersSize)
      ensures AllocPos(b, size, alignment) <= b.commitBase + pages * PAGE_SIZE
      ensures Diff(b, size, alignment, headersSize)
        == RoundDown(HeaderPos(b, size, alignment, headersSize), PAGE_SIZE) - b.commitBase
    {
    }

    static method BytesToRelease(b: CachedBlock, size: nat, alignment: nat, headersSize: nat, pages: nat)
      returns (released: nat)
      requires alignment > 0 && b.commitBase % PAGE_SIZE == 0 && Suits(b, size, alignment, headersSize, pages)
      ensures released <= MAX_RELEASED_CACHE_PAGES * PAGE_SIZE
      ensures released <= Diff(b, size, alignment, headersSize)
      ensures released == BytesGivenBack(Diff(b, size, alignment, headersSize))
    {
      DiffFacts(b, size, alignment, headersSize, pages);
      hide Suits, HeaderPos;
      released := 0;
      var fragmented := Diff(b, size, alignment, headersSize);
      var unreleased := MAX_UNRELEASED_CACHE_PAGES * PAGE_SIZE;
      if fragmented > unreleased {
        var bytes := Min(MAX_RELEASED_CACHE_PAGES * PAGE_SIZE, fragmented - unreleased);
        WholePagesRoundUp(bytes);
        released := RoundUp(bytes, PAGE_SIZE);
      }
    }

    static lemma WholePagesRoundUp(bytes: nat)
      requires bytes % PAGE_SIZE == 0
      ensures RoundUp(bytes, PAGE_SIZE) == bytes
    {
      CeilFacts(bytes, PAGE_SIZE);
    }
  }
}

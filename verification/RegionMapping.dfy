/** How a size class's region grows, refill by refill (primary64.h
    populateFreeListAndPopBlocks): when more memory is mapped, how much, and how many
    blocks are carved from it. */
module RegionMapping {

  import opened Arithmetic

  /** `maxCount` is getMaxCached of the class, `batches` MaxNumBatches, `increment`
      MapSizeIncrement, and `limit` what the region has from its first block on. */
  datatype Mapping = Mapping(blockSize: nat, maxCount: nat, batches: nat, increment: nat, limit: nat) {
    predicate Ok() {
      blockSize > 0 && maxCount > 0 && batches > 0 && increment > 0
    }

    predicate NeedsMore(carved: nat, mapped: nat) {
      carved * blockSize + maxCount * blockSize > mapped
    }

    /** MappedUser once there is room for one full cache of blocks. */
    function MappedFor(carved: nat, mapped: nat): nat
      requires Ok()
    {
      if NeedsMore(carved, mapped) then
        mapped + RoundUp(carved * blockSize + maxCount * blockSize - mapped, increment)
      else
        mapped
    }

    /** The refill fails: the region is exhausted, or the system does not map (`remaps`). */
    predicate Stuck(carved: nat, mapped: nat, remaps: bool)
      requires Ok()
    {
      NeedsMore(carved, mapped) && (MappedFor(carved, mapped) > limit || !remaps)
    }

    function MostNewBlocks(): nat {
      batches * maxCount
    }

    /** NumberOfBlocks of a refill that has mapped enough. */
    function NewBlocks(carved: nat, mapped: nat): (n: nat)
      requires Ok() && carved * blockSize <= mapped
    {
      Min(MostNewBlocks(), (mapped - carved * blockSize) / blockSize)
    }

    /** Blocks and bytes of a region that has been refilled some number of times. */
    ghost predicate Inv(carved: nat, mapped: nat) {
      && Ok() && carved * blockSize <= mapped <= limit
      && exists refills: nat :: After(refills) == (carved, mapped)
    }

    /** Blocks carved and bytes mapped after so many refills that were not stuck. */
    function After(refills: nat): (nat, nat)
      requires Ok()
    {
      if refills == 0 then (0, 0) else
      var (carved, mapped) := After(refills - 1);
      var mapped' := MappedFor(carved, mapped);
      (if carved * blockSize <= mapped' then carved + NewBlocks(carved, mapped') else carved, mapped')
    }

    /** The system maps at least two blocks and one full cache at a time, and a refill may
        carve more than one cache. */
    predicate Steady() {
      2 * blockSize <= increment && maxCount * blockSize <= increment && batches >= 2
    }

    /** The largest class of the Fuchsia configuration: two blocks exceed what is mapped at a
        time by 32 bytes, which do not add up to a block before the region ends. */
    predicate JustTooLarge() {
      blockSize == 0x2_0010 && maxCount == 1 && batches == 8 && increment == 0x4_0000 && limit <= 0x4000_0000
    }

    /** The last block starts within the last piece that was mapped. */
    predicate InStep(carved: nat, mapped: nat)
      requires increment > 0
    {
      && mapped % increment == 0
      && (if carved == 0 then mapped == 0 else mapped <= (carved - 1) * blockSize + increment)
    }
  }

  lemma MappedIsEnough(m: Mapping, carved: nat, mapped: nat)
    requires m.Ok()
    ensures carved * m.blockSize + m.maxCount * m.blockSize <= m.MappedFor(carved, mapped)
    ensures m.MappedFor(carved, mapped) >= mapped
  {
    if m.NeedsMore(carved, mapped) {
      CeilFacts(carved * m.blockSize + m.maxCount * m.blockSize - mapped, m.increment);
    }
  }

  /** A refill is stuck exactly if one full cache of blocks does not fit into what is mapped
      and either the system does not map or the increments it takes exceed the region. */
  lemma StuckIff(m: Mapping, carved: nat, mapped: nat, remaps: bool)
    requires m.Ok()
    ensures m.Stuck(carved, mapped, remaps) <==>
      && (carved + m.maxCount) * m.blockSize > mapped
      && (!remaps || forall k: nat ::
           mapped + k * m.increment >= (carved + m.maxCount) * m.blockSize ==> mapped + k * m.increment > m.limit)
  {
    var total := (carved + m.maxCount) * m.blockSize;
    assert total == carved * m.blockSize + m.maxCount * m.blockSize;
    if total > mapped {
      var q := CeilDiv(total - mapped, m.increment);
      CeilFacts(total - mapped, m.increment);
      forall k: nat | mapped + k * m.increment >= total ensures k * m.increment >= q * m.increment {
        CeilBounds(k, total - mapped, m.increment);
        MulMono(q, k, m.increment);
      }
    }
  }

  /** What is mapped grows by the fewest increments that make room for a full cache. */
  lemma MapsFewest(m: Mapping, carved: nat, mapped: nat)
    requires m.Ok()
    ensures
      var mapped' := m.MappedFor(carved, mapped);
      var total := (carved + m.maxCount) * m.blockSize;
      && mapped' >= total && mapped' >= mapped && (mapped' - mapped) % m.increment == 0
      && (mapped' == mapped || mapped' - m.increment < total)
  {
    var total := (carved + m.maxCount) * m.blockSize;
    assert total == carved * m.blockSize + m.maxCount * m.blockSize;
    if total > mapped {
      var q := CeilDiv(total - mapped, m.increment);
      CeilFacts(total - mapped, m.increment);
      assert (q - 1) * m.increment == q * m.increment - m.increment;
      AddMulMod(0, q, m.increment);
    }
  }

  /** The most blocks that fit are carved, up to so many caches. */
  lemma CarvesMost(m: Mapping, carved: nat, mapped: nat)
    requires m.Ok() && carved * m.blockSize <= mapped
    ensures
      var n := m.NewBlocks(carved, mapped);
      && n <= m.batches * m.maxCount && (carved + n) * m.blockSize <= mapped
      && (n == m.batches * m.maxCount || (carved + n + 1) * m.blockSize > mapped)
  {
    var room := mapped - carved * m.blockSize;
    var fits := room / m.blockSize;
    var n := m.NewBlocks(carved, mapped);
    DivFacts(room, m.blockSize);
    MulMono(n, fits, m.blockSize);
    assert (carved + n) * m.blockSize == carved * m.blockSize + n * m.blockSize;
    assert (carved + n + 1) * m.blockSize == carved * m.blockSize + (n + 1) * m.blockSize;
  }

  /** A refill that is not stuck carves a block at least, stays within what is mapped, and
      is one refill more. */
  lemma RefillKeepsInv(m: Mapping, carved: nat, mapped: nat)
    requires m.Inv(carved, mapped) && m.MappedFor(carved, mapped) <= m.limit
    ensures carved * m.blockSize <= m.MappedFor(carved, mapped)
    ensures
      var mapped' := m.MappedFor(carved, mapped);
      var n := m.NewBlocks(carved, mapped');
      0 < n <= m.MostNewBlocks() && m.Inv(carved + n, mapped')
  {
    hide Mapping.MappedFor, Mapping.NewBlocks;
    NewBlocksFit(m, carved, mapped);
    var k: nat :| m.After(k) == (carved, mapped);
    OneRefill(m, k);
  }

  lemma OneRefill(m: Mapping, k: nat)
    requires m.Ok()
    ensures
      var (carved, mapped) := m.After(k);
      var mapped' := m.MappedFor(carved, mapped);
      carved * m.blockSize <= mapped' ==> m.After(k + 1) == (carved + m.NewBlocks(carved, mapped'), mapped')
  {
    hide Mapping.MappedFor, Mapping.NewBlocks;
  }

  lemma NewBlocksFit(m: Mapping, carved: nat, mapped: nat)
    requires m.Ok()
    ensures carved * m.blockSize + m.maxCount * m.blockSize <= m.MappedFor(carved, mapped)
    ensures
      var mapped' := m.MappedFor(carved, mapped);
      carved * m.blockSize <= mapped' &&
      var n := m.NewBlocks(carved, mapped');
      m.maxCount <= n <= m.MostNewBlocks() && (carved + n) * m.blockSize <= mapped'
  {
    hide Mapping.MappedFor;
    MappedIsEnough(m, carved, mapped);
    MulMono(0, m.maxCount, m.blockSize);
    var room := m.MappedFor(carved, mapped) - carved * m.blockSize;
    SomeFit(m, room);
    var n := m.NewBlocks(carved, m.MappedFor(carved, mapped));
    MulMono(n, room / m.blockSize, m.blockSize);
    DivFacts(room, m.blockSize);
    assert (carved + n) * m.blockSize == carved * m.blockSize + n * m.blockSize;
  }

  lemma SomeFit(m: Mapping, room: nat)
    requires m.Ok() && m.maxCount * m.blockSize <= room
    ensures m.maxCount <= room / m.blockSize && m.maxCount <= m.MostNewBlocks()
  {
    DivBounds(m.maxCount, room, m.blockSize);
    MulMono(1, m.batches, m.maxCount);
  }

  lemma StaysWithinMapped(m: Mapping, k: nat)
    requires m.Ok()
    ensures m.After(k).0 * m.blockSize <= m.After(k).1
  {
    if k > 0 {
      NewBlocksFit(m, m.After(k - 1).0, m.After(k - 1).1);
      OneRefill(m, k - 1);
    }
  }

  // ------------------------------------------------------------------ where the last block starts

  lemma {:induction false} SteadyInStep(m: Mapping, k: nat)
    requires m.Ok() && m.Steady()
    ensures m.InStep(m.After(k).0, m.After(k).1)
  {
    if k == 0 {
    } else {
      hide Mapping.MappedFor, Mapping.NewBlocks, Mapping.InStep, Mapping.Steady;
      SteadyInStep(m, k - 1);
      StaysWithinMapped(m, k - 1);
      var (carved, mapped) := m.After(k - 1);
      NewBlocksFit(m, carved, mapped);
      OneRefill(m, k - 1);
      var mapped' := m.MappedFor(carved, mapped);
      StaysInStep(m, carved, mapped, mapped', m.NewBlocks(carved, mapped'));
    }
  }

  /** Two blocks more a refill, and one the first time. */
  lemma {:induction false} JustTooLargeInStep(m: Mapping, k: nat)
    requires m.Ok() && m.JustTooLarge() && k <= 4095
    ensures m.After(k + 1) == (2 * k + 1, (k + 1) * 0x4_0000)
  {
    if k == 0 {
      CeilUnique(0x2_0010, 0x4_0000, 1);
      DivUnique(0x4_0000, 0x2_0010, 1);
      assert m.After(0) == (0, 0);
    } else {
      JustTooLargeInStep(m, k - 1);
      var carved, mapped := 2 * k - 1, k * 0x4_0000;
      CeilUnique(carved * 0x2_0010 + 0x2_0010 - mapped, 0x4_0000, 1);
      DivUnique(mapped + 0x4_0000 - carved * 0x2_0010, 0x2_0010, 2);
    }
  }

  lemma {:induction false} MappedGrows(m: Mapping, i: nat, k: nat)
    requires m.Ok() && i <= k
    ensures m.After(i).1 <= m.After(k).1
  {
    if i == k {
    } else {
      MappedGrows(m, i, k - 1);
      MappedIsEnough(m, m.After(k - 1).0, m.After(k - 1).1);
    }
  }

  /** The region ends before the 32 bytes add up. */
  lemma JustTooLargeEnds(m: Mapping, k: nat)
    requires m.Ok() && m.JustTooLarge() && m.After(k).1 <= m.limit
    ensures k <= 4096
  {
    hide Mapping.MappedFor, Mapping.NewBlocks, Mapping.After;
    JustTooLargeInStep(m, 4095);
    NewBlocksFit(m, 8191, 0x4000_0000);
    OneRefill(m, 4096);
    if k > 4096 {
      MappedGrows(m, 4097, k);
      assert false;
    }
  }

  lemma RegionInStep(m: Mapping, carved: nat, mapped: nat)
    requires m.Inv(carved, mapped) && (m.Steady() || m.JustTooLarge())
    ensures m.InStep(carved, mapped)
  {
    hide Mapping.After, Mapping.JustTooLarge, Mapping.InStep;
    var k: nat :| m.After(k) == (carved, mapped);
    if m.Steady() {
      SteadyInStep(m, k);
    } else {
      JustTooLargeEnds(m, k);
      StepOfJustTooLarge(m, k);
    }
  }

  lemma StepOfJustTooLarge(m: Mapping, k: nat)
    requires m.Ok() && m.JustTooLarge() && k <= 4096
    ensures m.InStep(m.After(k).0, m.After(k).1)
  {
    if k > 0 {
      JustTooLargeInStep(m, k - 1);
      hide Mapping.After;
      AddMulMod(0, k, 0x4_0000);
      assert (2 * k - 2) * m.blockSize == (2 * k - 2) * 0x2_0010;
    }
  }

  lemma StaysInStep(m: Mapping, carved: nat, mapped: nat, mapped': nat, n: nat)
    requires m.Ok() && m.Steady() && m.InStep(carved, mapped) && carved * m.blockSize <= mapped
    requires mapped' == m.MappedFor(carved, mapped) && carved * m.blockSize <= mapped'
    requires n == m.NewBlocks(carved, mapped') && n >= m.maxCount
    ensures m.InStep(carved + n, mapped')
  {
    var a, bs, inc, fits := carved * m.blockSize, m.blockSize, m.increment,
      (mapped' - carved * m.blockSize) / m.blockSize;
    assert (carved + n - 1) * bs == a + (n - 1) * bs;
    assert carved > 0 ==> (carved - 1) * bs == a - bs;
    MulMono(0, n - 1, bs);
    if m.NeedsMore(carved, mapped) {
      OneIncrement(a + m.maxCount * bs - mapped, inc);
      assert mapped' == mapped + inc;
      AddMulMod(mapped, 1, inc);
      if n > m.maxCount {
        MulMono(m.maxCount, n - 1, bs);
      } else {
        MulMono(2, m.batches, m.maxCount);
        assert fits == n;
        DivFacts(mapped' - a, bs);
        assert (n + 1) * bs == (n - 1) * bs + 2 * bs;
      }
    }
  }

  lemma OneIncrement(x: nat, increment: nat)
    requires 0 < x <= increment
    ensures RoundUp(x, increment) == increment
  {
    CeilUnique(x, increment, 1);
  }

  // ------------------------------------------------------------------ the end of a group

  /** Blocks never straddle the end of a group, or refills never stop at one that does. */
  predicate FillsGroups(m: Mapping, groupSize: nat)
    requires m.Ok()
  {
    groupSize % m.blockSize == 0 || ((m.Steady() || m.JustTooLarge()) && groupSize % m.increment == 0)
  }

  /** Does the last block carved start before the end of a group and end behind it? */
  predicate EndsAcross(bs: nat, carved: nat, groupSize: nat, i: nat) {
    carved > 0 && (carved - 1) * bs < i * groupSize < carved * bs
  }

  lemma NeverEndsAcross(m: Mapping, carved: nat, mapped: nat, groupSize: nat, i: nat)
    requires m.Inv(carved, mapped) && FillsGroups(m, groupSize)
    ensures !EndsAcross(m.blockSize, carved, groupSize, i)
  {
    assert m.Ok();
    hide Mapping.Inv;
    var bs := m.blockSize;
    var d := if groupSize % bs == 0 then bs else m.increment;
    MultipleOfMultiple(groupSize, d, i);
    if carved > 0 {
      if groupSize % bs == 0 {
        NotBetween(carved - 1, carved, bs, i * (groupSize / d));
      } else {
        BetweenIncrements(m, carved, mapped, i * (groupSize / d));
      }
    }
  }

  lemma MultipleOfMultiple(x: nat, d: nat, i: nat)
    requires d > 0 && x % d == 0
    ensures i * (x / d) >= 0 && i * x == i * (x / d) * d
  {
    assert x == x / d * d;
  }

  lemma NotBetween(a: int, b: int, d: nat, q: int)
    requires d > 0 && b <= a + 1
    ensures !(a * d < q * d < b * d)
  {
    if a * d < q * d < b * d {
      MulCancel(a, q, d);
      MulCancel(q, b, d);
    }
  }

  lemma StartsInLastPiece(m: Mapping, carved: nat, mapped: nat)
    requires m.Inv(carved, mapped) && (m.Steady() || m.JustTooLarge()) && carved > 0
    ensures m.increment > 0 && mapped % m.increment == 0 && (carved - 1) * m.blockSize >= 0
    ensures carved * m.blockSize <= mapped <= (carved - 1) * m.blockSize + m.increment
  {
    RegionInStep(m, carved, mapped);
    hide Mapping.After, Mapping.Steady, Mapping.JustTooLarge;
  }

  lemma BetweenIncrements(m: Mapping, carved: nat, mapped: nat, q: nat)
    requires m.Inv(carved, mapped) && (m.Steady() || m.JustTooLarge()) && carved > 0
    ensures !((carved - 1) * m.blockSize < q * m.increment < carved * m.blockSize)
  {
    StartsInLastPiece(m, carved, mapped);
    hide Mapping.Inv, Mapping.Steady, Mapping.JustTooLarge;
    LastPiece((carved - 1) * m.blockSize, carved * m.blockSize, mapped, m.increment, q);
  }

  lemma LastPiece(start: nat, end: nat, mapped: nat, inc: nat, q: nat)
    requires inc > 0 && mapped % inc == 0 && end <= mapped <= start + inc
    ensures !(start < q * inc < end)
  {
    var k := mapped / inc;
    assert mapped == k * inc && (k - 1) * inc == k * inc - inc;
    NotBetween(k - 1, k, inc, q);
  }

  // ------------------------------------------------------------------ configurations

  /** getMaxCachedHint */
  function MaxCached(size: nat, hint: nat, cachedBytes: nat): nat
    requires size > 0
  {
    Max(1, Min(hint, cachedBytes / size))
  }

  /** The configurations that map 2^18 bytes at a time: sizes up to 2^17 with at most 2^13
      bytes cached, or 16 bytes larger; groups of 2^19 to 2^21 bytes. */
  lemma MapsInSteps(size: nat, hint: nat, cachedBytes: nat, batches: nat, groupSize: nat, limit: nat)
    requires 0 < size && cachedBytes <= 0x2000 && batches in {4, 8} && groupSize in {0x8_0000, 0x10_0000, 0x20_0000}
    requires size <= 0x2_0000 || (size == 0x2_0010 && batches == 8 && limit <= 0x4000_0000)
    ensures
      var m := Mapping(size, MaxCached(size, hint, cachedBytes), batches, 0x4_0000, limit);
      m.Ok() && FillsGroups(m, groupSize)
  {
    var fits := cachedBytes / size;
    DivFacts(cachedBytes, size);
    if Min(hint, fits) > 1 {
      MulMono(Min(hint, fits), fits, size);
      MulMono(2, fits, size);
    }
  }

  /** Mapping a page at a time, a class of 4112 bytes is carved block by block, ... */
  lemma {:induction false} PageByPage(m: Mapping, k: nat)
    requires m == Mapping(4112, 1, 8, 4096, m.limit) && k <= 255
    ensures m.After(k) == (k, if k == 0 then 0 else (k + 1) * 4096)
  {
    if k == 0 {
    } else {
      PageByPage(m, k - 1);
      var carved, mapped := k - 1, if k == 1 then 0 else k * 4096;
      var more := carved * 4112 + 4112 - mapped;
      CeilUnique(more, 4096, if k == 1 then 2 else 1);
      assert m.MappedFor(carved, mapped) == (k + 1) * 4096;
      DivUnique((k + 1) * 4096 - carved * 4112, 4112, 1);
    }
  }

  /** ... and stops at a block that straddles the end of the first group of 2^18 bytes. */
  lemma StopsAcrossGroups(limit: nat)
    ensures
      var m := Mapping(4112, 1, 8, 4096, limit);
      m.After(64) == (64, 65 * 4096) && EndsAcross(4112, 64, 0x4_0000, 1) && !FillsGroups(m, 0x4_0000)
  {
    PageByPage(Mapping(4112, 1, 8, 4096, limit), 64);
  }
}

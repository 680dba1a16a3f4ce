/** Which groups of a free list take part in a page release (primary64.h
    collectGroupsToRelease), group by group. */
module GroupChoice {

  import opened Arithmetic
  import opened FreeListTypes
  import opened PackedCounters

  /** What the choice depends on: `used` allocated bytes of the region, groups of `groupSize`
      bytes, compact pointers of `ptrBytes`, and SmallerBlockReleasePageDelta. */
  datatype Tuning = Tuning(blockSize: nat, pageSize: nat, groupSize: nat, ptrBytes: nat, used: nat,
                           pageDelta: nat) {
    predicate Ok() {
      blockSize > 0 && pageSize > 0
    }

    function Bytes(g: BatchGroup): nat {
      |Blocks(g.batches)| * blockSize
    }

    predicate IsSmallBlock() {
      blockSize < pageSize / 16
    }

    function AllocatedGroupSize(g: BatchGroup): nat {
      var base := g.groupBase * ptrBytes;
      if used >= base + groupSize then groupSize else (used - base) % WORD_LIMIT
    }

    /** In 64-bit words: 99 less a sixteenth of the block size may wrap. */
    function ReleaseThreshold(g: BatchGroup): nat {
      AllocatedGroupSize(g) * ((99 - blockSize / 16) % WORD_LIMIT) % WORD_LIMIT / 100
    }

    predicate HighDensity(g: BatchGroup) {
      Bytes(g) >= ReleaseThreshold(g)
    }

    predicate ReachReleaseDelta(g: BatchGroup)
      requires Ok()
    {
      |Blocks(g.batches)| >= groupSize / blockSize || Bytes(g) - g.bytesAtLastCheckpoint >= pageSize * pageDelta
    }

    /** The group has gained enough free bytes to be taken out. */
    predicate Worth(g: BatchGroup)
      requires Ok()
    {
      && Bytes(g) > g.bytesAtLastCheckpoint
      && Bytes(g) - g.bytesAtLastCheckpoint >= RoundUp(blockSize, pageSize)
      && (IsSmallBlock() ==> HighDensity(g) && ReachReleaseDelta(g))
    }

    function Checkpointed(g: BatchGroup): BatchGroup {
      g.(bytesAtLastCheckpoint := Bytes(g))
    }

    function TakenOf(g: BatchGroup): seq<BatchGroup>
      requires Ok()
    {
      if Worth(g) then [Checkpointed(g)] else []
    }

    /** A group that stays; its checkpoint never exceeds what it holds. */
    function KeptOf(g: BatchGroup): seq<BatchGroup>
      requires Ok()
    {
      if Worth(g) then [] else [if Bytes(g) <= g.bytesAtLastCheckpoint then Checkpointed(g) else g]
    }

    /** The groups taken out, in the order of the list, ... */
    function Taken(groups: seq<BatchGroup>): seq<BatchGroup>
      requires Ok()
    {
      if groups == [] then [] else Taken(groups[..|groups| - 1]) + TakenOf(groups[|groups| - 1])
    }

    /** ... and those that stay. */
    function Kept(groups: seq<BatchGroup>): seq<BatchGroup>
      requires Ok()
    {
      if groups == [] then [] else Kept(groups[..|groups| - 1]) + KeptOf(groups[|groups| - 1])
    }
  }

  lemma OneMoreGroup(t: Tuning, groups: seq<BatchGroup>, i: nat)
    requires t.Ok() && i < |groups|
    ensures t.Taken(groups[..i + 1]) == t.Taken(groups[..i]) + t.TakenOf(groups[i])
    ensures t.Kept(groups[..i + 1]) == t.Kept(groups[..i]) + t.KeptOf(groups[i])
  {
    assert groups[..i + 1][..i] == groups[..i];
  }

  /** A group is taken out if and only if it is worth it. */
  lemma {:induction false} TakenIffWorth(t: Tuning, groups: seq<BatchGroup>, g: BatchGroup)
    requires t.Ok()
    ensures g in t.Taken(groups) <==> exists h :: h in groups && t.Worth(h) && g == t.Checkpointed(h)
  {
    hide Tuning.Worth, Tuning.Checkpointed;
    if groups == [] {
    } else {
      var rest, last := groups[..|groups| - 1], groups[|groups| - 1];
      TakenIffWorth(t, rest, g);
      assert groups == rest + [last];
      assert last in groups;
    }
  }

  /** The threshold of `a` allocated bytes, for a sixteenth `k` of the block size. */
  lemma ThresholdWraps(a: nat, k: nat)
    requires 0 < a <= 0x1_0000_0000 && k < 0x100_0000
    ensures k <= 99 ==> a * ((99 - k) % WORD_LIMIT) % WORD_LIMIT == a * (99 - k) <= a * 99
    ensures k > 99 ==> a * ((99 - k) % WORD_LIMIT) % WORD_LIMIT > 0x100_0000_0000_0000
  {
    if k <= 99 {
      MulMono(99 - k, 99, a);
    } else {
      Wraps(a, k - 99, WORD_LIMIT);
    }
  }

  lemma Wraps(a: nat, j: nat, w: nat)
    requires 0 < a <= 0x1_0000_0000 && 0 < j < 0x100_0000 && w > 0x100_0000_0000_0000
    ensures a * ((0 - j) % w) % w >= w - 0x100_0000_0000_0000
  {
    MulMono(j, 0x100_0000, a);
    MulMono(1, j, a);
    assert a * j == j * a;
    DivUnique(w - j, w, 0);
    assert (0 - j) % w == w - j;
    NegativeFactor(a, j, w);
    DivUnique(w - a * j, w, 0);
  }

  lemma NegativeFactor(a: nat, j: nat, w: nat)
    requires a > 0 && 0 < a * j <= w && j <= w
    ensures a * (w - j) >= 0 && a * (w - j) % w == (w - a * j) % w
  {
    assert a * (w - j) == (w - a * j) + (a - 1) * w;
    AddMulMod(w - a * j, a - 1, w);
  }

  /** For small blocks, a group whose allocated bytes are all free passes the density test if
      and only if the block size is below 1600 bytes.  From there on, which only pages of
      more than 25600 bytes make small, the threshold wraps to more than any group holds. */
  lemma DenseIffNoWrap(t: Tuning, g: BatchGroup)
    requires t.blockSize < 0x1_0000 && t.groupSize <= 0x1_0000_0000
    requires 0 < t.AllocatedGroupSize(g) <= t.groupSize
    requires t.AllocatedGroupSize(g) <= t.Bytes(g) < 0x2_0000_0000
    ensures t.HighDensity(g) <==> t.blockSize < 1600
  {
    hide Tuning.AllocatedGroupSize, Tuning.Bytes;
    ThresholdWraps(t.AllocatedGroupSize(g), t.blockSize / 16);
  }

  /** So such a class only ever gives pages back when it is forced to. */
  lemma NeverWorth(t: Tuning, g: BatchGroup)
    requires t.Ok() && 1600 <= t.blockSize < 0x1_0000 && t.IsSmallBlock() && t.groupSize <= 0x1_0000_0000
    requires 0 < t.AllocatedGroupSize(g) <= t.groupSize && t.Bytes(g) < 0x2_0000_0000
    ensures !t.Worth(g)
  {
    hide Tuning.AllocatedGroupSize, Tuning.Bytes, Tuning.ReachReleaseDelta;
    ThresholdWraps(t.AllocatedGroupSize(g), t.blockSize / 16);
  }

  // ------------------------------------------------------------------ in plain arithmetic

  /** Is the group among those taken, with what it holds as its new checkpoint? */
  predicate Goes(g: BatchGroup, taken: seq<BatchGroup>, blockSize: nat) {
    g.(bytesAtLastCheckpoint := |Blocks(g.batches)| * blockSize) in taken
  }

  /** Which groups of a list go.  Of blocks that are not small, those that have gained at least
      as many bytes as whole pages hold a block.  Of small blocks below 1600 bytes, those of
      them whose free bytes come to the share of the group's allocated bytes that the block
      size asks for and that are full or have gained so many pages.  Of larger small blocks,
      none. */
  ghost predicate ChosenFrom(groups: seq<BatchGroup>, taken: seq<BatchGroup>, blockSize: nat, pageSize: nat,
                             groupSize: nat, ptrBytes: nat, used: nat, pageDelta: nat)
    requires blockSize > 0 && pageSize > 0
  {
    && (forall h | h in taken :: exists g ::
         g in groups && h == g.(bytesAtLastCheckpoint := |Blocks(g.batches)| * blockSize))
    && (blockSize >= pageSize / 16 ==> forall g | g in groups ::
         Goes(g, taken, blockSize) <==>
           |Blocks(g.batches)| * blockSize - g.bytesAtLastCheckpoint >= RoundUp(blockSize, pageSize))
    && (blockSize < pageSize / 16 && pageSize <= 0x1_0000_0000 && groupSize <= 0x1_0000_0000 ==>
        forall g | g in groups ::
         var n, base := |Blocks(g.batches)|, g.groupBase * ptrBytes;
         var bytes := n * blockSize;
         var there := if used >= base + groupSize then groupSize else used - base;
         base < used && 0 < groupSize && bytes < 0x2_0000_0000 ==>
           (Goes(g, taken, blockSize) <==>
             && blockSize < 1600
             && bytes - g.bytesAtLastCheckpoint >= RoundUp(blockSize, pageSize)
             && there * (99 - blockSize / 16) < 100 * (bytes + 1)
             && (n >= groupSize / blockSize || bytes - g.bytesAtLastCheckpoint >= pageSize * pageDelta)))
  }

  /** The other groups stay, none with a checkpoint of more than it holds. */
  ghost predicate KeptFrom(groups: seq<BatchGroup>, kept: seq<BatchGroup>, taken: seq<BatchGroup>, blockSize: nat) {
    && |kept| + |taken| == |groups|
    && forall g | g in groups && !Goes(g, taken, blockSize) ::
         g.(bytesAtLastCheckpoint := Min(g.bytesAtLastCheckpoint, |Blocks(g.batches)| * blockSize)) in kept
  }

  lemma RoundsUpToSome(x: nat, d: nat)
    requires x > 0 && d > 0
    ensures RoundUp(x, d) > 0
  {
    CeilFacts(x, d);
  }

  /** What Worth comes to, for blocks that are not small ... */
  lemma WorthOfLarge(t: Tuning, g: BatchGroup)
    requires t.Ok() && t.blockSize >= t.pageSize / 16
    ensures t.Worth(g) <==>
      |Blocks(g.batches)| * t.blockSize - g.bytesAtLastCheckpoint >= RoundUp(t.blockSize, t.pageSize)
  {
    RoundsUpToSome(t.blockSize, t.pageSize);
    hide RoundUp, Tuning.HighDensity, Tuning.ReachReleaseDelta;
  }

  /** ... and for small ones. */
  lemma WorthOfSmall(t: Tuning, g: BatchGroup)
    requires t.Ok() && t.blockSize < t.pageSize / 16 && t.pageSize <= 0x1_0000_0000 && t.groupSize <= 0x1_0000_0000
    requires g.groupBase * t.ptrBytes < t.used && 0 < t.groupSize && |Blocks(g.batches)| * t.blockSize < 0x2_0000_0000
    ensures
      var n, base := |Blocks(g.batches)|, g.groupBase * t.ptrBytes;
      var bytes := n * t.blockSize;
      var there := if t.used >= base + t.groupSize then t.groupSize else t.used - base;
      t.Worth(g) <==>
        && t.blockSize < 1600
        && bytes - g.bytesAtLastCheckpoint >= RoundUp(t.blockSize, t.pageSize)
        && there * (99 - t.blockSize / 16) < 100 * (bytes + 1)
        && (n >= t.groupSize / t.blockSize || bytes - g.bytesAtLastCheckpoint >= t.pageSize * t.pageDelta)
  {
    RoundsUpToSome(t.blockSize, t.pageSize);
    AllocatedPlainly(t, g);
    DensePlainly(t, g);
    hide RoundUp, Tuning.HighDensity, Tuning.AllocatedGroupSize;
  }

  lemma AllocatedPlainly(t: Tuning, g: BatchGroup)
    requires g.groupBase * t.ptrBytes < t.used && 0 < t.groupSize <= 0x1_0000_0000
    ensures
      var base := g.groupBase * t.ptrBytes;
      0 < t.AllocatedGroupSize(g) == (if t.used >= base + t.groupSize then t.groupSize else t.used - base) <=
        t.groupSize
  {
  }

  lemma DensePlainly(t: Tuning, g: BatchGroup)
    requires 0 < t.AllocatedGroupSize(g) <= 0x1_0000_0000 && t.Bytes(g) < 0x2_0000_0000
    requires t.blockSize < 0x1000_0000
    ensures t.HighDensity(g) ==> t.blockSize < 1600
    ensures t.blockSize < 1600 ==>
      (t.HighDensity(g) <==> t.AllocatedGroupSize(g) * (99 - t.blockSize / 16) < 100 * (t.Bytes(g) + 1))
  {
    ThresholdWraps(t.AllocatedGroupSize(g), t.blockSize / 16);
    hide Tuning.AllocatedGroupSize, Tuning.Bytes;
  }

  lemma {:induction false} KeptUnlessWorth(t: Tuning, groups: seq<BatchGroup>)
    requires t.Ok()
    ensures |t.Kept(groups)| + |t.Taken(groups)| == |groups|
    ensures forall g | g in groups && !t.Worth(g) ::
      g.(bytesAtLastCheckpoint := Min(g.bytesAtLastCheckpoint, t.Bytes(g))) in t.Kept(groups)
  {
    hide Tuning.Worth, Tuning.Bytes;
    if groups == [] {
    } else {
      var rest, last := groups[..|groups| - 1], groups[|groups| - 1];
      KeptUnlessWorth(t, rest);
      assert groups == rest + [last];
    }
  }

  lemma GoesIffWorth(t: Tuning, groups: seq<BatchGroup>, g: BatchGroup)
    requires t.Ok() && g in groups
    requires forall i, j | 0 <= i < j < |groups| :: groups[i].groupBase < groups[j].groupBase
    ensures Goes(g, t.Taken(groups), t.blockSize) <==> t.Worth(g)
  {
    hide Tuning.Worth, Tuning.Taken, Blocks;
    TakenIffWorth(t, groups, t.Checkpointed(g));
  }

  /** The groups that Taken lists are those chosen in plain arithmetic. */
  lemma TakenAreChosen(t: Tuning, groups: seq<BatchGroup>)
    requires t.Ok() && forall i, j | 0 <= i < j < |groups| :: groups[i].groupBase < groups[j].groupBase
    ensures ChosenFrom(groups, t.Taken(groups), t.blockSize, t.pageSize, t.groupSize, t.ptrBytes, t.used, t.pageDelta)
    ensures KeptFrom(groups, t.Kept(groups), t.Taken(groups), t.blockSize)
  {
    hide Tuning.Worth, Tuning.Taken, Tuning.Kept, RoundUp, Blocks, Goes;
    forall g | g in groups ensures Goes(g, t.Taken(groups), t.blockSize) <==> t.Worth(g) {
      GoesIffWorth(t, groups, g);
    }
    KeptUnlessWorth(t, groups);
    forall h | h in t.Taken(groups)
      ensures exists g :: g in groups && h == g.(bytesAtLastCheckpoint := |Blocks(g.batches)| * t.blockSize)
    {
      TakenIffWorth(t, groups, h);
    }
    if t.blockSize >= t.pageSize / 16 {
      forall g | g in groups {
        WorthOfLarge(t, g);
      }
    } else if t.pageSize <= 0x1_0000_0000 && t.groupSize <= 0x1_0000_0000 {
      forall g | g in groups && g.groupBase * t.ptrBytes < t.used && 0 < t.groupSize
          && |Blocks(g.batches)| * t.blockSize < 0x2_0000_0000 {
        WorthOfSmall(t, g);
      }
    }
  }

  /** A group all of whose space is allocated and as many of whose blocks are free as it has
      room for goes, if it has gained a page's worth. */
  lemma FullGroupGoes(groups: seq<BatchGroup>, taken: seq<BatchGroup>, g: BatchGroup, blockSize: nat, pageSize: nat,
                      groupSize: nat, ptrBytes: nat, used: nat, pageDelta: nat)
    requires blockSize > 0 && pageSize > 0 && blockSize < 1600 <= groupSize <= 0x1_0000_0000 && g in groups
    requires pageSize <= 0x1_0000_0000
    requires ChosenFrom(groups, taken, blockSize, pageSize, groupSize, ptrBytes, used, pageDelta)
    requires g.groupBase * ptrBytes + groupSize <= used && |Blocks(g.batches)| * blockSize < 0x2_0000_0000
    requires |Blocks(g.batches)| >= groupSize / blockSize
    requires |Blocks(g.batches)| * blockSize - g.bytesAtLastCheckpoint >= RoundUp(blockSize, pageSize)
    ensures Goes(g, taken, blockSize)
  {
    var q, n := groupSize / blockSize, |Blocks(g.batches)|;
    DivFacts(groupSize, blockSize);
    assert (q + 1) * blockSize == q * blockSize + blockSize;
    MulMono(q, n, blockSize);
    var k := blockSize / 16;
    MulMono(16, groupSize / 100, k + 1);
    assert groupSize * (99 - k) == 100 * groupSize - groupSize * (k + 1);
    MulMono(1600, groupSize, k + 1);
    hide RoundUp, Blocks;
  }
}

/** RegionPageMap of release.h: one counter per (region, page), several counters
    packed in each 64-bit word of a buffer that is updated in place. */
module PackedCounters {
  import opened Arithmetic

  const WORD_LIMIT: nat := 0x1_0000_0000_0000_0000

  function Power(r: nat, k: nat): (p: nat)
    requires r > 0
    ensures p > 0
  {
    if k == 0 then 1 else r * Power(r, k - 1)
  }

  lemma {:induction false} PowerSum(r: nat, a: nat, b: nat)
    requires r > 0
    ensures Power(r, a + b) == Power(r, a) * Power(r, b)
  {
    if a == 0 {
    } else {
      PowerSum(r, a - 1, b);
      var x, y := Power(r, a - 1), Power(r, b);
      assert Power(r, a + b) == r * Power(r, a - 1 + b) == r * (x * y) == (r * x) * y;
    }
  }

  /** Shifting by k counters of `bits` bits is scaling by the k-th power of 2^bits. */
  lemma {:induction false} ShiftIsPower(bits: nat, k: nat)
    ensures k * bits >= 0 && Pow2(k * bits) == Power(Pow2(bits), k)
  {
    if k == 0 {
    } else {
      ShiftIsPower(bits, k - 1);
      var rest := (k - 1) * bits;
      assert k * bits == bits + rest;
      Pow2Sum(bits, rest);
    }
  }

  /** `1 << BitOffset` for counter `k` of a word of `bits`-bit counters. */
  function ShiftedOne(k: nat, bits: nat): (unit: nat)
    ensures unit == Power(Pow2(bits), k)
  {
    ShiftIsPower(bits, k);
    Pow2(k * bits)
  }

  /** Addition of 64-bit words. */
  function WordAdd(a: nat, b: nat): (sum: nat)
    ensures a + b < WORD_LIMIT ==> sum == a + b
  {
    (a + b) % WORD_LIMIT
  }

  /** Field `k` of a word cut into fields that each count up to r - 1. */
  function Field(w: nat, r: nat, k: nat): nat
    requires r > 0
  {
    w / Power(r, k) % r
  }

  /** `w | (high - low)` where the mask is the run of ones between two powers of
      two: the run becomes all ones, the bits above and below stay. */
  function OrRun(w: nat, low: nat, high: nat): (w': nat)
    requires 0 < low <= high
  {
    DivFacts(w, high);
    (w / high) * high + (high - low) + w % low
  }

  function OrField(w: nat, r: nat, k: nat): nat
    requires r > 0
  {
    MulMono(1, r, Power(r, k));
    OrRun(w, Power(r, k), Power(r, k + 1))
  }

  /** Adding `n` to field `k` without overflowing it changes no other field and
      does not carry out of the word. */
  lemma FieldAdd(w: nat, r: nat, k: nat, n: nat, j: nat)
    requires r > 0 && Field(w, r, k) + n < r
    ensures Field(w + n * Power(r, k), r, j) == Field(w, r, j) + (if j == k then n else 0)
    ensures k < j ==> (w + n * Power(r, k)) / Power(r, j) == w / Power(r, j)
  {
    hide Power;
    if j < k {
      PowerSplit(r, j, k);
      LowFieldKept(w, Power(r, j), r, Power(r, k - j - 1), n);
    } else if j == k {
      OwnFieldAdds(w, Power(r, k), r, n);
    } else {
      PowerSplit(r, k, j);
      HighPartKept(w, Power(r, k), r, Power(r, j - k - 1), n);
    }
  }

  lemma OwnFieldAdds(w: nat, p: nat, r: nat, n: nat)
    requires p > 0 && r > 0 && w / p % r + n < r
    ensures (w + n * p) / p % r == w / p % r + n
  {
    AddMulDiv(w, n, p);
    AddBelow(w / p, n, r);
  }

  lemma PowerSplit(r: nat, k: nat, j: nat)
    requires r > 0 && k < j
    ensures Power(r, j) == Power(r, k) * (r * Power(r, j - k - 1))
  {
    PowerSum(r, k, j - k);
  }

  lemma LowFieldKept(w: nat, a: nat, r: nat, c: nat, n: nat)
    requires a > 0 && r > 0
    ensures (w + n * (a * (r * c))) / a % r == w / a % r
  {
    var m := n * c;
    assert n * (a * (r * c)) == (m * r) * a;
    AddMulDiv(w, m * r, a);
    AddMulMod(w / a, m, r);
  }

  lemma HighPartKept(w: nat, p: nat, r: nat, x: nat, n: nat)
    requires p > 0 && r > 0 && x > 0
    requires w / p % r + n < r
    ensures p * (r * x) > 0 && (w + n * p) / (p * (r * x)) == w / (p * (r * x))
  {
    AddMulDiv(w, n, p);
    AddBelow(w / p, n, r);
    assert r * x > 0;
    DivDiv(w, p, r * x);
    DivDiv(w + n * p, p, r * x);
    DivDiv(w / p, r, x);
    DivDiv((w + n * p) / p, r, x);
  }

  lemma AddBelow(x: nat, n: nat, r: nat)
    requires r > 0 && x % r + n < r
    ensures (x + n) / r == x / r && (x + n) % r == x % r + n
  {
    DivFacts(x, r);
    assert x == (x / r) * r + x % r;
    DivUnique(x + n, r, x / r);
    assert x + n == ((x + n) / r) * r + (x + n) % r;
  }

  /** Setting a field to all ones adds what it lacks. */
  lemma OrFieldIsAdd(w: nat, r: nat, k: nat)
    requires r > 0
    ensures Field(w, r, k) < r
    ensures OrField(w, r, k) == w + (r - 1 - Field(w, r, k)) * Power(r, k)
  {
    PowerSum(r, k, 1);
    FillDigit(w, Power(r, k), r);
    MulMono(1, r, Power(r, k));
    assert (r - 1) * Power(r, k) == Power(r, k + 1) - Power(r, k);
  }

  lemma FillDigit(w: nat, p: nat, r: nat)
    requires p > 0 && r > 0
    ensures p * r > 0
    ensures (w / (p * r)) * (p * r) + (r - 1) * p + w % p == w + (r - 1 - w / p % r) * p
  {
    DivDiv(w, p, r);
    var f, q := w / p % r, w / p / r;
    assert w / p == q * r + f;
    assert w == (w / p) * p + w % p;
    assert (q * r + f) * p == q * (p * r) + f * p;
    assert (r - 1 - f) * p == (r - 1) * p - f * p;
  }

  lemma FieldOr(w: nat, r: nat, k: nat, j: nat)
    requires r > 0
    ensures Field(OrField(w, r, k), r, j) == if j == k then r - 1 else Field(w, r, j)
    ensures k < j ==> OrField(w, r, k) / Power(r, j) == w / Power(r, j)
  {
    OrFieldIsAdd(w, r, k);
    FieldAdd(w, r, k, r - 1 - Field(w, r, k), j);
  }

  /** A word update that leaves everything from field `ratio` on alone still fits
      the word. */
  lemma StaysInWord(w: nat, w': nat)
    requires w < WORD_LIMIT && w' / WORD_LIMIT == w / WORD_LIMIT
    ensures w' < WORD_LIMIT
  {
  }

  lemma ByteLimit()
    ensures Pow2(8) == 256
  {
  }

  lemma WordLimit(bits: nat)
    requires bits == WORD_BITS
    ensures Pow2(bits) == WORD_LIMIT
  {
    hide Pow2;
    ByteLimit();
    Pow2Sum(8, 8);
    Pow2Sum(16, 16);
    Pow2Sum(32, 32);
  }

  predicate IsPowerOfTwo(x: nat) {
    x > 0 && x == Pow2(Msb(x))
  }

  function RoundUpPowerOfTwo(x: nat): nat
    requires x > 0
  {
    if IsPowerOfTwo(x) then x else Pow2(Msb(x) + 1)
  }

  /** Bits per counter: enough for `maxValue`, rounded to a power of two so that a
      counter never straddles a word. */
  function CounterBits(maxValue: nat): nat
    requires maxValue > 0
  {
    RoundUpPowerOfTwo(Msb(maxValue) + 1)
  }

  lemma CounterBitsFit(maxValue: nat)
    requires 0 < maxValue < WORD_LIMIT
    ensures var bits := CounterBits(maxValue);
      && bits == Pow2(Msb(bits)) && Msb(bits) <= 6
      && bits * Pow2(6 - Msb(bits)) == WORD_BITS
      && maxValue <= Pow2(bits) - 1
  {
    var len := Msb(maxValue) + 1;
    var word := WORD_BITS;
    WordLimit(word);
    if len > word {
      Pow2Mono(word, len - 1);
    }
    RoundUpLog(len);
    var bits := CounterBits(maxValue);
    Pow2Sum(Msb(bits), 6 - Msb(bits));
    assert Pow2(6) == WORD_BITS;
    Pow2Mono(len, bits);
  }

  lemma RoundUpLog(len: nat)
    requires 0 < len <= WORD_BITS
    ensures var bits := RoundUpPowerOfTwo(len);
      len <= bits && bits == Pow2(Msb(bits)) && Msb(bits) <= 6
  {
    var m := Msb(len);
    var log := if len == Pow2(m) then m else m + 1;
    assert Pow2(6) == WORD_BITS;
    if log > 6 {
      Pow2Mono(6, m);
      Pow2Mono(7, log);
    }
    Pow2Less(log, log + 1);
    MsbUnique(Pow2(log), log);
  }

  /** The plain array that packed words stand for: one row of counters a region. */
  function SetCount(c: seq<seq<nat>>, r: nat, i: nat, v: nat): seq<seq<nat>>
    requires r < |c| && i < |c[r]|
  {
    var row: seq<nat> := c[r][i := v];
    c[r := row]
  }

  function Zeros(regions: nat, n: nat): seq<seq<nat>> {
    seq(regions, _ => seq(n, _ => 0))
  }

  function AddRange(row: seq<nat>, from: nat, to: nat): seq<nat> {
    seq(|row|, i requires 0 <= i < |row| => row[i] + if from <= i <= to then 1 else 0)
  }

  function FillRange(row: seq<nat>, from: nat, to: nat, v: nat): seq<nat> {
    seq(|row|, i requires 0 <= i < |row| => if from <= i <= to then v else row[i])
  }

  datatype Layout = Layout(regions: nat, numCounters: nat, radix: nat, ratio: nat, wordsPerRegion: nat) {
    ghost predicate Ok() {
      radix > 0 && ratio > 0 && Power(radix, ratio) == WORD_LIMIT && numCounters <= wordsPerRegion * ratio
    }

    function NumWords(): nat {
      regions * wordsPerRegion
    }

    function Slot(r: nat, i: nat): nat
      requires ratio > 0 && radix > 0
    {
      r * wordsPerRegion + i / ratio
    }

    function Stored(words: seq<nat>, r: nat, i: nat): nat
      requires ratio > 0 && radix > 0
    {
      if Slot(r, i) < |words| then Field(words[Slot(r, i)], radix, i % ratio) else 0
    }

    ghost predicate Shaped(counts: seq<seq<nat>>) {
      |counts| == regions && forall r | 0 <= r < regions :: |counts[r]| == numCounters
    }

    /** The words, read field by field, are the plain array of counters. */
    ghost predicate Encodes(words: seq<nat>, counts: seq<seq<nat>>)
      requires ratio > 0 && radix > 0
    {
      && |words| == NumWords()
      && (forall x | 0 <= x < |words| :: words[x] < WORD_LIMIT)
      && Shaped(counts)
      && (forall r, i | 0 <= r < regions && 0 <= i < numCounters :: Stored(words, r, i) == counts[r][i])
    }

    lemma SlotInRange(r: nat, i: nat)
      requires Ok() && r < regions && i < numCounters
      ensures i / ratio < wordsPerRegion
      ensures Slot(r, i) < NumWords()
    {
      DivBounds(wordsPerRegion, i, ratio);
      MulMono(r + 1, regions, wordsPerRegion);
      assert (r + 1) * wordsPerRegion == r * wordsPerRegion + wordsPerRegion;
    }

    lemma SlotsDistinct(r: nat, i: nat, r': nat, i': nat)
      requires Ok() && r < regions && i < numCounters && r' < regions && i' < numCounters
      requires Slot(r, i) == Slot(r', i') && i % ratio == i' % ratio
      ensures r == r' && i == i'
    {
      SlotInRange(r, i);
      SlotInRange(r', i');
      DivUnique(Slot(r, i), wordsPerRegion, r);
      DivUnique(Slot(r, i), wordsPerRegion, r');
      assert i == (i / ratio) * ratio + i % ratio;
      assert i' == (i' / ratio) * ratio + i' % ratio;
    }

    /** Replacing one field of one word replaces one counter of the plain array. */
    lemma Rewrite(words: seq<nat>, counts: seq<seq<nat>>, r: nat, i: nat, word: nat, value: nat)
      requires Ok() && Encodes(words, counts) && r < regions && i < numCounters
      requires word < WORD_LIMIT && Slot(r, i) < |words|
      requires Field(word, radix, i % ratio) == value
      requires forall j: nat | j < ratio && j != i % ratio ::
        Field(word, radix, j) == Field(words[Slot(r, i)], radix, j)
      ensures var updated: seq<nat> := words[Slot(r, i) := word];
        Encodes(updated, SetCount(counts, r, i, value))
    {
      var updated: seq<nat> := words[Slot(r, i) := word];
      var counts' := SetCount(counts, r, i, value);
      forall r', i' | 0 <= r' < regions && 0 <= i' < numCounters
        ensures Stored(updated, r', i') == counts'[r'][i']
      {
        SlotInRange(r', i');
        assert Stored(words, r', i') == counts[r'][i'];
        if Slot(r', i') == Slot(r, i) && i' % ratio == i % ratio {
          SlotsDistinct(r, i, r', i');
        }
      }
    }

    lemma AddToField(words: seq<nat>, counts: seq<seq<nat>>, r: nat, i: nat, n: nat, delta: nat)
      requires radix > 0 && ratio > 0 && delta == n * Power(radix, i % ratio)
      requires Ok() && Encodes(words, counts) && r < regions && i < numCounters
      requires counts[r][i] + n < radix
      ensures Slot(r, i) < |words|
      ensures var word := words[Slot(r, i)] + delta;
        var updated: seq<nat> := words[Slot(r, i) := word];
        word < WORD_LIMIT && Encodes(updated, SetCount(counts, r, i, counts[r][i] + n))
    {
      SlotInRange(r, i);
      var w, k := words[Slot(r, i)], i % ratio;
      var word := w + delta;
      assert Stored(words, r, i) == counts[r][i];
      forall j: nat ensures Field(word, radix, j) == Field(w, radix, j) + (if j == k then n else 0) {
        FieldAdd(w, radix, k, n, j);
      }
      FieldAdd(w, radix, k, n, ratio);
      StaysInWord(w, word);
      Rewrite(words, counts, r, i, word, counts[r][i] + n);
    }

    lemma FillField(words: seq<nat>, counts: seq<seq<nat>>, r: nat, i: nat)
      requires Ok() && Encodes(words, counts) && r < regions && i < numCounters
      ensures Slot(r, i) < |words|
      ensures var word := OrField(words[Slot(r, i)], radix, i % ratio);
        var updated: seq<nat> := words[Slot(r, i) := word];
        word < WORD_LIMIT && Encodes(updated, SetCount(counts, r, i, radix - 1))
    {
      SlotInRange(r, i);
      var w, k := words[Slot(r, i)], i % ratio;
      var word := OrField(w, radix, k);
      forall j: nat ensures Field(word, radix, j) == if j == k then radix - 1 else Field(w, radix, j) {
        FieldOr(w, radix, k, j);
      }
      FieldOr(w, radix, k, ratio);
      StaysInWord(w, word);
      Rewrite(words, counts, r, i, word, radix - 1);
    }

    lemma AllZero(words: seq<nat>)
      requires Ok() && |words| == NumWords()
      requires forall x | 0 <= x < |words| :: words[x] == 0
      ensures Encodes(words, Zeros(regions, numCounters))
    {
      forall r, i | 0 <= r < regions && 0 <= i < numCounters
        ensures Stored(words, r, i) == 0
      {
        DivUnique(0, Power(radix, i % ratio), 0);
      }
    }
  }

  /** The layout computed by `reset` for `n` counters a region with values up to
      `maxValue`. */
  method ChooseLayout(regions: nat, n: nat, maxValue: nat)
    returns (sizeBitsLog: nat, mask: nat, ratioLog: nat, wordsPerRegion: nat)
    requires 0 < maxValue < WORD_LIMIT
    ensures mask == Pow2(Pow2(sizeBitsLog)) - 1 && maxValue <= mask
    ensures Layout(regions, n, mask + 1, Pow2(ratioLog), wordsPerRegion).Ok()
  {
    hide Power, CounterBits, CeilDiv;
    var counterSizeBits := CounterBits(maxValue);
    CounterBitsFit(maxValue);
    sizeBitsLog := Msb(counterSizeBits);
    mask := Pow2(counterSizeBits) - 1;
    ratioLog := 6 - sizeBitsLog;
    wordsPerRegion := CeilDiv(n, Pow2(ratioLog));
    LayoutFits(n, counterSizeBits, Pow2(ratioLog));
  }

  lemma LayoutFits(n: nat, bits: nat, ratio: nat)
    requires ratio > 0 && bits * ratio == WORD_BITS
    ensures Power(Pow2(bits), ratio) == WORD_LIMIT
    ensures n <= CeilDiv(n, ratio) * ratio
  {
    ShiftIsPower(bits, ratio);
    WordLimit(ratio * bits);
    CeilFacts(n, ratio);
  }

  class RegionPageMap {
    var regions: nat
    var numCounters: nat
    var counterSizeBitsLog: nat
    var counterMask: nat
    var packingRatioLog: nat
    var sizePerRegion: nat
    var data: array?<nat>
    ghost var counts: seq<seq<nat>>

    ghost function Shape(): Layout
      reads this
    {
      Layout(regions, numCounters, counterMask + 1, Pow2(packingRatioLog), sizePerRegion)
    }

    ghost predicate Valid()
      reads this, data
    {
      data != null ==>
        && Shape().Ok()
        && counterMask == Pow2(Pow2(counterSizeBitsLog)) - 1
        && Shape().Encodes(data[..], counts)
    }

    ghost predicate InRange(r: int, i: int)
      reads this
    {
      data != null && 0 <= r < regions && 0 <= i < numCounters
    }

    predicate IsAllocated()
      reads this
    {
      data != null
    }

    constructor ()
      ensures Valid() && !IsAllocated()
    {
      regions, numCounters, counterSizeBitsLog, counterMask := 0, 0, 0, 0;
      packingRatioLog, sizePerRegion, data, counts := 0, 0, null, [];
    }

    /** Lays the counters out for values up to `maxValue`; `bufferAvailable` is
        false when neither a static buffer nor a mapping can be had. */
    method Reset(numberOfRegions: nat, countersPerRegion: nat, maxValue: nat, bufferAvailable: bool)
      requires numberOfRegions > 0 && countersPerRegion > 0
      requires 0 < maxValue < WORD_LIMIT
      modifies this
      ensures Valid() && IsAllocated() == bufferAvailable
      ensures IsAllocated() ==> fresh(data) && maxValue <= counterMask
      ensures regions == numberOfRegions && numCounters == countersPerRegion
      ensures IsAllocated() ==> counts == Zeros(regions, numCounters)
    {
      var sizeBitsLog, mask, ratioLog, wordsPerRegion := ChooseLayout(numberOfRegions, countersPerRegion, maxValue);
      regions, numCounters, sizePerRegion := numberOfRegions, countersPerRegion, wordsPerRegion;
      counterSizeBitsLog, counterMask, packingRatioLog := sizeBitsLog, mask, ratioLog;
      if !bufferAvailable {
        data := null;
        return;
      }
      ghost var shape := Layout(regions, numCounters, mask + 1, Pow2(ratioLog), wordsPerRegion);
      data := new nat[regions * sizePerRegion](_ => 0);
      counts := Zeros(regions, numCounters);
      shape.AllZero(data[..]);
    }

    method Get(region: nat, i: nat) returns (count: nat)
      requires Valid() && InRange(region, i)
      ensures count == counts[region][i] <= counterMask
    {
      Shape().SlotInRange(region, i);
      var index := i / Pow2(packingRatioLog);
      var unit := ShiftedOne(i % Pow2(packingRatioLog), Pow2(counterSizeBitsLog));
      count := data[region * sizePerRegion + index] / unit % (counterMask + 1);
      assert count == Shape().Stored(data[..], region, i);
    }

    method IncN(region: nat, i: nat, n: nat)
      requires Valid() && InRange(region, i)
      requires n > 0 && counts[region][i] + n <= counterMask
      modifies this`counts, data
      ensures Valid()
      ensures counts == SetCount(old(counts), region, i, old(counts)[region][i] + n)
    {
      var delta := n * ShiftedOne(i % Pow2(packingRatioLog), Pow2(counterSizeBitsLog));
      Shape().AddToField(data[..], counts, region, i, n, delta);
      var slot := region * sizePerRegion + i / Pow2(packingRatioLog);
      data[slot] := WordAdd(data[slot], delta);
      counts := SetCount(counts, region, i, counts[region][i] + n);
      assert data[..] == old(data[..])[slot := data[slot]];
    }

    method Inc(region: nat, i: nat)
      requires Valid() && InRange(region, i) && counts[region][i] < counterMask
      modifies this`counts, data
      ensures Valid()
      ensures counts == SetCount(old(counts), region, i, old(counts)[region][i] + 1)
    {
      IncN(region, i, 1);
    }

    method SetAsAllCounted(region: nat, i: nat)
      requires Valid() && InRange(region, i)
      modifies this`counts, data
      ensures Valid()
      ensures counts == SetCount(old(counts), region, i, counterMask)
    {
      Shape().FillField(data[..], counts, region, i);
      var slot := region * sizePerRegion + i / Pow2(packingRatioLog);
      data[slot] := OrField(data[slot], counterMask + 1, i % Pow2(packingRatioLog));
      counts := SetCount(counts, region, i, counterMask);
      assert data[..] == old(data[..])[slot := data[slot]];
    }

    /** incRange: the counters from `from` to `to` inclusive, clipped to the map. */
    method IncRange(region: nat, from: nat, to: nat)
      requires Valid() && IsAllocated() && region < regions && from <= to
      requires forall i | from <= i <= to && i < numCounters :: counts[region][i] < counterMask
      modifies this`counts, data
      ensures Valid()
      ensures counts == old(counts)[region := AddRange(old(counts)[region], from, to)]
    {
      var top := Min(to + 1, numCounters);
      var i := from;
      while i < top
        invariant Valid() && from <= i
        invariant forall r | 0 <= r < regions && r != region :: counts[r] == old(counts)[r]
        invariant forall j | 0 <= j < numCounters ::
          counts[region][j] == old(counts)[region][j] + if from <= j < i && j <= to then 1 else 0
      {
        Inc(region, i);
        i := i + 1;
      }
      assert counts[region] == AddRange(old(counts)[region], from, to);
    }

    method SetAsAllCountedRange(region: nat, from: nat, to: nat)
      requires Valid() && IsAllocated() && region < regions && from <= to
      modifies this`counts, data
      ensures Valid()
      ensures counts == old(counts)[region := FillRange(old(counts)[region], from, to, counterMask)]
    {
      var top := Min(to + 1, numCounters);
      var i := from;
      while i < top
        invariant Valid() && from <= i
        invariant forall r | 0 <= r < regions && r != region :: counts[r] == old(counts)[r]
        invariant forall j | 0 <= j < numCounters ::
          counts[region][j] == if from <= j < i && j <= to then counterMask else old(counts)[region][j]
      {
        SetAsAllCounted(region, i);
        i := i + 1;
      }
      assert counts[region] == FillRange(old(counts)[region], from, to, counterMask);
    }

    method UpdateAsAllCountedIf(region: nat, i: nat, maxCount: nat) returns (allCounted: bool)
      requires Valid() && InRange(region, i)
      modifies this`counts, data
      ensures Valid()
      ensures allCounted == (old(counts)[region][i] in {counterMask, maxCount})
      ensures counts == if allCounted then SetCount(old(counts), region, i, counterMask) else old(counts)
    {
      var count := Get(region, i);
      if count == counterMask {
        assert counts[region] == counts[region][i := counterMask];
        assert counts == SetCount(counts, region, i, counterMask);
        return true;
      }
      if count == maxCount {
        SetAsAllCounted(region, i);
        return true;
      }
      return false;
    }
  }
}

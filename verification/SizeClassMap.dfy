/** The table-free size classes (size_class_map.h scaledLog2 and FixedSizeClassMap). */
module SizeClassMap {

  import opened Arithmetic

  function Times(a: nat, b: nat): (r: nat) {
    a * b
  }

  /** The template parameters. */
  datatype Config = Config(minSizeLog: nat, midSizeLog: nat, maxSizeLog: nat, s: nat, sizeDelta: nat) {
    /** `s` is NumBits - 1. */
    predicate Valid() {
      s <= midSizeLog && minSizeLog <= midSizeLog <= maxSizeLog
    }

    function MinSize(): nat { Pow2(minSizeLog) }

    function MidSize(): nat { Pow2(midSizeLog) }

    function MidClass(): nat { MidSize() / MinSize() }

    function MaxSize(): nat { Pow2(maxSizeLog) + sizeDelta }

    function LargestClassId(): nat
      requires Valid()
    {
      MidClass() + Times(maxSizeLog - midSizeLog, Pow2(s))
    }
  }

  /** scaledLog2: the classes above 2^zeroLog, 2^logBits to a power of two. */
  function ScaledLog2(size: nat, zeroLog: nat, logBits: nat): int
    requires size > 0 && logBits <= Msb(size) && zeroLog <= Msb(size)
  {
    var l := Msb(size);
    size / Pow2(l - logBits) - Pow2(logBits) + Times(l - zeroLog, Pow2(logBits))
  }

  /** getSizeByClassId */
  function SizeByClassId(c: Config, classId: nat): nat
    requires c.Valid() && classId > 0
  {
    if classId <= c.MidClass() then Times(classId, c.MinSize()) + c.sizeDelta
    else
      var k := classId - c.MidClass();
      var t := Times(c.MidSize(), Pow2(k / Pow2(c.s)));
      t + Times(t / Pow2(c.s), k % Pow2(c.s)) + c.sizeDelta
  }

  /** getClassIdBySize */
  function ClassIdBySize(c: Config, size: nat): int
    requires c.Valid() && 0 < size
  {
    if size <= c.sizeDelta + c.MinSize() then 1
    else
      var x := size - c.sizeDelta;
      if x <= c.MidSize() then (x + c.MinSize() - 1) / c.MinSize()
      else
        MsbAtLeast(x - 1, c.midSizeLog);
        c.MidClass() + 1 + ScaledLog2(x - 1, c.midSizeLog, c.s)
  }

  lemma MsbAtLeast(x: nat, k: nat)
    requires x >= Pow2(k)
    ensures x > 0 && Msb(x) >= k
  {
    if Msb(x) < k {
      Pow2Mono(Msb(x) + 1, k);
    }
  }

  // ------------------------------------------------------------------ sizes past the middle

  /** The size at position `k` past the middle class, without the delta: with `p` classes to
      a power of two, a first step of 2^low, and quotient and remainder of `k` by `p`. */
  function Large(low: nat, p: nat, k: nat): nat
    requires p > 0
  {
    Times(Pow2(low + k / p), p + k % p)
  }

  lemma TimesFacts(step: nat, p: nat, r: nat)
    ensures Times(step, p + r + 1) == Times(step, p + r) + step
    ensures Times(step, p + r) == Times(step, p) + Times(step, r)
    ensures p > 0 ==> Times(2 * step, p) == Times(step, p + (p - 1)) + step
    ensures p > 0 ==> Times(step, p) / p == step
  {
    assert step * (p + r + 1) == step * (p + r) + step;
    if p > 0 {
      assert (step + 1) * p == step * p + p;
      DivUnique(step * p, p, step);
      assert step * (p + (p - 1)) == 2 * step * p - step;
    }
  }

  lemma SizeIsLarge(c: Config, classId: nat)
    requires c.Valid() && classId > c.MidClass()
    ensures SizeByClassId(c, classId) == Large(c.midSizeLog - c.s, Pow2(c.s), classId - c.MidClass()) + c.sizeDelta
  {
    hide Times, Pow2;
    var k, p := classId - c.MidClass(), Pow2(c.s);
    var q := k / p;
    var step := Pow2(c.midSizeLog - c.s + q);
    PowersAsTimes(c.midSizeLog, q);
    PowersAsTimes(c.midSizeLog - c.s + q, c.s);
    TimesFacts(step, p, k % p);
  }

  lemma PowersAsTimes(a: nat, b: nat)
    ensures Times(Pow2(a), Pow2(b)) == Pow2(a + b)
  {
    Pow2Sum(a, b);
  }

  /** Quotient and remainder of the next position. */
  lemma NextPosition(k: nat, p: nat)
    requires p > 0
    ensures k % p + 1 < p ==> (k + 1) / p == k / p && (k + 1) % p == k % p + 1
    ensures k % p + 1 >= p ==> (k + 1) / p == k / p + 1 && (k + 1) % p == 0 && k % p == p - 1
  {
    var q, r := k / p, k % p;
    assert k == q * p + r;
    assert (q + 1) * p == q * p + p && (q + 2) * p == q * p + p + p;
    if r + 1 < p {
      DivUnique(k + 1, p, q);
    } else {
      DivUnique(k + 1, p, q + 1);
    }
    assert k + 1 == (k + 1) / p * p + (k + 1) % p;
  }

  /** The step from position `k` to the next. */
  function StepAt(low: nat, p: nat, k: nat): nat
    requires p > 0
  {
    Pow2(low + k / p)
  }

  /** Each class past the middle is one step of its power of two above the one before. */
  lemma LargeStep(low: nat, p: nat, k: nat)
    requires p > 0
    ensures Large(low, p, k + 1) == Large(low, p, k) + StepAt(low, p, k)
  {
    hide Times;
    NextPosition(k, p);
    TimesFacts(Pow2(low + k / p), p, k % p);
    assert Pow2(low + (k / p + 1)) == 2 * Pow2(low + k / p);
  }

  /** Position 0 is the middle class itself. */
  lemma LargeZero(c: Config)
    requires c.Valid()
    ensures Large(c.midSizeLog - c.s, Pow2(c.s), 0) == c.MidSize()
  {
    hide Times, Pow2;
    PowersAsTimes(c.midSizeLog - c.s, c.s);
    ZeroPosition(Pow2(c.s));
  }

  lemma ZeroPosition(p: nat)
    requires p > 0
    ensures 0 / p == 0 && 0 % p == 0
  {
  }

  lemma MidClassFacts(c: Config)
    requires c.Valid()
    ensures c.MidClass() == Pow2(c.midSizeLog - c.minSizeLog) > 0
    ensures Times(c.MidClass(), c.MinSize()) == c.MidSize()
  {
    hide Times, Pow2;
    PowersAsTimes(c.midSizeLog - c.minSizeLog, c.minSizeLog);
    TimesFacts(Pow2(c.midSizeLog - c.minSizeLog), c.MinSize(), 0);
  }

  /** getSizeByClassId is strictly increasing: the distance to the next class. */
  lemma NextSize(c: Config, classId: nat)
    requires c.Valid() && classId > 0
    ensures SizeByClassId(c, classId) < SizeByClassId(c, classId + 1)
    ensures SizeByClassId(c, classId + 1) - SizeByClassId(c, classId) ==
      if classId < c.MidClass() then c.MinSize()
      else StepAt(c.midSizeLog - c.s, Pow2(c.s), classId - c.MidClass())
  {
    hide Large;
    MidClassFacts(c);
    var k := classId - c.MidClass();
    if classId < c.MidClass() {
      TimesFacts(c.MinSize(), 0, classId);
      Commute(classId, c.MinSize());
      Commute(classId + 1, c.MinSize());
    } else {
      hide Times, Pow2;
      LargeStep(c.midSizeLog - c.s, Pow2(c.s), k);
      SizeIsLarge(c, classId + 1);
      if k > 0 {
        SizeIsLarge(c, classId);
      } else {
        LargeZero(c);
      }
    }
  }

  lemma Commute(a: nat, b: nat)
    ensures Times(a, b) == Times(b, a)
  {
  }

  lemma {:induction false} StrictlyIncreasing(c: Config, a: nat, b: nat)
    requires c.Valid() && 0 < a < b
    ensures SizeByClassId(c, a) < SizeByClassId(c, b)
    decreases b
  {
    hide SizeByClassId;
    NextSize(c, b - 1);
    if a == b - 1 {
    } else {
      StrictlyIncreasing(c, a, b - 1);
    }
  }

  // ------------------------------------------------------------------ the inverse

  /** The leading bits of a word: `s + 1` of them, the first of which is set. */
  lemma LeadingBits(y: nat, s: nat)
    requires y > 0 && s <= Msb(y)
    ensures
      var unit := Pow2(Msb(y) - s);
      var top := y / unit;
      && Pow2(s) <= top < 2 * Pow2(s)
      && Times(unit, top) <= y < Times(unit, top) + unit
  {
    var l := Msb(y);
    assert Pow2(l + 1) == 2 * Pow2(l);
    hide Pow2, Times;
    PowersAsTimes(l - s, s);
    TopBits(y, Pow2(l - s), Pow2(s));
  }

  lemma TopBits(y: nat, unit: nat, p: nat)
    requires unit > 0 && Times(unit, p) <= y < 2 * Times(unit, p)
    ensures p <= y / unit < 2 * p
    ensures Times(unit, y / unit) <= y < Times(unit, y / unit) + unit
  {
    var top := y / unit;
    DivFacts(y, unit);
    assert (top + 1) * unit == top * unit + unit;
    Commute(unit, top);
    Commute(unit, p);
    TwiceTimes(p, unit);
    DivBounds(p, y, unit);
    DivBounds(2 * p, y, unit);
  }

  lemma TwiceTimes(p: nat, unit: nat)
    ensures 2 * Times(p, unit) == (2 * p) * unit && Times(p, unit) == p * unit
  {
  }

  /** Quotient and remainder of a position put together from them. */
  lemma PositionOf(q: nat, r: nat, p: nat)
    requires r < p
    ensures (Times(q, p) + r) / p == q && (Times(q, p) + r) % p == r
  {
    var k := Times(q, p) + r;
    assert (q + 1) * p == q * p + p;
    DivUnique(k, p, q);
    assert k == k / p * p + k % p;
  }

  /** scaledLog2 finds the last position whose size does not exceed `y`. */
  lemma ScaledLog2Position(c: Config, y: nat)
    requires c.Valid() && y > 0 && c.midSizeLog <= Msb(y)
    ensures
      var k := ScaledLog2(y, c.midSizeLog, c.s);
      && k >= 0
      && Large(c.midSizeLog - c.s, Pow2(c.s), k) <= y < Large(c.midSizeLog - c.s, Pow2(c.s), k + 1)
      && (Msb(y) < c.maxSizeLog ==> k < Times(c.maxSizeLog - c.midSizeLog, Pow2(c.s)))
  {
    hide Pow2, Times, Msb, Large, StepAt;
    var l, p, low := Msb(y), Pow2(c.s), c.midSizeLog - c.s;
    var q := l - c.midSizeLog;
    LeadingBits(y, c.s);
    var r := y / Pow2(l - c.s) - p;
    var k: int := r + Times(q, p);
    assert ScaledLog2(y, c.midSizeLog, c.s) == k;
    hide ScaledLog2;
    AtPosition(low, p, q, r);
    assert low + q == l - c.s;
    LargeStep(low, p, k);
    if l < c.maxSizeLog {
      TimesMono(q + 1, c.maxSizeLog - c.midSizeLog, p);
    }
  }

  lemma AtPosition(low: nat, p: nat, q: nat, r: nat)
    requires r < p
    ensures Large(low, p, r + Times(q, p)) == Times(Pow2(low + q), p + r)
    ensures StepAt(low, p, r + Times(q, p)) == Pow2(low + q)
  {
    hide Pow2, Times;
    PositionOf(q, r, p);
  }

  lemma TimesMono(a: nat, b: nat, p: nat)
    requires a <= b
    ensures Times(a, p) <= Times(b, p)
    ensures a > 0 ==> Times(a, p) == Times(a - 1, p) + p
  {
    MulMono(a, b, p);
    assert a > 0 ==> (a - 1) * p == a * p - p;
  }

  /** getClassIdBySize finds a class that is large enough, the one before being too small. */
  lemma ClassFits(c: Config, size: nat)
    requires c.Valid() && 0 < size <= c.MaxSize()
    ensures 1 <= ClassIdBySize(c, size) <= c.LargestClassId()
    ensures size <= SizeByClassId(c, ClassIdBySize(c, size))
    ensures ClassIdBySize(c, size) > 1 ==> SizeByClassId(c, ClassIdBySize(c, size) - 1) < size
  {
    MidClassFacts(c);
    if size <= c.sizeDelta + c.MinSize() {
      SmallestFits(c, size);
    } else if size - c.sizeDelta <= c.MidSize() {
      MidFits(c, size);
    } else {
      LargeFits(c, size);
    }
  }

  lemma SmallestFits(c: Config, size: nat)
    requires c.Valid() && 0 < size <= c.sizeDelta + c.MinSize() && c.MidClass() > 0
    ensures ClassIdBySize(c, size) == 1 <= c.LargestClassId() && size <= SizeByClassId(c, 1)
  {
    assert Times(1, c.MinSize()) == c.MinSize();
  }

  lemma MidFits(c: Config, size: nat)
    requires c.Valid() && c.sizeDelta + c.MinSize() < size <= c.sizeDelta + c.MidSize()
    ensures 1 < ClassIdBySize(c, size) <= c.MidClass() <= c.LargestClassId()
    ensures SizeByClassId(c, ClassIdBySize(c, size) - 1) < size <= SizeByClassId(c, ClassIdBySize(c, size))
  {
    hide Pow2;
    MidClassFacts(c);
    var x, m := size - c.sizeDelta, c.MinSize();
    var id := CeilDiv(x, m);
    CeilFacts(x, m);
    CeilBounds(1, x, m);
    CeilBounds(c.MidClass(), x, m);
    assert c.MidClass() * m == Times(c.MidClass(), m);
    assert (id - 1) * m == Times(id - 1, m) && id * m == Times(id, m);
  }

  lemma LargeFits(c: Config, size: nat)
    requires c.Valid() && c.sizeDelta + c.MidSize() < size <= c.MaxSize() && c.MinSize() <= c.MidSize()
    ensures c.MidClass() < ClassIdBySize(c, size) <= c.LargestClassId()
    ensures ClassIdBySize(c, size) > 1
    ensures SizeByClassId(c, ClassIdBySize(c, size) - 1) < size <= SizeByClassId(c, ClassIdBySize(c, size))
  {
    hide Large, Times, Pow2, Msb, ScaledLog2;
    var y := size - c.sizeDelta - 1;
    MsbAtLeast(y, c.midSizeLog);
    MsbBelow(y, c.maxSizeLog);
    ScaledLog2Position(c, y);
    MidClassFacts(c);
    var k := ScaledLog2(y, c.midSizeLog, c.s);
    var id := c.MidClass() + 1 + k;
    LargeClassId(c, size);
    hide ClassIdBySize;
    SizeIsLarge(c, id);
    if k > 0 {
      SizeIsLarge(c, id - 1);
    } else {
      LargeZero(c);
    }
  }

  lemma LargeClassId(c: Config, size: nat)
    requires c.Valid() && c.sizeDelta + c.MidSize() < size && c.MinSize() <= c.MidSize()
    requires size > c.sizeDelta + 1 && Msb(size - c.sizeDelta - 1) >= c.midSizeLog
    ensures ClassIdBySize(c, size) == c.MidClass() + 1 + ScaledLog2(size - c.sizeDelta - 1, c.midSizeLog, c.s)
  {
    hide ScaledLog2, Pow2, Msb;
  }

  lemma MsbBelow(y: nat, n: nat)
    requires 0 < y < Pow2(n)
    ensures Msb(y) < n
  {
    if Msb(y) >= n {
      Pow2Mono(n, Msb(y));
    }
  }

  /** For every size up to the largest, getClassIdBySize is the least class that holds it. */
  lemma ClassIsLeast(c: Config, size: nat, classId: nat)
    requires c.Valid() && 0 < size <= c.MaxSize() && classId > 0
    ensures 1 <= ClassIdBySize(c, size) <= c.LargestClassId()
    ensures size <= SizeByClassId(c, classId) <==> ClassIdBySize(c, size) <= classId
  {
    hide SizeByClassId, ClassIdBySize;
    ClassFits(c, size);
    var id := ClassIdBySize(c, size);
    if id < classId {
      StrictlyIncreasing(c, id, classId);
    } else if classId < id - 1 {
      StrictlyIncreasing(c, classId, id - 1);
    }
  }

  /** So the two functions are inverse on classes. */
  lemma ClassRoundTrip(c: Config, classId: nat)
    requires c.Valid() && 0 < classId <= c.LargestClassId()
    ensures 0 < SizeByClassId(c, classId) <= c.MaxSize()
    ensures ClassIdBySize(c, SizeByClassId(c, classId)) == classId
  {
    hide SizeByClassId, ClassIdBySize;
    LargestSize(c);
    SmallestIsPositive(c);
    if classId < c.LargestClassId() {
      StrictlyIncreasing(c, classId, c.LargestClassId());
    }
    if 1 < classId {
      StrictlyIncreasing(c, 1, classId);
    }
    var size := SizeByClassId(c, classId);
    ClassIsLeast(c, size, classId);
    var id := ClassIdBySize(c, size);
    ClassIsLeast(c, size, id);
    if id < classId {
      StrictlyIncreasing(c, id, classId);
    }
  }

  lemma SmallestIsPositive(c: Config)
    requires c.Valid()
    ensures SizeByClassId(c, 1) > 0
  {
    MidClassFacts(c);
    assert Times(1, c.MinSize()) == c.MinSize();
  }

  /** The largest class has the largest size. */
  lemma LargestSize(c: Config)
    requires c.Valid()
    ensures c.LargestClassId() > 0 && SizeByClassId(c, c.LargestClassId()) == c.MaxSize()
  {
    hide Large;
    MidClassFacts(c);
    var q, p := c.maxSizeLog - c.midSizeLog, Pow2(c.s);
    var k := Times(q, p);
    if q == 0 {
      assert k == 0;
    } else {
      TimesMono(1, q, p);
      SizeIsLarge(c, c.LargestClassId());
      LargestPosition(c.midSizeLog - c.s, c.s, q);
    }
  }

  lemma LargestPosition(low: nat, s: nat, q: nat)
    ensures Large(low, Pow2(s), Times(q, Pow2(s))) == Pow2(low + q + s)
  {
    hide Times, Pow2;
    PositionOf(q, 0, Pow2(s));
    PowersAsTimes(low + q, s);
  }
}

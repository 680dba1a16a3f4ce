/** Integer arithmetic shared by the models: powers of two, rounding to a
    boundary, and the few division facts the solver needs spelled out.  The
    sources compute with unsigned words; wrap-around is written out where it
    can occur. */
module Arithmetic {

  const WORD_BITS: nat := 64

  function Pow2(n: nat): (r: nat)
    ensures r > 0
  {
    if n == 0 then 1 else 2 * Pow2(n - 1)
  }

  lemma {:induction false} Pow2Sum(a: nat, b: nat)
    ensures Pow2(a + b) == Pow2(a) * Pow2(b)
  {
    if a == 0 {
    } else {
      Pow2Sum(a - 1, b);
      var x, y := Pow2(a - 1), Pow2(b);
      assert Pow2(a) == 2 * x;
      assert Pow2(a + b) == 2 * Pow2(a - 1 + b) == 2 * (x * y) == (2 * x) * y;
    }
  }

  lemma {:induction false} Pow2Mono(a: nat, b: nat)
    requires a <= b
    ensures Pow2(a) <= Pow2(b)
  {
    if a == b {
    } else {
      Pow2Mono(a, b - 1);
    }
  }

  lemma Pow2Less(a: nat, b: nat)
    requires a < b
    ensures Pow2(a) < Pow2(b)
  {
    Pow2Mono(a, b - 1);
  }

  lemma {:induction false} Pow2Above(n: nat)
    ensures n < Pow2(n)
  {
    if n == 0 {
    } else {
      Pow2Above(n - 1);
    }
  }

  /** Index of the most significant set bit (common.h getMostSignificantSetBitIndex). */
  function Msb(x: nat): (r: nat)
    requires x > 0
    ensures Pow2(r) <= x < Pow2(r + 1)
  {
    if x == 1 then 0 else 1 + Msb(x / 2)
  }

  lemma MsbUnique(x: nat, k: nat)
    requires x > 0 && Pow2(k) <= x < Pow2(k + 1)
    ensures Msb(x) == k
  {
    if Msb(x) < k {
      Pow2Mono(Msb(x) + 1, k);
    } else if k < Msb(x) {
      Pow2Mono(k + 1, Msb(x));
    }
  }

  function Min(a: int, b: int): int { if a < b then a else b }

  function Max(a: int, b: int): int { if a < b then b else a }

  function CeilDiv(x: nat, d: nat): nat
    requires d > 0
  {
    (x + d - 1) / d
  }

  /** roundUp and roundUpSlow of common.h: the mask form and the division form
      agree whenever the boundary is a power of two. */
  function RoundUp(x: nat, boundary: nat): nat
    requires boundary > 0
  {
    CeilDiv(x, boundary) * boundary
  }

  function RoundDown(x: nat, boundary: nat): nat
    requires boundary > 0
  {
    (x / boundary) * boundary
  }

  lemma DivFacts(x: nat, d: nat)
    requires d > 0
    ensures x / d >= 0 && (x / d) * d <= x < (x / d + 1) * d
  {
    assert x == (x / d) * d + x % d;
    assert (x / d + 1) * d == (x / d) * d + d;
  }

  lemma MulMono(a: int, b: int, d: nat)
    requires a <= b
    ensures a * d <= b * d
  {
  }

  lemma MulCancel(a: int, b: int, d: nat)
    requires d > 0 && a * d < b * d
    ensures a < b
  {
    if b <= a {
      MulMono(b, a, d);
    }
  }

  lemma DivUnique(x: nat, d: nat, q: int)
    requires d > 0 && q * d <= x < (q + 1) * d
    ensures x / d == q
  {
    DivFacts(x, d);
    MulCancel(q, x / d + 1, d);
    MulCancel(x / d, q + 1, d);
  }

  lemma CeilFacts(x: nat, d: nat)
    requires d > 0
    ensures (CeilDiv(x, d) - 1) * d < x <= CeilDiv(x, d) * d
  {
    DivFacts(x + d - 1, d);
    var q := CeilDiv(x, d);
    assert (q - 1) * d == q * d - d;
    assert (q + 1) * d == q * d + d;
  }

  lemma CeilUnique(x: nat, d: nat, q: int)
    requires d > 0 && (q - 1) * d < x <= q * d
    ensures CeilDiv(x, d) == q
  {
    assert (q - 1) * d == q * d - d;
    assert (q + 1) * d == q * d + d;
    DivUnique(x + d - 1, d, q);
  }

  /** The multiple of `d` at or below `x`, and the one after it, when a larger multiple exists. */
  lemma MultipleFits(x: nat, d: nat, end: nat)
    requires d > 0 && end % d == 0 && x < end
    ensures (x / d) * d <= x < (x / d) * d + d <= end
  {
    DivFacts(x, d);
    DivFacts(end, d);
    assert end == (end / d) * d;
    assert (x / d + 1) * d == (x / d) * d + d;
    MulCancel(x / d, end / d, d);
    MulMono(x / d + 1, end / d, d);
  }

  /** `a <= x / d` and `x / d < a` read without division. */
  lemma DivBounds(a: int, x: nat, d: nat)
    requires d > 0
    ensures a <= x / d <==> a * d <= x
    ensures x / d < a <==> x < a * d
  {
    DivFacts(x, d);
    if a <= x / d {
      MulMono(a, x / d, d);
    } else {
      MulMono(x / d + 1, a, d);
    }
  }

  lemma CeilBounds(a: int, x: nat, d: nat)
    requires d > 0
    ensures CeilDiv(x, d) <= a <==> x <= a * d
    ensures a < CeilDiv(x, d) <==> a * d < x
  {
    CeilFacts(x, d);
    var q := CeilDiv(x, d);
    if q <= a {
      MulMono(q, a, d);
    } else {
      MulMono(a, q - 1, d);
    }
  }

  lemma DivDiv(x: nat, a: nat, b: nat)
    requires a > 0 && b > 0
    ensures a * b > 0 && x / a / b == x / (a * b)
  {
    var q := x / a / b;
    DivFacts(x, a);
    DivFacts(x / a, b);
    assert q * (a * b) == (q * b) * a;
    assert (q + 1) * (a * b) == ((q + 1) * b) * a;
    MulMono(q * b, x / a, a);
    MulMono(x / a + 1, (q + 1) * b, a);
    DivUnique(x, a * b, q);
  }

  lemma AddMulDiv(x: nat, n: nat, d: nat)
    requires d > 0
    ensures (x + n * d) / d == x / d + n
  {
    DivFacts(x, d);
    var q := x / d;
    assert (q + n) * d == q * d + n * d;
    assert (q + n + 1) * d == (q + 1) * d + n * d;
    DivUnique(x + n * d, d, q + n);
  }

  lemma AddMulMod(x: nat, n: nat, d: nat)
    requires d > 0
    ensures (x + n * d) % d == x % d
  {
    AddMulDiv(x, n, d);
    assert x == (x / d) * d + x % d;
    var y := x + n * d;
    assert y == (y / d) * d + y % d;
    assert (x / d + n) * d == (x / d) * d + n * d;
  }
}

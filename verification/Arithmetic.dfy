/** Facts about products, quotients and set sizes the other modules use, proved once in isolation. */
module Arithmetic {

  lemma MulLe(a: int, b: int, c: int)
    requires a <= b && c >= 0
    ensures a * c <= b * c && c * a <= c * b
  {
  }

  lemma Distribute(a: int, b: int, c: int)
    ensures (a + b) * c == a * c + b * c
    ensures c * (a + b) == c * a + c * b
  {
  }

  lemma Cancel(h: int, x: int, y: int)
    requires h >= 1 && h * x < h * y
    ensures x < y
  {
    if x >= y { MulLe(y, x, h); }
  }

  lemma DivBetween(a: int, h: int)
    requires h >= 1
    ensures h * (a / h) <= a < h * (a / h + 1)
  {
    Distribute(a / h, 1, h);
  }

  /** A quotient is determined by the multiples around it. */
  lemma DivIs(a: int, h: int, q: int)
    requires h >= 1 && h * q <= a < h * (q + 1)
    ensures a / h == q
  {
    DivBetween(a, h);
    Cancel(h, a / h, q + 1);
    Cancel(h, q, a / h + 1);
  }

  lemma DivMonotone(a: int, b: int, h: int)
    requires h >= 1 && a <= b
    ensures a / h <= b / h
  {
    DivBetween(a, h);
    DivBetween(b, h);
    Cancel(h, a / h, b / h + 1);
  }

  lemma DivMultiple(q: int, h: int)
    requires h >= 1
    ensures (h * q) / h == q && (q * h) / h == q
  {
    Distribute(q, 1, h);
    DivIs(h * q, h, q);
  }

  /** A quotient lies where its dividend lies between multiples. */
  lemma DivInside(lo: int, hi: int, a: int, h: int)
    requires h >= 1 && lo * h <= a < hi * h
    ensures lo <= a / h < hi
  {
    DivBetween(a, h);
    Cancel(h, lo, a / h + 1);
    Cancel(h, a / h, hi);
  }

  function Pow2(e: nat): (p: nat)
    ensures p >= 1
  {
    if e == 0 then 1 else 2 * Pow2(e - 1)
  }

  lemma DivShift(a: int, h: int)
    requires h >= 1
    ensures (a + h) / h == a / h + 1
  {
    DivBetween(a, h);
    Distribute(a / h, 1, h);
    Distribute(a / h + 1, 1, h);
    DivIs(a + h, h, a / h + 1);
  }

  lemma PositiveProduct(a: real, b: real)
    requires a > 0.0 && b > 0.0
    ensures a * b > 0.0
  {
  }

  lemma Fraction(c: real, d: real)
    requires d > 0.0 && -d <= c <= d
    ensures -1.0 <= c / d <= 1.0
    ensures c / d == 1.0 <==> c == d
  {
  }

  lemma SubsetSize<T>(a: set<T>, b: set<T>)
    requires a <= b
    ensures |a| <= |b|
  {
    assert |b| == |a| + |b - a| by { assert b == a + (b - a); }
  }
}

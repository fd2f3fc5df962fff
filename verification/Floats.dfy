/**
 The 64-bit floating point the interval reader computes with: a real rounded to the nearest number of
 53 significant bits, halves to the even one, and what that leaves of an integer.
 */
module Floats {
  import opened Arithmetic

  const TWO52: int := 0x10_0000_0000_0000
  const TWO53: int := 0x20_0000_0000_0000

  // -------------------------------------------------------------------- rounding

  lemma Halves(x: real)
    requires 0.0 < x < TWO52 as real
    ensures 2.0 * TWO52 as real / (2.0 * x) <= 2.0 * TWO52 as real / x - 1.0
  {
    var q := TWO52 as real / x;
    assert q * x == TWO52 as real;
    assert q < 1.0 ==> q * x < x;
    assert (2.0 * x) * q == 2.0 * TWO52 as real;
    assert x * (2.0 * q) == 2.0 * TWO52 as real;
  }

  /** The distance between neighbouring floats around `x`. */
  function Ulp(x: real): (u: real)
    requires x > 0.0
    ensures u > 0.0
    decreases if x >= TWO53 as real then x else 2.0 * TWO52 as real / x
  {
    if x >= TWO53 as real then 2.0 * Ulp(x / 2.0)
    else if x >= TWO52 as real then 1.0
    else
      Halves(x);
      Ulp(2.0 * x) / 2.0
  }

  function HalfEven(y: real): int {
    var f := y.Floor;
    var rest := y - f as real;
    if rest < 0.5 || (rest == 0.5 && f % 2 == 0) then f else f + 1
  }

  function AbsReal(x: real): real {
    if x < 0.0 then -x else x
  }

  /** The float nearest to `x`. */
  function F64(x: real): real {
    if x == 0.0 then 0.0
    else
      var u := Ulp(AbsReal(x));
      var near := HalfEven(AbsReal(x) / u) as real * u;
      if x < 0.0 then -near else near
  }

  /** Every positive number has 53 bits before the point of its last place, and no more. */
  lemma {:induction false} UlpScale(x: real)
    requires x > 0.0
    ensures TWO52 as real * Ulp(x) <= x < TWO53 as real * Ulp(x)
    decreases if x >= TWO53 as real then x else 2.0 * TWO52 as real / x
  {
    if x >= TWO53 as real {
      UlpScale(x / 2.0);
    } else if x < TWO52 as real {
      Halves(x);
      UlpScale(2.0 * x);
    }
  }

  // The quotient `x / u`, without dividing.
  lemma Quotient(x: real, u: real)
    requires u > 0.0
    ensures (x / u) * u == x
  {
  }

  lemma Scaled(a: real, b: real, u: real)
    requires u > 0.0 && a <= b
    ensures a * u <= b * u
  {
  }

  lemma WithinHalf(y: real, n: real, u: real, x: real)
    requires u > 0.0 && y * u == x && y - 0.5 <= n <= y + 0.5
    ensures -u <= 2.0 * (n * u - x) <= u
  {
    var d := n - y;
    assert n * u - x == d * u;
    Scaled(-0.5, d, u);
    Scaled(d, 0.5, u);
  }

  /** A float is within half a last place. */
  lemma HalfUlp(x: real)
    requires x > 0.0
    ensures -Ulp(x) <= 2.0 * (F64(x) - x) <= Ulp(x)
  {
    hide Ulp;
    var u := Ulp(x);
    Quotient(x, u);
    WithinHalf(x / u, HalfEven(x / u) as real, u, x);
  }

  /** Rounding moves a number by at most one part in 2^53. */
  lemma Near(x: real)
    requires x >= 0.0
    ensures -x <= TWO53 as real * (F64(x) - x) <= x
  {
    if x > 0.0 {
      HalfUlp(x);
      UlpScale(x);
    }
  }

  lemma Odd(x: real)
    ensures F64(-x) == -F64(x)
  {
    hide Ulp, HalfEven;
  }

  // ---------------------------------------------------------------- whole numbers

  /** An integer of at most 53 significant bits. */
  predicate Representable(n: int)
    decreases if n < 0 then -n else n
  {
    -TWO53 <= n <= TWO53 || (n % 2 == 0 && Representable(n / 2))
  }

  lemma {:induction false} RepresentableNegated(n: int)
    ensures Representable(-n) == Representable(n)
    decreases if n < 0 then -n else n
  {
    if !(-TWO53 <= n <= TWO53) && n % 2 == 0 {
      RepresentableNegated(n / 2);
      assert (-n) / 2 == -(n / 2);
    }
  }

  lemma {:induction false} ShiftedRepresentable(q: int, e: nat)
    requires -TWO53 <= q <= TWO53
    ensures Representable(q * Pow2(e))
  {
    if e > 0 {
      ShiftedRepresentable(q, e - 1);
      var half := q * Pow2(e - 1);
      assert q * Pow2(e) == 2 * half;
    }
  }

  /** The last place of a number of more than 53 bits is a power of two. */
  lemma {:induction false} UlpIsPower(x: real) returns (e: nat)
    requires x >= TWO52 as real
    ensures Ulp(x) == Pow2(e) as real
    ensures x >= TWO53 as real ==> e > 0
    decreases x
  {
    if x < TWO53 as real {
      e := 0;
    } else {
      e := UlpIsPower(x / 2.0);
      e := e + 1;
    }
  }

  /** The one power of two that scales `x` to 53 bits is its last place. */
  lemma {:induction false} UlpAt(x: real, e: nat)
    requires TWO52 as real * Pow2(e) as real <= x < TWO53 as real * Pow2(e) as real
    ensures Ulp(x) == Pow2(e) as real
  {
    if e > 0 {
      UlpAt(x / 2.0, e - 1);
    }
  }

  ghost predicate IsWhole(y: real) {
    y == y.Floor as real
  }

  lemma CancelScale(a: real, b: real, u: real)
    requires u > 0.0 && a * u == b * u
    ensures a == b
  {
    assert (a - b) * u == 0.0;
  }

  /** A number is a float exactly when it is a whole number of last places. */
  lemma Fixed(x: real)
    requires x > 0.0
    ensures F64(x) == x <==> IsWhole(x / Ulp(x))
  {
    hide Ulp;
    var u := Ulp(x);
    var y := x / u;
    Quotient(x, u);
    if F64(x) == x {
      CancelScale(HalfEven(y) as real, y, u);
    }
  }

  lemma SameQuotient(x: real, u: real, x': real, u': real, k: real)
    requires u > 0.0 && u' > 0.0 && k > 0.0 && x' == k * x && u' == k * u
    ensures x / u == x' / u'
  {
    Quotient(x, u);
    Quotient(x', u');
    assert (x / u) * u' == k * ((x / u) * u);
    CancelScale(x / u, x' / u', u');
  }

  lemma Doubled(n: int, k: int, u: int, half: int)
    requires k as real * u as real == n as real && u == 2 * half
    ensures n % 2 == 0
  {
    assert (k * u) as real == n as real;
    assert k * u == 2 * (k * half);
  }

  lemma OddIsNotWhole(n: int)
    requires n >= TWO53 && n % 2 == 1
    ensures !IsWhole(n as real / Ulp(n as real))
  {
    var e := UlpIsPower(n as real);
    var u := Pow2(e);
    Quotient(n as real, u as real);
    var k := (n as real / u as real).Floor;
    if IsWhole(n as real / Ulp(n as real)) {
      Doubled(n, k, u, Pow2(e - 1));
      assert false;
    }
  }

  lemma {:induction false} WholeLastPlaces(n: int)
    requires n > 0
    ensures IsWhole(n as real / Ulp(n as real)) <==> Representable(n)
    decreases if n >= TWO53 then n else TWO53 - n
  {
    if n < TWO52 {
      WholeLastPlaces(2 * n);
      SameQuotient(n as real, Ulp(n as real), (2 * n) as real, Ulp((2 * n) as real), 2.0);
    } else if n >= TWO53 {
      if n % 2 == 0 {
        var half := n / 2;
        assert n as real / 2.0 == half as real;
        WholeLastPlaces(half);
        SameQuotient(half as real, Ulp(half as real), n as real, Ulp(n as real), 2.0);
      } else {
        OddIsNotWhole(n);
      }
    }
  }

  function Rounded(n: int): int {
    F64(n as real).Floor
  }

  // `y` is the quotient of a number of 53 bits before the point.
  lemma QuotientBelow(x: real, u: real, y: real)
    requires u > 0.0 && y * u == x && 0.0 <= x < TWO53 as real * u
    ensures 0 <= HalfEven(y) <= TWO53
  {
    assert y >= TWO53 as real ==> y * u >= TWO53 as real * u;
    assert y < 0.0 ==> y * u < 0.0;
  }

  lemma FloatOf(x: real, u: real)
    requires x > 0.0 && u == Ulp(x)
    ensures F64(x) == HalfEven(x / u) as real * u
  {
    hide Ulp, HalfEven;
  }

  // An integer of more than 53 bits becomes 53 bits and a power of two.
  lemma LargeRounds(n: int) returns (q: int, e: nat)
    requires n >= TWO53
    ensures F64(n as real) == (q * Pow2(e)) as real && 0 <= q <= TWO53
  {
    hide Ulp, Pow2, HalfEven, F64;
    e := UlpIsPower(n as real);
    var u := Pow2(e);
    UlpScale(n as real);
    Quotient(n as real, u as real);
    QuotientBelow(n as real, u as real, n as real / u as real);
    FloatOf(n as real, u as real);
    q := HalfEven(n as real / u as real);
    assert q as real * u as real == (q * u) as real;
  }

  lemma RoundedPositive(n: int)
    requires n > 0
    ensures F64(n as real) == Rounded(n) as real && Representable(Rounded(n))
  {
    hide Ulp, Pow2, F64;
    if n < TWO53 {
      WholeLastPlaces(n);
      Fixed(n as real);
    } else {
      var q, e := LargeRounds(n);
      ShiftedRepresentable(q, e);
    }
  }

  /** An integer rounds to an integer of 53 bits, and to itself exactly when it is one. */
  lemma WholeRounds(n: int)
    ensures F64(n as real) == Rounded(n) as real && Representable(Rounded(n))
    ensures Rounded(n) == n <==> Representable(n)
  {
    if n == 0 {
    } else {
      var a := if n < 0 then -n else n;
      RoundedPositive(a);
      WholeLastPlaces(a);
      Fixed(a as real);
      RepresentableNegated(a);
      RepresentableNegated(Rounded(a));
      Odd(a as real);
      assert n < 0 ==> Rounded(n) == -Rounded(a);
    }
  }

  lemma SmallIsExact(n: int)
    requires -TWO53 <= n <= TWO53
    ensures F64(n as real) == n as real
  {
    WholeRounds(n);
  }

  lemma DoubleRepresentable(n: int)
    ensures Representable(2 * n) == Representable(n)
  {
  }

  lemma HalvedProduct(k: int, n: int)
    ensures n % 2 == 0 ==> (k * n) / 2 == k * (n / 2)
    ensures n % 2 != 0 && k % 2 != 0 ==> (k * n) % 2 != 0
  {
    if n % 2 == 0 {
      var m := n / 2;
      assert k * (2 * m) == 2 * (k * m);
    } else if k % 2 != 0 {
      var j, m := k / 2, n / 2;
      assert (2 * j + 1) * (2 * m + 1) == 2 * (2 * (j * m) + j + m) + 1;
    }
  }

  /** A multiple keeps its bits only where the number keeps its own. */
  lemma {:induction false} FactorRepresentable(k: int, n: int)
    requires k > 0 && Representable(k * n)
    ensures Representable(n)
    decreases k, if n < 0 then -n else n
  {
    if !(-TWO53 <= n <= TWO53) {
      if k % 2 == 0 {
        assert 2 * ((k / 2) * n) == k * n;
        DoubleRepresentable((k / 2) * n);
        FactorRepresentable(k / 2, n);
      } else {
        Larger(k, n);
        HalvedProduct(k, n);
        FactorRepresentable(k, n / 2);
      }
    }
  }

  lemma Larger(k: int, n: int)
    requires k > 0
    ensures n > TWO53 ==> k * n > TWO53
    ensures n < -TWO53 ==> k * n < -TWO53
  {
    assert n > 0 ==> k * n >= n;
    assert n < 0 ==> k * n <= n;
  }

  /** `trunc`. */
  function Trunc(x: real): int {
    if x < 0.0 then -((-x).Floor) else x.Floor
  }

  /** `round`: to the nearest integer, halves away from zero. */
  function Round(x: real): int {
    if x < 0.0 then -((0.5 - x).Floor) else (x + 0.5).Floor
  }

  /** A whole number of millionths survives being rounded as a fraction and scaled back. */
  lemma MillionthsSurvive(r: nat, x: real)
    requires r < 60_000_000 && x * 1_000_000.0 == r as real
    ensures Round(F64(F64(x) * 1_000_000.0)) == r
    ensures 0.0 <= F64(x) < 60.0
  {
    hide F64;
    Near(x);
    Near(F64(x) * 1_000_000.0);
  }

  /** 2^53 + 1 is the first integer that is lost. */
  lemma FirstLost()
    ensures Rounded(TWO53 + 1) == TWO53
  {
    UlpAt((TWO53 + 1) as real, 1);
  }

  lemma TenPlaces()
    ensures Pow2(10) == 1024
  {
    assert Pow2(0) == 1 && Pow2(1) == 2 && Pow2(2) == 4 && Pow2(3) == 8 && Pow2(4) == 16 && Pow2(5) == 32;
    assert Pow2(6) == 64 && Pow2(7) == 128 && Pow2(8) == 256 && Pow2(9) == 512;
  }

  /** The largest 64-bit integer rounds up out of range; the smallest is a float. */
  lemma LimitsRounded()
    ensures Rounded(0x7FFF_FFFF_FFFF_FFFF) == 0x8000_0000_0000_0000
    ensures Representable(-0x8000_0000_0000_0000)
  {
    TenPlaces();
    UlpAt(0x7FFF_FFFF_FFFF_FFFF as real, 10);
    ShiftedRepresentable(-TWO53, 10);
  }
}

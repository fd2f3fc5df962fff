/**
 Sums of squares and products about the mean, in the textbook's two passes, and the one-pass
 Youngs-Cramer step that the aggregates use (crates/nodus_executor/src/aggregates.rs).
 Floating point is modelled by `real`.
 */
module Moments {

  function Sum(s: seq<real>): real {
    if s == [] then 0.0 else Sum(s[..|s| - 1]) + s[|s| - 1]
  }

  /** Σ (u - a)(v - b). */
  function Dev(u: seq<real>, v: seq<real>, a: real, b: real): real
    requires |u| == |v|
  {
    if u == [] then 0.0
    else
      var n := |u| - 1;
      Dev(u[..n], v[..n], a, b) + (u[n] - a) * (v[n] - b)
  }

  function Mean(s: seq<real>): real {
    if s == [] then 0.0 else Sum(s) / |s| as real
  }

  /** Σ (u - mean u)(v - mean v): a first pass for the means, a second for the products. */
  function Co(u: seq<real>, v: seq<real>): real
    requires |u| == |v|
  {
    Dev(u, v, Mean(u), Mean(v))
  }

  lemma ExpandProduct(x: real, y: real, a: real, b: real)
    ensures (x - a) * (y - b) == x * y - a * y - b * x + a * b
  {
  }

  lemma DevLast(u: seq<real>, v: seq<real>, a: real, b: real)
    requires |u| == |v| >= 1
    ensures var n := |u| - 1;
            Dev(u, v, a, b) == Dev(u[..n], v[..n], a, b) + 1.0 * ((u[n] - a) * (v[n] - b))
  {
  }

  lemma Nothing(a: real, b: real)
    ensures Dev([], [], a, b) == 0.0 && Sum([]) == 0.0
  {
  }

  lemma SumLast(s: seq<real>)
    requires s != []
    ensures Sum(s) == Sum(s[..|s| - 1]) + s[|s| - 1]
  {
  }

  lemma {:induction false} DevExpands(u: seq<real>, v: seq<real>, a: real, b: real)
    requires |u| == |v|
    ensures Dev(u, v, a, b) == Dev(u, v, 0.0, 0.0) - a * Sum(v) - b * Sum(u) + |u| as real * (a * b)
  {
    hide Dev, Sum;
    if u == [] {
      assert v == [];
      Nothing(a, b);
      Nothing(0.0, 0.0);
    } else {
      var n := |u| - 1;
      DevExpands(u[..n], v[..n], a, b);
      DevLast(u, v, a, b);
      DevLast(u, v, 0.0, 0.0);
      SumLast(u);
      SumLast(v);
      Expansion(Dev(u[..n], v[..n], 0.0, 0.0), Sum(u[..n]), Sum(v[..n]), n as real, u[n], v[n], a, b);
    }
  }

  lemma Expansion(p: real, su: real, sv: real, n: real, x: real, y: real, a: real, b: real)
    ensures p - a * sv - b * su + n * (a * b) + 1.0 * ((x - a) * (y - b)) ==
              p + 1.0 * ((x - 0.0) * (y - 0.0)) - a * (sv + y) - b * (su + x) + (n + 1.0) * (a * b)
  {
    ExpandProduct(x, y, a, b);
    Spread(a, sv, y);
    Spread(b, su, x);
    Spread(a * b, n, 1.0);
  }

  lemma Spread(a: real, x: real, y: real)
    ensures a * (x + y) == a * x + a * y && (x + y) * a == x * a + y * a
  {
  }

  /** n·Co = n·Σuv - Σu·Σv. */
  lemma CoClosed(u: seq<real>, v: seq<real>)
    requires |u| == |v|
    ensures |u| as real * Co(u, v) == |u| as real * Dev(u, v, 0.0, 0.0) - Sum(u) * Sum(v)
  {
    hide Dev, Sum, Mean;
    var n, a, b := |u| as real, Mean(u), Mean(v);
    DevExpands(u, v, a, b);
    MeanTimes(u);
    MeanTimes(v);
    Closing(n, a, b, Sum(u), Sum(v), Dev(u, v, 0.0, 0.0), Co(u, v));
  }

  lemma MeanTimes(s: seq<real>)
    ensures |s| as real * Mean(s) == Sum(s)
  {
    if s != [] {
      var n := |s| as real;
      assert n * (Sum(s) / n) == Sum(s);
    }
  }

  lemma Closing(n: real, a: real, b: real, su: real, sv: real, p: real, c: real)
    requires n * a == su && n * b == sv
    requires c == p - a * sv - b * su + n * (a * b)
    ensures n * c == n * p - su * sv
  {
    var ab := a * b;
    assert a * (n * b) == n * ab && b * (n * a) == n * ab;
    assert (n * a) * (n * b) == n * (n * ab);
    assert c == p - n * ab;
  }

  /** The Youngs-Cramer increment on reaching the n-th pair, from the running sums. */
  function Increment(x: real, y: real, n: real, sx: real, sy: real): real
    requires n > 1.0
  {
    assert n * (n - 1.0) > 0.0;
    (x * n - sx) * (y * n - sy) / (n * (n - 1.0))
  }

  lemma SumSnoc(u: seq<real>, x: real)
    ensures Sum(u + [x]) == Sum(u) + x
  {
    assert (u + [x])[..|u|] == u;
  }

  lemma DevSnoc(u: seq<real>, v: seq<real>, x: real, y: real, a: real, b: real)
    requires |u| == |v|
    ensures Dev(u + [x], v + [y], a, b) == Dev(u, v, a, b) + (x - a) * (y - b)
  {
    assert (u + [x])[..|u|] == u && (v + [y])[..|v|] == v;
  }

  /** One more pair: the one-pass step reaches the two-pass value. */
  lemma YoungsCramer(u: seq<real>, v: seq<real>, x: real, y: real)
    requires |u| == |v| >= 1
    ensures var n := (|u| + 1) as real;
            Co(u + [x], v + [y]) == Co(u, v) + Increment(x, y, n, Sum(u) + x, Sum(v) + y)
  {
    hide Co, Dev, Increment, Sum;
    var m: real, p, su, sv := |u| as real, Dev(u, v, 0.0, 0.0), Sum(u), Sum(v);
    var c, c' := Co(u, v), Co(u + [x], v + [y]);
    assert m * c == m * p - su * sv by { CoClosed(u, v); }
    assert (m + 1.0) * c' == (m + 1.0) * (p + (x - 0.0) * (y - 0.0)) - (su + x) * (sv + y) by {
      CoClosed(u + [x], v + [y]);
      SumSnoc(u, x);
      SumSnoc(v, y);
      DevSnoc(u, v, x, y, 0.0, 0.0);
      assert |u + [x]| as real == m + 1.0;
    }
    IncrementIs(x, y, m, su, sv);
    Step(m, p, su, sv, x, y, c, c', Increment(x, y, m + 1.0, su + x, sv + y));
  }

  lemma IncrementIs(x: real, y: real, m: real, su: real, sv: real)
    requires m >= 1.0
    ensures m * ((m + 1.0) * Increment(x, y, m + 1.0, su + x, sv + y)) == (m * x - su) * (m * y - sv)
  {
    var t, d := (x * (m + 1.0) - (su + x)) * (y * (m + 1.0) - (sv + y)), (m + 1.0) * m;
    assert x * (m + 1.0) - (su + x) == m * x - su;
    assert y * (m + 1.0) - (sv + y) == m * y - sv;
    assert d > 0.0;
    assert (t / d) * d == t;
    Reorder(m, m + 1.0, t / d);
  }

  lemma Reorder(a: real, b: real, c: real)
    ensures a * (b * c) == c * (b * a)
  {
  }

  // Both sides agree once multiplied by m·(m+1).
  lemma Step(m: real, p: real, su: real, sv: real, x: real, y: real, c: real, c': real, inc: real)
    requires m >= 1.0
    requires m * c == m * p - su * sv
    requires (m + 1.0) * c' == (m + 1.0) * (p + (x - 0.0) * (y - 0.0)) - (su + x) * (sv + y)
    requires m * ((m + 1.0) * inc) == (m * x - su) * (m * y - sv)
    ensures c' == c + inc
  {
    var k := m + 1.0;
    assert m * (k * (c + inc)) == k * (m * c) + m * (k * inc) by { Rearranged(m, k, c, inc); }
    Polynomial(m, p, su, sv, x, y);
    Equated(m, k, c + inc, c', k * (p + x * y) - (su + x) * (sv + y));
  }

  lemma Rearranged(m: real, k: real, c: real, inc: real)
    ensures m * (k * (c + inc)) == k * (m * c) + m * (k * inc)
  {
  }

  lemma Equated(m: real, k: real, a: real, b: real, z: real)
    requires m > 0.0 && k > 0.0 && m * (k * a) == m * z && k * b == z
    ensures a == b
  {
    CancelReal(m, k * a, z);
    CancelReal(k, a, b);
  }

  lemma Polynomial(m: real, p: real, su: real, sv: real, x: real, y: real)
    ensures (m + 1.0) * (m * p - su * sv) + (m * x - su) * (m * y - sv) ==
              m * ((m + 1.0) * (p + x * y) - (su + x) * (sv + y))
  {
    var s, q, r, z := su * sv, x * sv, su * y, x * y;
    assert (m * x - su) * (m * y - sv) == m * (m * z) - m * q - m * r + s;
    assert (su + x) * (sv + y) == s + r + q + z;
  }

  lemma CancelReal(k: real, a: real, b: real)
    requires k > 0.0 && k * a == k * b
    ensures a == b
  {
    assert k * (a - b) == 0.0;
  }

  lemma FirstPair(x: real, y: real)
    ensures Co([x], [y]) == 0.0
  {
    assert [x][..0] == [] && [y][..0] == [];
    assert Sum([x]) == x && Sum([y]) == y;
    assert Mean([x]) == x / 1.0 && Mean([y]) == y / 1.0;
    DevLast([x], [y], x, y);
  }

  // --------------------------------------------------------------- Cauchy-Schwarz

  lemma Square(x: real)
    ensures x * x >= 0.0
  {
  }

  lemma CancelPositive(k: real, x: real)
    requires k > 0.0 && k * x <= 0.0
    ensures x <= 0.0
  {
  }

  lemma CancelNegative(k: real, x: real)
    requires k < 0.0 && k * x <= 0.0
    ensures x >= 0.0
  {
  }

  lemma NoSquare(x: real)
    requires x * x <= 0.0
    ensures x == 0.0
  {
    if x > 0.0 { CancelPositive(x, x); }
    if x < 0.0 { CancelNegative(x, x); }
  }

  lemma SquareIs(x: real, y: real)
    requires y == x * x
    ensures y >= 0.0
    ensures y == 0.0 ==> x == 0.0
    ensures x == 0.0 ==> y == 0.0
  {
    if y == 0.0 { NoSquare(x); }
    assert x == 0.0 ==> x * x == 0.0;
  }

  // A quadratic form whose discriminant is not positive.
  lemma Form(a: real, b: real, c: real, s: real, t: real)
    requires a >= 0.0 && b >= 0.0 && c * c <= a * b
    ensures a * (t * t) + b * (s * s) - 2.0 * (c * (s * t)) >= 0.0
  {
    Square(s);
    Square(t);
    var form := a * (t * t) + b * (s * s) - 2.0 * (c * (s * t));
    if a == 0.0 {
      ZeroProduct(a, b, c);
      NonNegative(b, s * s);
      assert form == b * (s * s);
    } else {
      var z, d := a * t - c * s, a * b - c * c;
      Square(z);
      NonNegative(d, s * s);
      FormTimes(a, b, c, s, t);
      assert a * form == z * z + d * (s * s);
      Quotient(a, form);
    }
  }

  lemma ZeroProduct(a: real, b: real, c: real)
    requires a == 0.0 && c * c <= a * b
    ensures c == 0.0
  {
    SquareIs(c, c * c);
    assert a * b == 0.0;
  }

  lemma Quotient(a: real, x: real)
    requires a > 0.0 && a * x >= 0.0
    ensures x >= 0.0
  {
    if x < 0.0 { Negative(a, x); }
  }

  lemma FormTimes(a: real, b: real, c: real, s: real, t: real)
    ensures a * (a * (t * t) + b * (s * s) - 2.0 * (c * (s * t))) ==
              (a * t - c * s) * (a * t - c * s) + (a * b - c * c) * (s * s)
  {
    var u, v := a * t, c * s;
    assert (u - v) * (u - v) == u * u - 2.0 * (u * v) + v * v;
    assert u * u == a * (a * (t * t)) && v * v == (c * c) * (s * s) && u * v == a * (c * (s * t));
    assert (a * b - c * c) * (s * s) == a * (b * (s * s)) - (c * c) * (s * s);
  }

  lemma NonNegative(a: real, b: real)
    requires a >= 0.0 && b >= 0.0
    ensures a * b >= 0.0
  {
  }

  lemma Negative(a: real, b: real)
    requires a > 0.0 && b < 0.0
    ensures a * b < 0.0
  {
  }

  // The inequality survives one more term of weight k.
  lemma FormGrows(a: real, b: real, c: real, s: real, t: real, k: real)
    requires a >= 0.0 && b >= 0.0 && c * c <= a * b && k >= 0.0
    ensures a + k * (s * s) >= 0.0 && b + k * (t * t) >= 0.0
    ensures (c + k * (s * t)) * (c + k * (s * t)) <= (a + k * (s * s)) * (b + k * (t * t))
  {
    Form(a, b, c, s, t);
    Square(s);
    Square(t);
    NonNegative(k, s * s);
    NonNegative(k, t * t);
    var form := a * (t * t) + b * (s * s) - 2.0 * (c * (s * t));
    NonNegative(k, form);
    var ss, tt, st := k * (s * s), k * (t * t), k * (s * t);
    assert (c + st) * (c + st) == c * c + 2.0 * (c * st) + st * st;
    assert (a + ss) * (b + tt) == a * b + a * tt + ss * b + ss * tt;
    assert st * st == ss * tt by { Regroup(k, s, t); }
    assert k * form == a * tt + ss * b - 2.0 * (c * st) by { Weighted(a, b, c, s, t, k); }
  }

  lemma Regroup(k: real, s: real, t: real)
    ensures (k * (s * t)) * (k * (s * t)) == (k * (s * s)) * (k * (t * t))
  {
    assert (s * t) * (s * t) == (s * s) * (t * t);
  }

  lemma Weighted(a: real, b: real, c: real, s: real, t: real, k: real)
    ensures k * (a * (t * t) + b * (s * s) - 2.0 * (c * (s * t))) ==
              a * (k * (t * t)) + (k * (s * s)) * b - 2.0 * (c * (k * (s * t)))
  {
    var ss, tt, st := s * s, t * t, s * t;
    assert k * (a * tt + b * ss - 2.0 * (c * st)) == k * (a * tt) + k * (b * ss) - 2.0 * (k * (c * st));
  }

  lemma {:induction false} DevCauchySchwarz(u: seq<real>, v: seq<real>, a: real, b: real)
    requires |u| == |v|
    ensures Dev(u, u, a, a) >= 0.0 && Dev(v, v, b, b) >= 0.0
    ensures Dev(u, v, a, b) * Dev(u, v, a, b) <= Dev(u, u, a, a) * Dev(v, v, b, b)
  {
    hide Dev;
    if u == [] {
      assert v == [];
      Nothing(a, a);
      Nothing(b, b);
      Nothing(a, b);
    } else {
      var n := |u| - 1;
      var ui, vi := u[..n], v[..n];
      DevCauchySchwarz(ui, vi, a, b);
      DevLast(u, u, a, a);
      DevLast(v, v, b, b);
      DevLast(u, v, a, b);
      FormGrows(Dev(ui, ui, a, a), Dev(vi, vi, b, b), Dev(ui, vi, a, b), u[n] - a, v[n] - b, 1.0);
    }
  }

  /** Σ(u-ū)(v-v̄) squared is at most Σ(u-ū)² times Σ(v-v̄)². */
  lemma CauchySchwarz(u: seq<real>, v: seq<real>)
    requires |u| == |v|
    ensures Co(u, u) >= 0.0 && Co(v, v) >= 0.0
    ensures Co(u, v) * Co(u, v) <= Co(u, u) * Co(v, v)
  {
    hide Dev, Mean;
    DevCauchySchwarz(u, v, Mean(u), Mean(v));
  }

  /** There is no spread exactly when all values are equal. */
  lemma {:induction false} NoSpread(u: seq<real>, a: real)
    ensures Dev(u, u, a, a) >= 0.0
    ensures Dev(u, u, a, a) == 0.0 <==> forall i :: 0 <= i < |u| ==> u[i] == a
  {
    if u != [] {
      var n := |u| - 1;
      NoSpread(u[..n], a);
      var d := u[n] - a;
      DevLast(u, u, a, a);
      SquareIs(d, d * d);
      assert forall i :: 0 <= i < n ==> u[..n][i] == u[i];
    }
  }

  // ---------------------------------------------------------------- least squares

  /** Σ (y - a - b·x)²: how far the line a + b·x is from the pairs. */
  function Residual(xs: seq<real>, ys: seq<real>, a: real, b: real): real
    requires |xs| == |ys|
  {
    if xs == [] then 0.0
    else
      var n := |xs| - 1;
      var d := ys[n] - a - b * xs[n];
      Residual(xs[..n], ys[..n], a, b) + d * d
  }

  lemma ResidualLast(xs: seq<real>, ys: seq<real>, a: real, b: real)
    requires |xs| == |ys| >= 1
    ensures var n := |xs| - 1;
            Residual(xs, ys, a, b) == Residual(xs[..n], ys[..n], a, b) + (ys[n] - a - b * xs[n]) * (ys[n] - a - b * xs[n])
  {
  }

  lemma NoResidual(a: real, b: real)
    ensures Residual([], [], a, b) == 0.0
  {
  }

  // The residual about any point (mx, my), with e the line's error there.
  function Expanded(dxx: real, dyy: real, dxy: real, tx: real, ty: real, n: real, b: real, e: real): real {
    dyy + b * b * dxx - 2.0 * (b * dxy) + n * (e * e) + 2.0 * (e * ty) - 2.0 * (e * b * tx)
  }

  lemma {:induction false} ResidualExpands(xs: seq<real>, ys: seq<real>, n: real, mx: real, my: real,
                                           a: real, b: real, e: real, tx: real, ty: real)
    requires |xs| == |ys| && n == |xs| as real && e == my - a - b * mx
    requires tx == Sum(xs) - n * mx && ty == Sum(ys) - n * my
    ensures Residual(xs, ys, a, b) ==
              Expanded(Dev(xs, xs, mx, mx), Dev(ys, ys, my, my), Dev(xs, ys, mx, my), tx, ty, n, b, e)
    decreases |xs|
  {
    hide Residual, Dev, Sum, Expanded;
    if xs == [] {
      assert ys == [];
      NoResidual(a, b);
      Nothing(mx, mx);
      Nothing(my, my);
      Nothing(mx, my);
      assert tx == 0.0 && ty == 0.0;
      NothingExpanded(b, e);
    } else {
      var m := |xs| - 1;
      var xi, yi, p, q := xs[..m], ys[..m], xs[m] - mx, ys[m] - my;
      var d := ys[m] - a - b * xs[m];
      assert tx - p == Sum(xi) - (n - 1.0) * mx by { SumLast(xs); Spread(mx, n, -1.0); }
      assert ty - q == Sum(yi) - (n - 1.0) * my by { SumLast(ys); Spread(my, n, -1.0); }
      ResidualExpands(xi, yi, n - 1.0, mx, my, a, b, e, tx - p, ty - q);
      assert Residual(xs, ys, a, b) == Residual(xi, yi, a, b) + d * d by { ResidualLast(xs, ys, a, b); }
      var dxx, dyy, dxy := Dev(xi, xi, mx, mx), Dev(yi, yi, my, my), Dev(xi, yi, mx, my);
      assert Dev(xs, xs, mx, mx) == dxx + 1.0 * (p * p) by { DevLast(xs, xs, mx, mx); }
      assert Dev(ys, ys, my, my) == dyy + 1.0 * (q * q) by { DevLast(ys, ys, my, my); }
      assert Dev(xs, ys, mx, my) == dxy + 1.0 * (p * q) by { DevLast(xs, ys, mx, my); }
      assert d == q - b * p + e by { Spread(b, mx, p); }
      OneMore(dxx, dyy, dxy, tx - p, ty - q, n - 1.0, b, e, p, q, d,
              Dev(xs, xs, mx, mx), Dev(ys, ys, my, my), Dev(xs, ys, mx, my), tx, ty, n);
    }
  }

  lemma NothingExpanded(b: real, e: real)
    ensures Expanded(0.0, 0.0, 0.0, 0.0, 0.0, 0.0, b, e) == 0.0
  {
  }

  lemma OneMore(dxx: real, dyy: real, dxy: real, tx: real, ty: real, m: real,
                b: real, e: real, p: real, q: real, d: real,
                dxx': real, dyy': real, dxy': real, tx': real, ty': real, n: real)
    requires d == q - b * p + e
    requires dxx' == dxx + 1.0 * (p * p) && dyy' == dyy + 1.0 * (q * q) && dxy' == dxy + 1.0 * (p * q)
    requires tx' == tx + p && ty' == ty + q && n == m + 1.0
    ensures Expanded(dxx, dyy, dxy, tx, ty, m, b, e) + d * d == Expanded(dxx', dyy', dxy', tx', ty', n, b, e)
  {
    hide Expanded;
    var r := b * p;
    ThreeSquared(q, r, e);
    assert r * r == b * b * (p * p);
    assert r * q == b * (p * q);
    assert e * r == e * b * p;
    ExpandedGrows(dxx, dyy, dxy, tx, ty, m, b, e, p, q);
  }

  lemma ThreeSquared(q: real, r: real, e: real)
    ensures (q - r + e) * (q - r + e) == q * q + r * r + e * e - 2.0 * (r * q) + 2.0 * (e * q) - 2.0 * (e * r)
  {
  }

  lemma ExpandedGrows(dxx: real, dyy: real, dxy: real, tx: real, ty: real, m: real, b: real, e: real, p: real, q: real)
    ensures Expanded(dxx + 1.0 * (p * p), dyy + 1.0 * (q * q), dxy + 1.0 * (p * q), tx + p, ty + q, m + 1.0, b, e) ==
              Expanded(dxx, dyy, dxy, tx, ty, m, b, e)
              + q * q + b * b * (p * p) + e * e - 2.0 * (b * (p * q)) + 2.0 * (e * q) - 2.0 * (e * b * p)
  {
    Spread(b * b, dxx, p * p);
    Spread(b, dxy, p * q);
    Spread(e * e, m, 1.0);
    Spread(e, ty, q);
    Spread(e * b, tx, p);
  }

  /** The residual of any line, by the sums about the means. */
  lemma ResidualCentred(xs: seq<real>, ys: seq<real>, a: real, b: real)
    requires |xs| == |ys|
    ensures var e := Mean(ys) - a - b * Mean(xs);
            Residual(xs, ys, a, b) == Co(ys, ys) + b * b * Co(xs, xs) - 2.0 * (b * Co(xs, ys)) + |xs| as real * (e * e)
  {
    hide Residual, Dev, Sum, Mean;
    var mx, my := Mean(xs), Mean(ys);
    var n := |xs| as real;
    ResidualExpands(xs, ys, n, mx, my, a, b, my - a - b * mx, Sum(xs) - n * mx, Sum(ys) - n * my);
    MeanTimes(xs);
    MeanTimes(ys);
  }

  /** No line is closer to the pairs than the one with slope sxy/sxx through the means. */
  lemma LeastSquares(xs: seq<real>, ys: seq<real>, a: real, b: real, a': real, b': real)
    requires |xs| == |ys| && Co(xs, xs) > 0.0
    requires b == Co(xs, ys) / Co(xs, xs) && a == Mean(ys) - b * Mean(xs)
    ensures Residual(xs, ys, a, b) <= Residual(xs, ys, a', b')
  {
    hide Residual, Co, Mean;
    ResidualCentred(xs, ys, a, b);
    ResidualCentred(xs, ys, a', b');
    var sxx, sxy, n := Co(xs, xs), Co(xs, ys), |xs| as real;
    var e, e' := Mean(ys) - a - b * Mean(xs), Mean(ys) - a' - b' * Mean(xs);
    assert e == 0.0 && n * (e * e) == 0.0;
    assert b * sxx == sxy;
    Square(e');
    NonNegative(n, e' * e');
    BestSlope(sxx, sxy, b, b');
  }

  lemma BestSlope(sxx: real, sxy: real, b: real, c: real)
    requires sxx > 0.0 && b * sxx == sxy
    ensures b * b * sxx - 2.0 * (b * sxy) <= c * c * sxx - 2.0 * (c * sxy)
  {
    Square(c - b);
    NonNegative(sxx, (c - b) * (c - b));
    assert (c - b) * (c - b) == c * c - 2.0 * (b * c) + b * b;
    assert sxx * ((c - b) * (c - b)) == c * c * sxx - 2.0 * (c * (b * sxx)) + b * b * sxx;
    assert b * sxy == b * b * sxx;
  }
}

/**
 The statistics aggregates (crates/nodus_executor/src/aggregates.rs): `stddev`/`variance`
 over one column, `corr`, `covar_*` and `regr_*` over pairs. Floating point and numerics are
 modelled by `real`; a square root stays symbolic.
 */
module Aggregates {
  import Arithmetic
  import opened Moments

  /** A column value, as far as these aggregates look at it. */
  datatype Value = Null | Exact(exact: real) | Float(float: real) | Other {
    predicate Number?() { Exact? || Float? }

    function Amount(): real
      requires Number?()
    {
      if Exact? then exact else float
    }
  }

  /** A result. `Root` is the square root of a variance, `OverRoot` a quotient by one. */
  datatype Answer =
    | Nothing
    | Count(count: int)
    | ExactAnswer(exact: real)
    | FloatAnswer(float: real)
    | ExactRoot(exactRadicand: real)
    | FloatRoot(floatRadicand: real)
    | OverRoot(numerator: real, radicand: real)
    | NoSuchFunction

  // ------------------------------------------------------------------- one column

  datatype SpreadOp = StddevSamp | StddevPop | VarSamp | VarPop {
    predicate Sample() { StddevSamp? || VarSamp? }

    predicate Rooted() { StddevSamp? || StddevPop? }
  }

  ghost predicate AllNumbers(values: seq<Value>) {
    forall i :: 0 <= i < |values| ==> values[i].Number?()
  }

  function Amounts(values: seq<Value>): (r: seq<real>)
    requires AllNumbers(values)
    ensures |r| == |values|
    ensures forall i :: 0 <= i < |r| ==> r[i] == values[i].Amount()
  {
    seq(|values|, i requires 0 <= i < |values| => values[i].Amount())
  }

  function HasFloat(values: seq<Value>): bool {
    exists i :: 0 <= i < |values| && values[i].Float?
  }

  /** The textbook variance: mean of the squared deviations from the mean. */
  function Variance(xs: seq<real>, sample: bool): real
    requires |xs| >= (if sample then 2 else 1)
  {
    Co(xs, xs) / (if sample then (|xs| - 1) as real else |xs| as real)
  }

  /** What every spread aggregate promises. */
  ghost predicate Spreads(op: SpreadOp, values: seq<Value>, a: Answer) {
    if |values| == 0 || (op.Sample() && |values| < 2) then a == Nothing
    else if !AllNumbers(values) then a == NoSuchFunction
    else
      var v := Variance(Amounts(values), op.Sample());
      if HasFloat(values) then a == if op.Rooted() then FloatRoot(v) else FloatAnswer(v)
      else a == if op.Rooted() && v > 0.0 then ExactRoot(v) else ExactAnswer(v)
  }

  lemma AmountsSnoc(values: seq<Value>, i: nat)
    requires i < |values| && AllNumbers(values[..i + 1])
    ensures AllNumbers(values[..i]) && values[i].Number?()
    ensures Amounts(values[..i + 1]) == Amounts(values[..i]) + [values[i].Amount()]
  {
    assert values[..i + 1][i] == values[i];
    assert forall j :: 0 <= j < i ==> values[..i + 1][j] == values[..i][j];
  }

  lemma NumbersSnoc(values: seq<Value>, i: nat)
    requires i < |values| && AllNumbers(values[..i]) && values[i].Number?()
    ensures AllNumbers(values[..i + 1])
  {
    assert forall j :: 0 <= j < i ==> values[..i + 1][j] == values[..i][j];
  }

  lemma NotANumber(values: seq<Value>, i: nat)
    requires i < |values| && !values[i].Number?()
    ensures !AllNumbers(values)
  {
  }

  /** The one-pass loop over floats reaches the two-pass sum of squares. */
  method FloatSquares(values: seq<Value>) returns (ok: bool, squares: real)
    ensures ok <==> AllNumbers(values)
    ensures ok ==> squares == Co(Amounts(values), Amounts(values))
  {
    hide Co, Sum, Amounts, AllNumbers, Increment;
    ghost var xs := [];
    var count, sum := 0.0, 0.0;
    squares := 0.0;
    EmptyMoments(values);
    for i := 0 to |values|
      invariant AllNumbers(values[..i]) && xs == Amounts(values[..i]) && |xs| == i
      invariant count == i as real && sum == Sum(xs) && squares == Co(xs, xs)
    {
      if !values[i].Number?() {
        NotANumber(values, i);
        return false, 0.0;
      }
      var x := values[i].Amount();
      NumbersSnoc(values, i);
      AmountsSnoc(values, i);
      SumSnoc(xs, x);
      count := count + 1.0;
      sum := sum + x;
      if count > 1.0 {
        YoungsCramer(xs, xs, x, x);
        squares := squares + Squared(x, count, sum);
      } else {
        assert xs == [];
        FirstPair(x, x);
        assert [] + [x] == [x];
      }
      xs := xs + [x];
    }
    assert values[..|values|] == values;
    ok := true;
  }

  function Squared(x: real, count: real, sum: real): (r: real)
    requires count > 1.0
    ensures r == Increment(x, x, count, sum, sum)
  {
    var t := x * count - sum;
    assert count * (count - 1.0) > 0.0;
    t * t / (count * (count - 1.0))
  }

  lemma EmptyMoments(values: seq<Value>)
    ensures AllNumbers(values[..0]) && Amounts(values[..0]) == []
    ensures Sum([]) == 0.0 && Co([], []) == 0.0
  {
  }

  /** The exact path sums the values and their squares. */
  method ExactSums(values: seq<Value>) returns (ok: bool, sum: real, squares: real)
    ensures ok <==> AllNumbers(values)
    ensures ok ==> sum == Sum(Amounts(values)) && squares == Dev(Amounts(values), Amounts(values), 0.0, 0.0)
  {
    hide Dev, Sum, Amounts, AllNumbers;
    ghost var xs := [];
    sum, squares := 0.0, 0.0;
    EmptyMoments(values);
    Moments.Nothing(0.0, 0.0);
    for i := 0 to |values|
      invariant AllNumbers(values[..i]) && xs == Amounts(values[..i]) && |xs| == i
      invariant sum == Sum(xs) && squares == Dev(xs, xs, 0.0, 0.0)
    {
      if !values[i].Number?() {
        NotANumber(values, i);
        return false, 0.0, 0.0;
      }
      var x := values[i].Amount();
      NumbersSnoc(values, i);
      AmountsSnoc(values, i);
      SumSnoc(xs, x);
      DevSnoc(xs, xs, x, x, 0.0, 0.0);
      squares := squares + x * x;
      sum := sum + x;
      xs := xs + [x];
    }
    assert values[..|values|] == values;
    ok := true;
  }

  lemma Quotients(n: real, c: real, d: real, numerator: real)
    requires n > 0.0 && d > 0.0 && numerator == n * c
    ensures n * d > 0.0 && numerator / (n * d) == c / d
    ensures numerator <= 0.0 <==> c <= 0.0
    ensures c > 0.0 ==> c / d > 0.0
    ensures c == 0.0 ==> c / d == 0.0
  {
    var q := c / d;
    assert q * d == c;
    assert n * d > 0.0;
    assert q * (n * d) == n * c;
    Signs(n, c);
    Signs(d, q);
  }

  lemma Signs(n: real, c: real)
    requires n > 0.0
    ensures n * c <= 0.0 <==> c <= 0.0
    ensures n * c == c * n
  {
    if c > 0.0 { assert n * c > 0.0; } else { assert n * c <= 0.0; }
  }

  /** The exact path's quotient: no spread at all is an exact zero. */
  function ExactVariance(n: real, d: real, sum: real, squares: real): real
    requires n > 0.0 && d > 0.0
  {
    var numerator := n * squares - sum * sum;
    assert n * d > 0.0;
    if numerator <= 0.0 then 0.0 else numerator / (n * d)
  }

  /** It is the two-pass variance. */
  lemma ExactVarianceIs(xs: seq<real>, d: real)
    requires xs != [] && d > 0.0
    ensures ExactVariance(|xs| as real, d, Sum(xs), Dev(xs, xs, 0.0, 0.0)) == Co(xs, xs) / d
  {
    hide Co, Sum, Dev;
    var n, sum, squares, c := |xs| as real, Sum(xs), Dev(xs, xs, 0.0, 0.0), Co(xs, xs);
    CoClosed(xs, xs);
    CauchySchwarz(xs, xs);
    Quotients(n, c, d, n * squares - sum * sum);
  }

  /** `spread`: float inputs go through the one-pass loop, the others through exact sums. */
  method Spread(op: SpreadOp, values: seq<Value>) returns (a: Answer)
    ensures Spreads(op, values, a)
  {
    hide Co, Sum, Amounts, AllNumbers, Dev, ExactVariance;
    var n := |values|;
    if n == 0 || (op.Sample() && n < 2) { return Nothing; }
    var divisor := if op.Sample() then (n - 1) as real else n as real;
    if HasFloat(values) {
      var ok, squares := FloatSquares(values);
      if !ok { return NoSuchFunction; }
      var variance := squares / divisor;
      a := if op.Rooted() then FloatRoot(variance) else FloatAnswer(variance);
    } else {
      var ok, sum, squares := ExactSums(values);
      if !ok { return NoSuchFunction; }
      ExactVarianceIs(Amounts(values), divisor);
      var variance := ExactVariance(n as real, divisor, sum, squares);
      a := if op.Rooted() && variance > 0.0 then ExactRoot(variance) else ExactAnswer(variance);
    }
  }

  /** A variance is never negative, and is zero exactly when the values are all equal. */
  lemma VarianceMeaning(xs: seq<real>, sample: bool)
    requires |xs| >= (if sample then 2 else 1)
    ensures Variance(xs, sample) >= 0.0
    ensures Variance(xs, sample) == 0.0 <==> forall i :: 0 <= i < |xs| ==> xs[i] == xs[0]
  {
    hide Sum, Dev;
    NoSpread(xs, Mean(xs));
    var c, d := Co(xs, xs), if sample then (|xs| - 1) as real else |xs| as real;
    Quotients(1.0, c, d, 1.0 * c);
    if forall i :: 0 <= i < |xs| ==> xs[i] == xs[0] {
      MeanOfEqual(xs, xs[0]);
    }
  }

  lemma {:induction false} SumOfEqual(s: seq<real>, a: real)
    requires forall i :: 0 <= i < |s| ==> s[i] == a
    ensures Sum(s) == |s| as real * a
  {
    if s != [] {
      var n := |s| - 1;
      SumOfEqual(s[..n], a);
      Moments.Spread(a, n as real, 1.0);
    }
  }

  lemma MeanOfEqual(s: seq<real>, a: real)
    requires s != [] && forall i :: 0 <= i < |s| ==> s[i] == a
    ensures Mean(s) == a
  {
    SumOfEqual(s, a);
    var n := |s| as real;
    assert n * a / n == a;
  }

  // ------------------------------------------------------------------------ pairs

  datatype RegressionOp =
    | RegrCount | RegrSxx | RegrSyy | RegrSxy | RegrAverageX | RegrAverageY
    | CovarPop | CovarSamp | Corr | RegrR2 | RegrSlope | RegrIntercept

  /** A pair counts when neither side is null. */
  predicate Counts(p: (Value, Value)) {
    !p.0.Null? && !p.1.Null?
  }

  predicate Usable(p: (Value, Value)) {
    Counts(p) ==> p.0.Number?() && p.1.Number?()
  }

  ghost predicate AllUsable(inputs: seq<(Value, Value)>) {
    forall i :: 0 <= i < |inputs| ==> Usable(inputs[i])
  }

  /** The y values of the pairs that count. */
  function Ys(inputs: seq<(Value, Value)>): seq<real>
    requires AllUsable(inputs)
  {
    if inputs == [] then []
    else
      var n := |inputs| - 1;
      Ys(inputs[..n]) + if Counts(inputs[n]) then [inputs[n].0.Amount()] else []
  }

  function Xs(inputs: seq<(Value, Value)>): (r: seq<real>)
    requires AllUsable(inputs)
    ensures |r| == |Ys(inputs)|
  {
    if inputs == [] then []
    else
      var n := |inputs| - 1;
      Xs(inputs[..n]) + if Counts(inputs[n]) then [inputs[n].1.Amount()] else []
  }

  datatype Totals = Totals(n: real, sx: real, sy: real, sxx: real, syy: real, sxy: real)

  /** The totals in two passes. */
  function TwoPass(xs: seq<real>, ys: seq<real>): Totals
    requires |xs| == |ys|
  {
    Totals(|xs| as real, Sum(xs), Sum(ys), Co(xs, xs), Co(ys, ys), Co(xs, ys))
  }

  lemma NoPairs()
    ensures TwoPass([], []) == Totals(0.0, 0.0, 0.0, 0.0, 0.0, 0.0)
  {
  }

  /** One more pair in the one-pass form. */
  function Accumulate(t: Totals, x: real, y: real): Totals {
    var n, sx, sy := t.n + 1.0, t.sx + x, t.sy + y;
    if n > 1.0 then
      Totals(n, sx, sy, t.sxx + Scaled(x, x, n, sx, sx), t.syy + Scaled(y, y, n, sy, sy), t.sxy + Scaled(x, y, n, sx, sy))
    else t.(n := n, sx := sx, sy := sy)
  }

  function Scaled(x: real, y: real, n: real, sx: real, sy: real): real
    requires n > 1.0
  {
    var tx, ty := x * n - sx, y * n - sy;
    assert n * (n - 1.0) > 0.0;
    var scale := 1.0 / (n * (n - 1.0));
    tx * ty * scale
  }

  lemma ScaledIs(x: real, y: real, k: real, sx: real, sy: real)
    requires k > 1.0
    ensures Scaled(x, y, k, sx, sy) == Increment(x, y, k, sx, sy)
  {
    var p, d := (x * k - sx) * (y * k - sy), k * (k - 1.0);
    assert d > 0.0;
    Reciprocal(p, d);
  }

  lemma Reciprocal(p: real, d: real)
    requires d > 0.0
    ensures p * (1.0 / d) == p / d
  {
  }

  lemma AccumulateIncrements(t: Totals, x: real, y: real)
    requires t.n >= 1.0
    ensures var n, sx, sy := t.n + 1.0, t.sx + x, t.sy + y;
            Accumulate(t, x, y) ==
              Totals(n, sx, sy, t.sxx + Increment(x, x, n, sx, sx), t.syy + Increment(y, y, n, sy, sy),
                     t.sxy + Increment(x, y, n, sx, sy))
  {
    hide Scaled, Increment;
    var n, sx, sy := t.n + 1.0, t.sx + x, t.sy + y;
    ScaledIs(x, x, n, sx, sx);
    ScaledIs(y, y, n, sy, sy);
    ScaledIs(x, y, n, sx, sy);
  }

  /** The one-pass accumulation stays equal to the two-pass totals. */
  lemma AccumulateIsTwoPass(xs: seq<real>, ys: seq<real>, x: real, y: real)
    requires |xs| == |ys|
    ensures Accumulate(TwoPass(xs, ys), x, y) == TwoPass(xs + [x], ys + [y])
  {
    hide Co, Sum, Increment, Accumulate;
    SumSnoc(xs, x);
    SumSnoc(ys, y);
    if xs == [] {
      FirstPair(x, x);
      FirstPair(y, y);
      FirstPair(x, y);
      NoPairs();
      FirstAccumulates(x, y);
      assert ys == [] && xs + [x] == [x] && ys + [y] == [y];
    } else {
      YoungsCramer(xs, xs, x, x);
      YoungsCramer(ys, ys, y, y);
      YoungsCramer(xs, ys, x, y);
      AccumulateIncrements(TwoPass(xs, ys), x, y);
    }
  }

  lemma FirstAccumulates(x: real, y: real)
    ensures Accumulate(Totals(0.0, 0.0, 0.0, 0.0, 0.0, 0.0), x, y) == Totals(1.0, x, y, 0.0, 0.0, 0.0)
  {
  }

  function R2(sxx: real, syy: real, sxy: real): Answer {
    if sxx == 0.0 then Nothing
    else if syy == 0.0 then FloatAnswer(1.0)
    else
      NonZero(sxx, syy);
      FloatAnswer(sxy * sxy / (sxx * syy))
  }

  function Intercept(n: real, sx: real, sy: real, sxx: real, sxy: real): real
    requires n != 0.0 && sxx != 0.0
  {
    (sy - sx * sxy / sxx) / n
  }

  /** The answer from the totals. */
  function FromTotals(op: RegressionOp, t: Totals): Answer {
    if op.RegrCount? then Count(t.n.Floor)
    else if t.n < 1.0 then Nothing
    else
      match op
      case RegrSxx => FloatAnswer(t.sxx)
      case RegrSyy => FloatAnswer(t.syy)
      case RegrSxy => FloatAnswer(t.sxy)
      case RegrAverageX => FloatAnswer(t.sx / t.n)
      case RegrAverageY => FloatAnswer(t.sy / t.n)
      case CovarPop => FloatAnswer(t.sxy / t.n)
      case CovarSamp => if t.n < 2.0 then Nothing else FloatAnswer(t.sxy / (t.n - 1.0))
      case Corr => if t.sxx == 0.0 || t.syy == 0.0 then Nothing else OverRoot(t.sxy, t.sxx * t.syy)
      case RegrR2 => R2(t.sxx, t.syy, t.sxy)
      case RegrSlope => if t.sxx == 0.0 then Nothing else FloatAnswer(t.sxy / t.sxx)
      case RegrIntercept => if t.sxx == 0.0 then Nothing else FloatAnswer(Intercept(t.n, t.sx, t.sy, t.sxx, t.sxy))
  }

  lemma NonZero(a: real, b: real)
    requires a != 0.0 && b != 0.0
    ensures a * b != 0.0
  {
  }

  lemma UsableSnoc(inputs: seq<(Value, Value)>, i: nat)
    requires i < |inputs| && AllUsable(inputs[..i]) && Usable(inputs[i])
    ensures AllUsable(inputs[..i + 1])
    ensures Ys(inputs[..i + 1]) == Ys(inputs[..i]) + if Counts(inputs[i]) then [inputs[i].0.Amount()] else []
    ensures Xs(inputs[..i + 1]) == Xs(inputs[..i]) + if Counts(inputs[i]) then [inputs[i].1.Amount()] else []
  {
    assert forall j :: 0 <= j < i ==> inputs[..i + 1][j] == inputs[..i][j];
    assert inputs[..i + 1][i] == inputs[i];
    assert inputs[..i + 1][..i] == inputs[..i];
  }

  lemma NotUsable(inputs: seq<(Value, Value)>, i: nat)
    requires i < |inputs| && !Usable(inputs[i])
    ensures !AllUsable(inputs)
  {
  }

  /** `regression`: one pass over the pairs; the answer is that of the two-pass totals. */
  method Regression(op: RegressionOp, inputs: seq<(Value, Value)>) returns (a: Answer)
    ensures a == NoSuchFunction <==> !AllUsable(inputs)
    ensures AllUsable(inputs) ==> a == FromTotals(op, TwoPass(Xs(inputs), Ys(inputs)))
  {
    hide TwoPass, Accumulate, Xs, Ys, FromTotals, AllUsable;
    var t := Totals(0.0, 0.0, 0.0, 0.0, 0.0, 0.0);
    NoPairs();
    NoInputs(inputs);
    for i := 0 to |inputs|
      invariant AllUsable(inputs[..i])
      invariant t == TwoPass(Xs(inputs[..i]), Ys(inputs[..i]))
    {
      var (y, x) := inputs[i];
      if y.Null? || x.Null? {
        UsableSnoc(inputs, i);
        assert Xs(inputs[..i]) + [] == Xs(inputs[..i]) && Ys(inputs[..i]) + [] == Ys(inputs[..i]);
        continue;
      }
      if !y.Number?() || !x.Number?() {
        NotUsable(inputs, i);
        return NoSuchFunction;
      }
      UsableSnoc(inputs, i);
      AccumulateIsTwoPass(Xs(inputs[..i]), Ys(inputs[..i]), x.Amount(), y.Amount());
      t := Accumulate(t, x.Amount(), y.Amount());
    }
    assert inputs[..|inputs|] == inputs;
    a := FromTotals(op, t);
    AnswersExist(op, t);
  }

  lemma NoInputs(inputs: seq<(Value, Value)>)
    ensures AllUsable(inputs[..0]) && Xs(inputs[..0]) == [] && Ys(inputs[..0]) == []
  {
  }

  lemma AnswersExist(op: RegressionOp, t: Totals)
    ensures FromTotals(op, t) != NoSuchFunction
  {
  }

  // ----------------------------------------------------------- what the answers mean

  /** A correlation lies in [-1, 1], whatever the square root in it comes to. */
  lemma CorrWithinOne(xs: seq<real>, ys: seq<real>, root: real)
    requires |xs| == |ys|
    requires FromTotals(Corr, TwoPass(xs, ys)).OverRoot?
    requires root >= 0.0 && root * root == FromTotals(Corr, TwoPass(xs, ys)).radicand
    ensures root > 0.0 && -1.0 <= FromTotals(Corr, TwoPass(xs, ys)).numerator / root <= 1.0
  {
    hide Co, Sum;
    CauchySchwarz(xs, ys);
    NonZero(Co(xs, xs), Co(ys, ys));
    Bounded(Co(xs, ys), root);
  }

  lemma SquareGrows(a: real, b: real)
    requires a > b >= 0.0
    ensures a * a > b * b
  {
    Arithmetic.PositiveProduct(a - b, a + b);
    assert (a - b) * (a + b) == a * a - b * b;
  }

  lemma Bounded(c: real, root: real)
    requires root >= 0.0 && root * root != 0.0 && c * c <= root * root
    ensures root > 0.0 && -1.0 <= c / root <= 1.0
  {
    assert root != 0.0;
    if c > root { SquareGrows(c, root); }
    if -c > root { SquareGrows(-c, root); }
    Arithmetic.Fraction(c, root);
  }

  /** The coefficient of determination lies in [0, 1]. */
  lemma R2WithinOne(xs: seq<real>, ys: seq<real>)
    requires |xs| == |ys| && FromTotals(RegrR2, TwoPass(xs, ys)).FloatAnswer?
    ensures 0.0 <= FromTotals(RegrR2, TwoPass(xs, ys)).float <= 1.0
  {
    hide Co, Sum, R2;
    CauchySchwarz(xs, ys);
    R2Bounded(Co(xs, xs), Co(ys, ys), Co(xs, ys));
  }

  lemma R2Bounded(sxx: real, syy: real, sxy: real)
    requires R2(sxx, syy, sxy).FloatAnswer? && sxy * sxy <= sxx * syy
    ensures 0.0 <= R2(sxx, syy, sxy).float <= 1.0
  {
    if syy != 0.0 {
      Square(sxy);
      NonZero(sxx, syy);
      UnitFraction(sxy * sxy, sxx * syy);
    }
  }

  lemma UnitFraction(c: real, p: real)
    requires 0.0 <= c <= p && p != 0.0
    ensures 0.0 <= c / p <= 1.0
  {
  }

  /** `regr_slope` and `regr_intercept` give the line closest to the pairs. */
  lemma RegressionLineIsBest(xs: seq<real>, ys: seq<real>, a: real, b: real)
    requires |xs| == |ys|
    requires FromTotals(RegrSlope, TwoPass(xs, ys)).FloatAnswer?
    ensures FromTotals(RegrIntercept, TwoPass(xs, ys)).FloatAnswer?
    ensures var slope, intercept := FromTotals(RegrSlope, TwoPass(xs, ys)).float, FromTotals(RegrIntercept, TwoPass(xs, ys)).float;
            Residual(xs, ys, intercept, slope) <= Residual(xs, ys, a, b)
  {
    hide Co, Sum, Residual, Mean, Intercept;
    CauchySchwarz(xs, xs);
    var t := TwoPass(xs, ys);
    InterceptIs(t.n, t.sx, t.sy, t.sxx, t.sxy, t.sxy / t.sxx);
    MeanIs(xs);
    MeanIs(ys);
    LeastSquares(xs, ys, Intercept(t.n, t.sx, t.sy, t.sxx, t.sxy), t.sxy / t.sxx, a, b);
  }

  lemma MeanIs(s: seq<real>)
    requires s != []
    ensures Mean(s) == Sum(s) / |s| as real
  {
  }

  lemma InterceptIs(n: real, sx: real, sy: real, sxx: real, sxy: real, b: real)
    requires n > 0.0 && sxx != 0.0 && b == sxy / sxx
    ensures Intercept(n, sx, sy, sxx, sxy) == sy / n - b * (sx / n)
  {
    assert sx * sxy / sxx == sx * b;
    assert (sy - sx * b) / n == sy / n - sx * b / n;
    assert sx * b / n == b * (sx / n);
  }
}

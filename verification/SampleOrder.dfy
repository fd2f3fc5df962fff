/**
 The order ANALYZE puts a column's sample in, and the correlation it reports between that
 order and the sample's own (crates/nodus_executor/src/column_stats.rs, `scalar_stats`).
 A value is modelled by its rank in the column type's order.
 */
module SampleOrder {
  import opened Arithmetic

  // --------------------------------------------------------------- the sort order

  /** 0, 1, ..., n-1. */
  function Ids(n: nat): (r: seq<nat>)
    ensures |r| == n && forall i :: 0 <= i < n ==> r[i] == i
  {
    if n == 0 then [] else Ids(n - 1) + [n - 1]
  }

  /** By value, then by sample position. */
  predicate Before(vals: seq<int>, x: nat, y: nat)
    requires x < |vals| && y < |vals|
  {
    vals[x] < vals[y] || (vals[x] == vals[y] && x < y)
  }

  /** Positions of the sample, each before the next. */
  ghost predicate Ordered(vals: seq<int>, order: seq<nat>) {
    && (forall i :: 0 <= i < |order| ==> order[i] < |vals|)
    && forall i, j :: 0 <= i < j < |order| ==> Before(vals, order[i], order[j])
  }

  /** The sample positions in sorted order; equal values keep their sample order. */
  ghost predicate IsSortOrder(vals: seq<int>, order: seq<nat>) {
    && |order| == |vals|
    && multiset(order) == multiset(Ids(|vals|))
    && Ordered(vals, order)
  }

  /** Inserts position `x` after every position whose value is no greater. */
  function Insert(vals: seq<int>, order: seq<nat>, x: nat): (r: seq<nat>)
    requires x < |vals| && forall i :: 0 <= i < |order| ==> order[i] < |vals|
    ensures |r| == |order| + 1
    ensures multiset(r) == multiset(order) + multiset{x}
    ensures forall i :: 0 <= i < |r| ==> r[i] == x || r[i] in order
  {
    if order == [] then [x]
    else
      var n := |order| - 1;
      assert order == order[..n] + [order[n]];
      if vals[order[n]] <= vals[x] then order + [x] else Insert(vals, order[..n], x) + [order[n]]
  }

  /** The sort order of the first `n` sample values. */
  function SortFirst(vals: seq<int>, n: nat): (r: seq<nat>)
    requires n <= |vals|
    ensures |r| == n
    ensures forall i :: 0 <= i < |r| ==> r[i] < n
  {
    if n == 0 then [] else Insert(vals, SortFirst(vals, n - 1), n - 1)
  }

  function SortOrder(vals: seq<int>): seq<nat> {
    SortFirst(vals, |vals|)
  }

  // Every position of `order` stays before its last one, and so does a lesser newcomer.
  lemma InsertedBefore(vals: seq<int>, order: seq<nat>, x: nat, r: seq<nat>)
    requires x < |vals| && Ordered(vals, order) && order != [] && vals[order[|order| - 1]] > vals[x]
    requires forall i :: 0 <= i < |r| ==> r[i] == x || r[i] in order[..|order| - 1]
    ensures forall i :: 0 <= i < |r| ==> r[i] < |vals| && Before(vals, r[i], order[|order| - 1])
  {
    var n := |order| - 1;
    forall i | 0 <= i < |r| ensures r[i] < |vals| && Before(vals, r[i], order[n]) {
      if r[i] != x {
        var k :| 0 <= k < n && order[..n][k] == r[i];
        assert Before(vals, order[k], order[n]);
      }
    }
  }

  lemma AppendedLast(vals: seq<int>, order: seq<nat>, x: nat)
    requires x < |vals| && Ordered(vals, order) && order != [] && vals[order[|order| - 1]] <= vals[x]
    requires forall i :: 0 <= i < |order| ==> order[i] < x
    ensures Ordered(vals, order + [x])
  {
    var n := |order| - 1;
    forall i | 0 <= i < |order| ensures Before(vals, order[i], x) {
      if i < n { assert Before(vals, order[i], order[n]); }
    }
    OrderedSnoc(vals, order, x);
  }

  lemma {:induction false} InsertSorted(vals: seq<int>, order: seq<nat>, x: nat)
    requires x < |vals| && Ordered(vals, order) && forall i :: 0 <= i < |order| ==> order[i] < x
    ensures Ordered(vals, Insert(vals, order, x))
  {
    hide Before;
    if order != [] {
      var n := |order| - 1;
      if vals[order[n]] > vals[x] {
        InsertSorted(vals, order[..n], x);
        var r := Insert(vals, order[..n], x);
        InsertedBefore(vals, order, x, r);
        OrderedSnoc(vals, r, order[n]);
      } else {
        AppendedLast(vals, order, x);
      }
    }
  }

  lemma OrderedSnoc(vals: seq<int>, order: seq<nat>, x: nat)
    requires Ordered(vals, order) && x < |vals|
    requires forall i :: 0 <= i < |order| ==> Before(vals, order[i], x)
    ensures Ordered(vals, order + [x])
  {
    var r := order + [x];
    forall i, j | 0 <= i < j < |r| ensures Before(vals, r[i], r[j]) {
      if j < |order| { assert Before(vals, order[i], order[j]); }
    }
  }

  lemma {:induction false} SortFirstSorts(vals: seq<int>, n: nat)
    requires n <= |vals|
    ensures multiset(SortFirst(vals, n)) == multiset(Ids(n))
    ensures Ordered(vals, SortFirst(vals, n))
  {
    if n > 0 {
      hide Insert, Ordered;
      var last: nat := n - 1;
      SortFirstSorts(vals, last);
      InsertSorted(vals, SortFirst(vals, last), last);
      assert Ids(n) == Ids(last) + [last];
      MultisetSnoc(Ids(last), last);
    }
  }

  lemma MultisetSnoc(s: seq<nat>, x: nat)
    ensures multiset(s + [x]) == multiset(s) + multiset{x}
  {
  }

  /** The sort yields the sort order, for every sample. */
  lemma SortOrderSorts(vals: seq<int>)
    ensures IsSortOrder(vals, SortOrder(vals))
  {
    SortFirstSorts(vals, |vals|);
  }

  // -------------------------------------------------------------------- sums

  function Sum(s: seq<int>): int {
    if s == [] then 0 else Sum(s[..|s| - 1]) + s[|s| - 1]
  }

  function SumSquares(s: seq<nat>): int {
    if s == [] then 0 else SumSquares(s[..|s| - 1]) + s[|s| - 1] * s[|s| - 1]
  }

  /** Σ i·order[i]. */
  function SumProducts(order: seq<nat>): int {
    if order == [] then 0 else SumProducts(order[..|order| - 1]) + (|order| - 1) * order[|order| - 1]
  }

  // What is left of `s` without place `i`, one shorter at the end.
  lemma WithoutInit(s: seq<nat>, i: nat)
    requires i < |s| - 1
    ensures var t, n := s[..i] + s[i + 1..], |s| - 1; t[..n - 1] == s[..n][..i] + s[..n][i + 1..] && t[n - 1] == s[n]
  {
  }

  lemma {:induction false} SumWithout(s: seq<nat>, i: nat)
    requires i < |s|
    ensures Sum(s) == Sum(s[..i] + s[i + 1..]) + s[i]
  {
    var n := |s| - 1;
    if i == n {
      assert s[..i] + s[i + 1..] == s[..n];
    } else {
      SumWithout(s[..n], i);
      WithoutInit(s, i);
    }
  }

  lemma {:induction false} SquaresWithout(s: seq<nat>, i: nat)
    requires i < |s|
    ensures SumSquares(s) == SumSquares(s[..i] + s[i + 1..]) + s[i] * s[i]
  {
    var n := |s| - 1;
    if i == n {
      assert s[..i] + s[i + 1..] == s[..n];
    } else {
      SquaresWithout(s[..n], i);
      WithoutInit(s, i);
    }
  }

  /** Rearranging a sequence changes neither its sum nor its sum of squares. */
  lemma {:induction false} SumsOfRearrangement(a: seq<nat>, b: seq<nat>)
    requires multiset(a) == multiset(b)
    ensures Sum(a) == Sum(b) && SumSquares(a) == SumSquares(b)
    decreases |a|
  {
    hide Sum, SumSquares;
    assert |a| == |multiset(a)| == |multiset(b)| == |b|;
    if a == [] {
      assert a == b;
    } else {
      var n := |a| - 1;
      assert a[n] in multiset(a);
      var i :| 0 <= i < |b| && b[i] == a[n];
      MultisetWithout(a, n);
      MultisetWithout(b, i);
      SumsOfRearrangement(a[..n] + a[n + 1..], b[..i] + b[i + 1..]);
      SumWithout(a, n);
      SumWithout(b, i);
      SquaresWithout(a, n);
      SquaresWithout(b, i);
    }
  }

  lemma MultisetWithout<T>(s: seq<T>, i: nat)
    requires i < |s|
    ensures multiset(s[..i] + s[i + 1..]) == multiset(s) - multiset{s[i]}
  {
    assert s == s[..i] + [s[i]] + s[i + 1..];
  }

  lemma {:induction false} ClosedForms(n: nat)
    ensures 2 * Sum(Ids(n)) == n * (n - 1)
    ensures 6 * SumSquares(Ids(n)) == (n - 1) * n * (2 * n - 1)
  {
    hide Ids;
    if n == 0 {
      assert Ids(0) == [];
    } else {
      ClosedForms(n - 1);
      IdsSums(n - 1);
      ClosedStep(n - 1, Sum(Ids(n - 1)), SumSquares(Ids(n - 1)));
    }
  }

  lemma ClosedStep(m: int, t: int, x2: int)
    requires 2 * t == m * (m - 1)
    requires 6 * x2 == (m - 1) * m * (2 * m - 1)
    ensures 2 * (t + m) == (m + 1) * m
    ensures 6 * (x2 + m * m) == m * (m + 1) * (2 * m + 1)
  {
    var q := m * m;
    assert (m - 1) * m == q - m && m * (m + 1) == q + m;
    assert (q - m) * (2 * m - 1) == 2 * (q * m) - 3 * q + m;
    assert (q + m) * (2 * m + 1) == 2 * (q * m) + 3 * q + m;
  }

  // Σ (i - order[i])², whose vanishing says the order is the identity.
  function Deviation(order: seq<nat>): int {
    if order == [] then 0
    else
      var n := |order| - 1;
      Deviation(order[..n]) + (n - order[n]) * (n - order[n])
  }

  // Σ (i + order[i] - c)².
  function Reversal(order: seq<nat>, c: int): int {
    if order == [] then 0
    else
      var n := |order| - 1;
      Reversal(order[..n], c) + (n + order[n] - c) * (n + order[n] - c)
  }

  lemma Square(x: int)
    ensures x * x >= 0 && (x * x == 0 <==> x == 0)
  {
  }

  lemma SquareOfDifference(n: int, x: int)
    ensures (n - x) * (n - x) == n * n + x * x - 2 * (n * x)
  {
  }

  lemma SquareOfShiftedSum(n: int, x: int, c: int)
    ensures (n + x - c) * (n + x - c) == n * n + x * x + 2 * (n * x) - 2 * (c * (n + x)) + c * c
  {
  }

  lemma IdsSums(n: nat)
    ensures Sum(Ids(n + 1)) == Sum(Ids(n)) + n
    ensures SumSquares(Ids(n + 1)) == SumSquares(Ids(n)) + n * n
  {
    assert Ids(n + 1)[..n] == Ids(n);
  }

  lemma {:induction false} DeviationExpands(order: seq<nat>)
    ensures Deviation(order) == SumSquares(Ids(|order|)) + SumSquares(order) - 2 * SumProducts(order)
  {
    hide Ids;
    if order == [] {
      assert Ids(0) == [];
    } else {
      var n: nat := |order| - 1;
      DeviationExpands(order[..n]);
      IdsSums(n);
      SquareOfDifference(n, order[n]);
    }
  }

  lemma {:induction false} DeviationVanishes(order: seq<nat>)
    ensures Deviation(order) >= 0
    ensures Deviation(order) == 0 <==> forall i :: 0 <= i < |order| ==> order[i] == i
  {
    if order != [] {
      var n: nat := |order| - 1;
      DeviationVanishes(order[..n]);
      Square(n - order[n]);
      assert forall i :: 0 <= i < n ==> order[..n][i] == order[i];
    }
  }

  lemma {:induction false} ReversalExpands(order: seq<nat>, c: int)
    ensures Reversal(order, c) ==
              SumSquares(Ids(|order|)) + SumSquares(order) + 2 * SumProducts(order)
              - 2 * (c * (Sum(Ids(|order|)) + Sum(order))) + |order| * (c * c)
    ensures Reversal(order, c) >= 0
  {
    hide Ids;
    if order == [] {
      assert Ids(0) == [];
    } else {
      var n: nat := |order| - 1;
      var rest := order[..n];
      ReversalExpands(rest, c);
      IdsSums(n);
      SquareOfShiftedSum(n, order[n], c);
      Square(n + order[n] - c);
      Distribute(Sum(Ids(n)) + Sum(rest), n + order[n], c);
      Distribute(n, 1, c * c);
    }
  }

  // ------------------------------------------------------------- the correlation

  function XSum(n: real): real {
    (n - 1.0) * n / 2.0
  }

  function X2Sum(n: real): real {
    (n - 1.0) * n * (2.0 * n - 1.0) / 6.0
  }

  /** n·Σi² - (Σi)². */
  function Spread(n: real): real {
    n * X2Sum(n) - XSum(n) * XSum(n)
  }

  // It is n²(n²-1)/12.
  lemma SpreadPositive(n: real)
    requires n >= 2.0
    ensures Spread(n) > 0.0
  {
    var a := (n - 1.0) * n;
    assert a > 0.0;
    assert Spread(n) == a * (n * (2.0 * n - 1.0) / 6.0 - a / 4.0);
    assert n * (2.0 * n - 1.0) / 6.0 - a / 4.0 == n * (n + 1.0) / 12.0;
    PositiveProduct(n, n + 1.0);
    PositiveProduct(a, n * (n + 1.0) / 12.0);
  }

  function Quotient(n: real, xySum: real): real
    requires Spread(n) > 0.0
  {
    (n * xySum - XSum(n) * XSum(n)) / Spread(n)
  }

  /** The correlation `scalar_stats` computes from Σ i·order[i]. */
  function Correlation(n: nat, xySum: int): real
    requires n > 1
  {
    SpreadPositive(n as real);
    Quotient(n as real, xySum as real)
  }

  /** The loop that accumulates Σ i·order[i] over the sorted sample. */
  method CorrelationSum(order: seq<nat>) returns (xySum: int)
    ensures xySum == SumProducts(order)
  {
    xySum := 0;
    for i := 0 to |order|
      invariant xySum == SumProducts(order[..i])
    {
      assert order[..i + 1][..i] == order[..i];
      xySum := xySum + i * order[i];
    }
    assert order[..|order|] == order;
  }

  // Σ i·order[i] lies between the reversed and the identity arrangement.
  lemma ProductBounds(order: seq<nat>, n: nat)
    requires |order| == n && multiset(order) == multiset(Ids(n))
    ensures SumProducts(order) <= SumSquares(Ids(n))
    ensures SumProducts(order) == SumSquares(Ids(n)) <==> order == Ids(n)
    ensures 2 * (SumProducts(order) + SumSquares(Ids(n))) >= n * ((n - 1) * (n - 1))
  {
    hide Sum, SumSquares, SumProducts, Deviation, Reversal, Ids;
    SumsOfRearrangement(order, Ids(n));
    DeviationExpands(order);
    DeviationVanishes(order);
    ReversalExpands(order, n - 1);
    ClosedForms(n);
    LowerBound(n, Sum(Ids(n)), SumProducts(order), SumSquares(Ids(n)));
  }

  lemma LowerBound(n: int, t: int, xy: int, x2: int)
    requires 2 * t == n * (n - 1)
    requires x2 + x2 + 2 * xy - 2 * ((n - 1) * (t + t)) + n * ((n - 1) * (n - 1)) >= 0
    ensures 2 * (xy + x2) >= n * ((n - 1) * (n - 1))
  {
    assert t + t == n * (n - 1);
    assert (n - 1) * (n * (n - 1)) == n * ((n - 1) * (n - 1));
  }

  lemma CorrelationBounds(n: nat, xy: int, x2: int)
    requires n > 1
    requires 6 * x2 == (n - 1) * n * (2 * n - 1)
    requires xy <= x2 && 2 * (xy + x2) >= n * ((n - 1) * (n - 1))
    ensures -1.0 <= Correlation(n, xy) <= 1.0
    ensures Correlation(n, xy) == 1.0 <==> xy == x2
  {
    hide XSum, X2Sum, Spread, Quotient;
    var rn, rxy, rx2 := n as real, xy as real, x2 as real;
    SpreadPositive(rn);
    RealForms(n, xy, x2);
    Ratio(rn, rxy, rx2);
  }

  lemma RealForms(n: nat, xy: int, x2: int)
    requires 6 * x2 == (n - 1) * n * (2 * n - 1)
    requires 2 * (xy + x2) >= n * ((n - 1) * (n - 1))
    ensures X2Sum(n as real) == x2 as real
    ensures 2.0 * (xy as real + x2 as real) >= n as real * ((n as real - 1.0) * (n as real - 1.0))
  {
    Product(n - 1, n);
    Product((n - 1) * n, 2 * n - 1);
    Product(n - 1, n - 1);
    Product(n, (n - 1) * (n - 1));
  }

  lemma Product(a: int, b: int)
    ensures (a * b) as real == a as real * b as real
  {
  }

  lemma Ratio(n: real, xy: real, x2: real)
    requires n >= 2.0 && X2Sum(n) == x2 && Spread(n) > 0.0
    requires xy <= x2 && 2.0 * (xy + x2) >= n * ((n - 1.0) * (n - 1.0))
    ensures -1.0 <= Quotient(n, xy) <= 1.0
    ensures Quotient(n, xy) == 1.0 <==> xy == x2
  {
    var num, den := n * xy - XSum(n) * XSum(n), Spread(n);
    assert den - num == n * (x2 - xy);
    assert den + num == n * (x2 + xy) - 2.0 * (XSum(n) * XSum(n));
    assert 2.0 * (XSum(n) * XSum(n)) == n * (n * ((n - 1.0) * (n - 1.0))) / 2.0;
    assert n * (x2 + xy) >= n * (n * ((n - 1.0) * (n - 1.0)) / 2.0);
    assert -den <= num <= den;
    Fraction(num, den);
    assert num == den <==> n * (x2 - xy) == 0.0;
  }

  /**
   The reported correlation of a sample's sorted order with its own order is within [-1, 1],
   and is 1 exactly when the sample was already in order.
   */
  lemma CorrelationMeaning(vals: seq<int>, order: seq<nat>)
    requires |vals| > 1 && IsSortOrder(vals, order)
    ensures -1.0 <= Correlation(|vals|, SumProducts(order)) <= 1.0
    ensures Correlation(|vals|, SumProducts(order)) == 1.0 <==> forall i, j :: 0 <= i < j < |vals| ==> vals[i] <= vals[j]
  {
    var n := |vals|;
    ProductBounds(order, n);
    ClosedForms(n);
    CorrelationBounds(n, SumProducts(order), SumSquares(Ids(n)));
    IdentityWhenSorted(vals, order);
  }

  // The sort order is the identity exactly when nothing had to move.
  lemma IdentityWhenSorted(vals: seq<int>, order: seq<nat>)
    requires IsSortOrder(vals, order)
    ensures order == Ids(|vals|) <==> forall i, j :: 0 <= i < j < |vals| ==> vals[i] <= vals[j]
  {
    var n := |vals|;
    if order == Ids(n) {
      forall i, j | 0 <= i < j < n ensures vals[i] <= vals[j] {
        assert Before(vals, order[i], order[j]);
      }
    }
    if forall i, j :: 0 <= i < j < n ==> vals[i] <= vals[j] {
      forall i, j | 0 <= i < j < n ensures order[i] < order[j] {
        assert Before(vals, order[i], order[j]);
        var vi, vj := vals[order[i]], vals[order[j]];
        assert order[j] < order[i] ==> vj <= vi;
        assert order[i] == order[j] ==> vi == vj;
      }
      RisingPermutation(order, n);
    }
  }

  // A strictly rising sequence of numbers below its length is 0, 1, 2, ...
  lemma RisingPermutation(order: seq<nat>, n: nat)
    requires |order| == n
    requires forall i :: 0 <= i < n ==> order[i] < n
    requires forall i, j :: 0 <= i < j < n ==> order[i] < order[j]
    ensures order == Ids(n)
  {
    AtLeast(order, n);
    AtMost(order, n, 0);
  }

  lemma {:induction false} AtLeast(order: seq<nat>, k: nat)
    requires k <= |order|
    requires forall i, j :: 0 <= i < j < |order| ==> order[i] < order[j]
    ensures forall i :: 0 <= i < k ==> order[i] >= i
  {
    if k > 0 {
      AtLeast(order, k - 1);
      if k > 1 { assert order[k - 2] < order[k - 1]; }
    }
  }

  lemma {:induction false} AtMost(order: seq<nat>, n: nat, k: nat)
    requires |order| == n && k <= n
    requires forall i :: 0 <= i < n ==> order[i] < n
    requires forall i, j :: 0 <= i < j < n ==> order[i] < order[j]
    ensures forall i :: k <= i < n ==> order[i] <= i
    decreases n - k
  {
    if k < n {
      AtMost(order, n, k + 1);
      if k + 1 < n { assert order[k] < order[k + 1]; }
    }
  }
}

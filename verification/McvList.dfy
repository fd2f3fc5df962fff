/**
 How ANALYZE estimates the distinct values of a table from a sample, and how many of the
 tracked values it keeps as most common ones (crates/nodus_executor/src/column_stats.rs,
 `scalar_stats` and `analyze_mcv_list`). Floating point is modelled by `real`.
 */
module McvList {
  import opened Arithmetic

  /** A sample's rows and nulls, and the table's row count. */
  datatype Sample = Sample(rows: nat, nulls: nat, tableRows: real) {
    ghost predicate Valid() {
      rows >= 1 && nulls <= rows && tableRows >= rows as real
    }

    function NullFrac(): real
      requires rows >= 1
    {
      nulls as real / rows as real
    }

    /** How many rows of the table hold a value, by the sample's share of nulls. */
    function TableValues(): real
      requires rows >= 1
    {
      tableRows * (1.0 - NullFrac())
    }
  }

  // ------------------------------------------------------ the distinct estimate

  function Max(a: real, b: real): real { if a > b then a else b }

  function Min(a: real, b: real): real { if a < b then a else b }

  // The Haas and Stokes Duj1 estimator, before rounding.
  function Duj1(n: real, d: real, f1: real, tableValues: real): real
    requires 0.0 <= f1 < n && 0.0 <= d && d <= n
  {
    if tableValues > 0.0 then
      DenominatorPositive(n, f1, tableValues);
      n * d / (n - f1 + f1 * n / tableValues)
    else 0.0
  }

  lemma DenominatorPositive(n: real, f1: real, tableValues: real)
    requires 0.0 <= f1 < n && tableValues > 0.0
    ensures n - f1 + f1 * n / tableValues > 0.0
  {
    assert f1 * n >= 0.0;
  }

  // The estimated count when some values repeat: Duj1 kept between the bounds, rounded.
  function Count(distinct: nat, multiple: nat, s: Sample): real
    requires s.Valid() && 1 <= multiple <= distinct && distinct + multiple <= s.rows - s.nulls
  {
    var d := distinct as real;
    if multiple == distinct then d
    else
      var raw := Duj1((s.rows - s.nulls) as real, d, (distinct - multiple) as real, s.TableValues());
      (Min(Max(raw, d), s.TableValues()) + 0.5).Floor as real
  }

  // A count beyond a tenth of the table is stored as minus its share.
  function Stored(estimate: real, tableRows: real): real
    requires tableRows > 0.0
  {
    if estimate > 0.1 * tableRows then -(estimate / tableRows) else estimate
  }

  /** `stadistinct`: a count, or minus a share of the table's rows. */
  function Distinct(distinct: nat, multiple: nat, s: Sample): real
    requires s.Valid() && multiple <= distinct && distinct + multiple <= s.rows - s.nulls
  {
    Stored(if multiple == 0 then -1.0 * (1.0 - s.NullFrac()) else Count(distinct, multiple, s), s.tableRows)
  }

  /** The number of distinct values in the table that an estimate stands for. */
  function TableDistinct(estimate: real, tableRows: real): real {
    if estimate < 0.0 then -estimate * tableRows else estimate
  }

  // The sample's values are no more than the table's.
  lemma ValuesScale(s: Sample)
    requires s.Valid()
    ensures (s.rows - s.nulls) as real <= s.TableValues()
    ensures s.TableValues() == (1.0 - s.NullFrac()) * s.tableRows
    ensures 1.0 - s.NullFrac() >= 0.0
  {
    var rows, nulls, share := s.rows as real, s.nulls as real, 1.0 - s.NullFrac();
    assert s.NullFrac() * rows == nulls;
    assert share * rows == rows - nulls;
    if share < 0.0 { NegativeScales(share, rows); }
    Scale(share, rows, s.tableRows);
  }

  lemma NegativeScales(a: real, x: real)
    requires a < 0.0 && x > 0.0
    ensures a * x < 0.0
  {
  }

  lemma Scale(a: real, x: real, y: real)
    requires a >= 0.0 && x <= y
    ensures a * x <= a * y
  {
  }

  lemma StoredMeans(e: real, t: real)
    requires t > 0.0 && e >= 0.0
    ensures TableDistinct(Stored(e, t), t) == e
  {
    if e > 0.1 * t {
      var q := e / t;
      assert q * t == e;
      assert q > 0.0 by { if q <= 0.0 { Scale(t, q, 0.0); } }
    }
  }

  lemma CountInRange(distinct: nat, multiple: nat, s: Sample)
    requires s.Valid() && 1 <= multiple <= distinct && distinct + multiple <= s.rows - s.nulls
    requires distinct as real <= s.TableValues()
    ensures distinct as real <= Count(distinct, multiple, s) <= s.TableValues() + 0.5
  {
    hide Duj1, Sample.TableValues, Sample.NullFrac;
    if multiple != distinct {
      var d, values := distinct as real, s.TableValues();
      var x := Min(Max(Duj1((s.rows - s.nulls) as real, d, (distinct - multiple) as real, values), d), values);
      assert d <= x <= values;
      assert (x + 0.5).Floor >= distinct;
    }
  }

  lemma NoneRepeated(s: Sample)
    requires s.Valid() && 1.0 - s.NullFrac() >= 0.0
    ensures TableDistinct(Stored(-1.0 * (1.0 - s.NullFrac()), s.tableRows), s.tableRows) == s.TableValues()
  {
    var share := 1.0 - s.NullFrac();
    assert -1.0 * share <= 0.1 * s.tableRows;
    assert -(-1.0 * share) * s.tableRows == s.TableValues();
  }

  /**
   The estimate stands for at least the distinct values seen, and for no more than the
   table's non-null rows (rounded).
   */
  lemma DistinctInRange(distinct: nat, multiple: nat, s: Sample)
    requires s.Valid() && multiple <= distinct && distinct + multiple <= s.rows - s.nulls
    ensures distinct as real <= TableDistinct(Distinct(distinct, multiple, s), s.tableRows)
    ensures TableDistinct(Distinct(distinct, multiple, s), s.tableRows) <= s.TableValues() + 0.5
  {
    hide Stored, TableDistinct, Count, Sample.TableValues, Sample.NullFrac;
    ValuesScale(s);
    if multiple == 0 {
      NoneRepeated(s);
    } else {
      CountInRange(distinct, multiple, s);
      StoredMeans(Count(distinct, multiple, s), s.tableRows);
    }
  }

  // --------------------------------------------------------------- analyze_mcv_list

  /** The sum of the first `n` counts. */
  function Total(counts: seq<nat>, n: nat): nat
    requires n <= |counts|
  {
    if n == 0 then 0 else Total(counts, n - 1) + counts[n - 1]
  }

  /** The share of one value outside the first `num - 1`, whose counts add up to `sum`. */
  function Selectivity(sum: nat, num: nat, tableDistinct: real, s: Sample): real
    requires num >= 1 && s.rows >= 1
  {
    var rest := Max(0.0, Min(1.0, 1.0 - sum as real / s.rows as real - s.NullFrac()));
    var others := tableDistinct - (num as real - 1.0);
    if others > 1.0 then rest / others else rest
  }

  /** The hypergeometric variance of a count. */
  function Variance(count: nat, s: Sample): real
    requires s.rows >= 1 && s.tableRows > 1.0
  {
    var n, big := s.rows as real, s.tableRows;
    var k := big * count as real / n;
    n * k * (big - k) * (big - n) / (big * big * (big - 1.0))
  }

  /** `d` is more than two standard deviations of variance `v`. */
  predicate Exceeds(d: real, v: real) {
    d > 0.0 && d * d > 4.0 * Max(v, 0.0)
  }

  /** Comparing squares is comparing with the square root. */
  lemma ExceedsIsRoot(d: real, v: real, root: real)
    requires root >= 0.0 && root * root == Max(v, 0.0)
    ensures Exceeds(d, v) <==> d > 2.0 * root
  {
    var r := 2.0 * root;
    assert r * r == 4.0 * Max(v, 0.0);
    if d > r {
      Squares(r, d);
    } else if d > 0.0 {
      SquaresLe(d, r);
    }
  }

  lemma Squares(a: real, b: real)
    requires 0.0 <= a < b
    ensures a * a < b * b
  {
    assert b * b - a * a == (b - a) * (b + a);
    PositiveProduct(b - a, b + a);
  }

  lemma SquaresLe(a: real, b: real)
    requires 0.0 <= a <= b
    ensures a * a <= b * b
  {
    if a < b { Squares(a, b); }
  }

  // The test of one round, from the sum of the counts before the last.
  predicate StandsOut(count: nat, sum: nat, num: nat, tableDistinct: real, s: Sample)
    requires num >= 1 && s.rows >= 1 && s.tableRows > 1.0
  {
    Exceeds(count as real - Selectivity(sum, num, tableDistinct, s) * s.rows as real - 0.5, Variance(count, s))
  }

  /** The last of the first `num` values is significantly more common than the rest. */
  predicate Significant(counts: seq<nat>, num: nat, tableDistinct: real, s: Sample)
    requires 1 <= num <= |counts| && s.rows >= 1 && s.tableRows > 1.0
  {
    StandsOut(counts[num - 1], Total(counts, num - 1), num, tableDistinct, s)
  }

  /** The whole table was sampled, or it has at most one row. */
  predicate FullSample(s: Sample) {
    s.rows as real >= s.tableRows || s.tableRows <= 1.0
  }

  /**
   `analyze_mcv_list`: drops counts from the end, keeping the sum of those before the last
   up to date, until the last one left stands out.
   */
  method AnalyzeMcvList(counts: seq<nat>, estimate: real, s: Sample) returns (num: nat)
    requires s.rows >= 1
    ensures num <= |counts|
    ensures FullSample(s) ==> num == |counts|
    ensures !FullSample(s) && num > 0 ==> Significant(counts, num, TableDistinct(estimate, s.tableRows), s)
    ensures !FullSample(s) ==>
              forall j :: num < j <= |counts| ==> !Significant(counts, j, TableDistinct(estimate, s.tableRows), s)
  {
    hide StandsOut, TableDistinct;
    num := |counts|;
    if FullSample(s) { return; }
    var tableDistinct := TableDistinct(estimate, s.tableRows);
    var sum := 0;
    for i := 0 to |counts| - (if |counts| == 0 then 0 else 1)
      invariant sum == Total(counts, i)
    {
      sum := sum + counts[i];
    }
    while num > 0
      invariant num <= |counts|
      invariant num > 0 ==> sum == Total(counts, num - 1)
      invariant forall j :: num < j <= |counts| ==> !Significant(counts, j, tableDistinct, s)
    {
      if StandsOut(counts[num - 1], sum, num, tableDistinct, s) { break; }
      num := num - 1;
      if num == 0 { break; }
      sum := sum - counts[num - 1];
    }
  }
}

/**
 The histograms ANALYZE builds (crates/nodus_executor/src/column_stats.rs): bounds evenly
 spaced over sorted values by integer steps with a carried fraction (`scalar_stats`,
 `report_range_stats`), and the histogram of distinct-element counts, walked over
 run lengths (`array_stats`).
 */
module Histograms {
  import opened Arithmetic

  // -------------------------------------------------------------- even spacing

  /** Where bound `i` of `hist` falls among `n` values. */
  function Position(i: nat, n: nat, hist: nat): (p: nat)
    requires n >= 1 && hist >= 2 && i < hist
    ensures p < n
  {
    PositionBound(i, n - 1, hist - 1);
    i * (n - 1) / (hist - 1)
  }

  lemma PositionBound(i: nat, m: nat, h: nat)
    requires h >= 1 && i <= h
    ensures i * m / h <= m
  {
    MulLe(i, h, m);
    DivMonotone(i * m, h * m, h);
    DivMultiple(m, h);
  }

  /**
   The loop shared by the three histograms: `pos` steps by the whole quotient, `posfrac`
   carries the remainder. Bound `i` is the value at floor(i·(n-1)/(hist-1)).
   */
  method EvenlySpaced<T>(values: seq<T>, hist: nat) returns (bounds: seq<T>)
    requires |values| >= 1 && hist >= 2
    ensures |bounds| == hist
    ensures forall i :: 0 <= i < hist ==> bounds[i] == values[Position(i, |values|, hist)]
  {
    hide Position, Reached;
    var n := |values|;
    var delta := (n - 1) / (hist - 1);
    var deltafrac := (n - 1) % (hist - 1);
    var pos, posfrac := 0, 0;
    bounds := [];
    StartReached(n - 1, hist - 1);
    for i := 0 to hist
      invariant |bounds| == i && Reached(i, n - 1, hist - 1, pos, posfrac)
      invariant forall j :: 0 <= j < i ==> bounds[j] == values[Position(j, n, hist)]
    {
      ReachedPosition(i, n, hist, pos, posfrac);
      bounds := bounds + [values[pos]];
      NextReached(i, n - 1, hist - 1, pos, posfrac);
      pos := pos + delta;
      posfrac := posfrac + deltafrac;
      if posfrac >= hist - 1 {
        pos := pos + 1;
        posfrac := posfrac - (hist - 1);
      }
    }
  }

  /** `pos` and `frac` are the quotient and the remainder of bound `i`. */
  ghost predicate Reached(i: int, m: int, h: int, pos: int, frac: int) {
    i * m == pos * h + frac && 0 <= frac < h
  }

  lemma StartReached(m: int, h: int)
    requires h >= 1
    ensures Reached(0, m, h, 0, 0)
  {
  }

  lemma ReachedPosition(i: nat, n: nat, hist: nat, pos: int, frac: int)
    requires n >= 1 && hist >= 2 && i < hist && Reached(i, n - 1, hist - 1, pos, frac)
    ensures pos == Position(i, n, hist)
  {
    Distribute(pos, 1, hist - 1);
    DivIs(i * (n - 1), hist - 1, pos);
  }

  lemma NextReached(i: int, m: int, h: int, pos: int, frac: int)
    requires h >= 1 && Reached(i, m, h, pos, frac)
    ensures var p, f := pos + m / h, frac + m % h;
            if f >= h then Reached(i + 1, m, h, p + 1, f - h) else Reached(i + 1, m, h, p, f)
  {
    Step(i, m, h, pos, frac, m / h, m % h);
  }

  lemma Step(i: int, m: int, h: int, pos: int, frac: int, delta: int, deltafrac: int)
    requires h >= 1 && m == delta * h + deltafrac && i * m == pos * h + frac
    ensures (i + 1) * m == (pos + delta) * h + frac + deltafrac
    ensures (pos + delta) * h + frac + deltafrac == (pos + delta + 1) * h + frac + deltafrac - h
  {
    Distribute(i, 1, m);
    Distribute(pos, delta, h);
    Distribute(pos + delta, 1, h);
  }

  /** The bounds never move back, and they start and end at the extremes. */
  lemma SpacingRises(i: nat, j: nat, n: nat, hist: nat)
    requires n >= 1 && hist >= 2 && i <= j < hist
    ensures Position(i, n, hist) <= Position(j, n, hist)
    ensures Position(0, n, hist) == 0 && Position(hist - 1, n, hist) == n - 1
  {
    MulLe(i, j, n - 1);
    DivMonotone(i * (n - 1), j * (n - 1), hist - 1);
    DivMultiple(n - 1, hist - 1);
    DivMultiple(0, hist - 1);
  }

  /** With no more bounds than values, no value is taken twice. */
  lemma SpacingIsStrict(i: nat, j: nat, n: nat, hist: nat)
    requires hist >= 2 && n >= hist && i < j < hist
    ensures Position(i, n, hist) < Position(j, n, hist)
  {
    var m, h := n - 1, hist - 1;
    MulLe(i + 1, j, m);
    Distribute(i, 1, m);
    DivMonotone(i * m + h, j * m, h);
    DivShift(i * m, h);
  }

  // ----------------------------------------------------- element-count histogram

  /** A run: a count value and how many rows have it. */
  datatype Run = Run(value: int, frequency: nat)

  /** Rows covered by the first `j` runs. */
  function Covered(runs: seq<Run>, j: nat): nat
    requires j <= |runs|
  {
    if j == 0 then 0 else Covered(runs, j - 1) + runs[j - 1].frequency
  }

  /** The runs spell out the sorted counts. */
  ghost predicate Encodes(runs: seq<Run>, sorted: seq<int>) {
    && (forall j :: 0 <= j < |runs| ==> runs[j].frequency >= 1)
    && Covered(runs, |runs|) == |sorted|
    && forall j, p :: 0 <= j < |runs| && 0 <= p < |sorted| && InRun(runs, j, p) ==> sorted[p] == runs[j].value
  }

  /** Row `p` of the sorted counts belongs to run `j`. */
  predicate InRun(runs: seq<Run>, j: nat, p: int)
    requires j < |runs|
  {
    Covered(runs, j) <= p < Covered(runs, j + 1)
  }

  lemma {:induction false} CoveredPrefix(a: seq<Run>, b: seq<Run>, j: nat)
    requires j <= |a| && j <= |b| && a[..j] == b[..j]
    ensures Covered(a, j) == Covered(b, j)
  {
    if j > 0 {
      assert a[..j - 1] == a[..j][..j - 1] && b[..j - 1] == b[..j][..j - 1];
      assert a[j - 1] == a[..j][j - 1] && b[j - 1] == b[..j][j - 1];
      CoveredPrefix(a, b, j - 1);
    }
  }

  lemma {:induction false} CoveredRises(runs: seq<Run>, i: nat, j: nat)
    requires i <= j <= |runs|
    ensures Covered(runs, i) <= Covered(runs, j)
  {
    if i < j { CoveredRises(runs, i, j - 1); }
  }

  /** Groups the counts into runs, extending the last run while its value repeats. */
  method RunLengths(sorted: seq<int>) returns (runs: seq<Run>)
    ensures Encodes(runs, sorted)
  {
    runs := [];
    for p := 0 to |sorted|
      invariant Encodes(runs, sorted[..p])
    {
      ghost var before := runs;
      if |runs| > 0 && runs[|runs| - 1].value == sorted[p] {
        runs := runs[|runs| - 1 := Run(sorted[p], runs[|runs| - 1].frequency + 1)];
        LongerRun(before, runs, sorted, p);
      } else {
        runs := runs + [Run(sorted[p], 1)];
        OneMoreRun(before, runs, sorted, p);
      }
    }
    assert sorted[..|sorted|] == sorted;
  }

  lemma LongerRun(before: seq<Run>, runs: seq<Run>, sorted: seq<int>, p: nat)
    requires p < |sorted| && Encodes(before, sorted[..p]) && |before| > 0
    requires var l := |before| - 1; before[l].value == sorted[p] && runs == before[l := Run(sorted[p], before[l].frequency + 1)]
    ensures Encodes(runs, sorted[..p + 1])
  {
    var l := |before| - 1;
    assert Covered(before, l + 1) == Covered(before, l) + before[l].frequency == p;
    forall j | 0 <= j <= l ensures Covered(runs, j) == Covered(before, j) { CoveredPrefix(runs, before, j); }
    assert Covered(runs, l + 1) == Covered(runs, l) + runs[l].frequency;
    assert Covered(runs, |runs|) == p + 1;
    forall j, q | 0 <= j < |runs| && 0 <= q < p + 1 && InRun(runs, j, q)
      ensures sorted[..p + 1][q] == runs[j].value
    {
      if q < p {
        assert InRun(before, j, q);
        assert sorted[..p][q] == before[j].value;
      } else if j < l {
        CoveredRises(before, j + 1, l);
      }
    }
  }

  lemma OneMoreRun(before: seq<Run>, runs: seq<Run>, sorted: seq<int>, p: nat)
    requires p < |sorted| && Encodes(before, sorted[..p])
    requires runs == before + [Run(sorted[p], 1)]
    ensures Encodes(runs, sorted[..p + 1])
  {
    var l := |before|;
    forall j | 0 <= j <= l ensures Covered(runs, j) == Covered(before, j) { CoveredPrefix(runs, before, j); }
    assert Covered(runs, l + 1) == Covered(runs, l) + runs[l].frequency;
    assert Covered(runs, |runs|) == p + 1;
    forall j, q | 0 <= j < |runs| && 0 <= q < p + 1 && InRun(runs, j, q)
      ensures sorted[..p + 1][q] == runs[j].value
    {
      if j < l {
        CoveredRises(before, j + 1, l);
        assert InRun(before, j, q);
        assert sorted[..p][q] == before[j].value;
      }
    }
  }

  /**
   The walk over the runs: `frac` counts down by the rows between bounds, scaled, and each
   exhausted run is skipped. It never runs past the last run, and its i-th entry is the
   sorted count at floor(i·(rows-1)/(hist-1)).
   */
  method CountHistogram(runs: seq<Run>, rows: nat, target: nat, ghost sorted: seq<int>) returns (hist: seq<int>)
    requires rows == |sorted| && rows >= 1 && Encodes(runs, sorted)
    ensures var h := if target < 2 then 2 else target;
            && |hist| == h
            && forall i :: 0 <= i < h ==> hist[i] == sorted[Position(i, rows, h)]
  {
    var h := if target < 2 then 2 else target;
    var delta := rows - 1;
    hist := [];
    var j := 0;
    var frac := runs[0].frequency * (h - 1);
    for i := 0 to h
      invariant |hist| == i && 0 <= j < |runs|
      invariant frac == Covered(runs, j + 1) * (h - 1) - i * delta
      invariant Covered(runs, j) * (h - 1) <= i * delta
      invariant forall k :: 0 <= k < i ==> hist[k] == sorted[Position(k, rows, h)]
    {
      while frac <= 0
        invariant 0 <= j < |runs|
        invariant frac == Covered(runs, j + 1) * (h - 1) - i * delta
        invariant Covered(runs, j) * (h - 1) <= i * delta
        decreases |runs| - j
      {
        RunsRemain(runs, j, rows, i, h - 1);
        j := j + 1;
        Distribute(Covered(runs, j), runs[j].frequency, h - 1);
        frac := frac + runs[j].frequency * (h - 1);
      }
      PositionInRun(runs, j, rows, i, h);
      hist := hist + [runs[j].value];
      Distribute(i, 1, delta);
      frac := frac - delta;
    }
  }

  // As long as a bound is still to be placed, the runs are not used up.
  lemma RunsRemain(runs: seq<Run>, j: nat, rows: nat, i: nat, h: nat)
    requires j < |runs| && Covered(runs, |runs|) == rows && rows >= 1 && h >= 1 && i <= h
    requires Covered(runs, j + 1) * h <= i * (rows - 1)
    ensures j + 1 < |runs|
  {
    MulLe(i, h, rows - 1);
    Distribute(rows, -1, h);
    assert Covered(runs, j + 1) * h < rows * h;
  }

  lemma PositionInRun(runs: seq<Run>, j: nat, rows: nat, i: nat, h: nat)
    requires j < |runs| && rows >= 1 && h >= 2 && i < h
    requires Covered(runs, j) * (h - 1) <= i * (rows - 1) < Covered(runs, j + 1) * (h - 1)
    ensures InRun(runs, j, Position(i, rows, h))
  {
    DivInside(Covered(runs, j), Covered(runs, j + 1), i * (rows - 1), h - 1);
  }
}

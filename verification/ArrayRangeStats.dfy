/**
 The histograms ANALYZE draws for array and range columns
 (crates/nodus_executor/src/column_stats.rs, `array_stats` and `report_range_stats`).
 Lengths of ranges are modelled by their rank.
 */
module ArrayRangeStats {
  import opened Histograms
  import opened McvTrack
  import opened ScalarStats
  import opened RangeEnds
  import SampleOrder

  /**
   The histogram of the distinct element counts of the analyzed rows, and their average. Though it
   walks the runs, it reads the sorted counts at even positions.
   */
  method ElementCounts(counts: seq<nat>, target: nat) returns (hist: seq<int>, average: real)
    ensures counts == [] ==> hist == []
    ensures counts != [] ==>
              && |hist| == (if target < 2 then 2 else target)
              && |SortedValues(counts)| == |counts|
              && (forall i :: 0 <= i < |hist| ==> hist[i] == SortedValues(counts)[Position(i, |counts|, |hist|)])
              && average * |counts| as real == SampleOrder.Sum(counts) as real
  {
    hide SortedValues;
    hist, average := [], 0.0;
    var elements := 0;
    for k := 0 to |counts|
      invariant elements == SampleOrder.Sum(counts[..k])
    {
      assert counts[..k + 1][..k] == counts[..k];
      elements := elements + counts[k];
    }
    assert counts[..|counts|] == counts;
    if counts != [] {
      SortedValuesMeaning(counts);
      var sorted := SortedValues(counts);
      var runs := RunLengths(sorted);
      hist := CountHistogram(runs, |counts|, target, sorted);
      average := elements as real / |counts| as real;
    }
  }

  function RangeBounds(nonEmpty: nat, target: nat): nat {
    if nonEmpty > target then target + 1 else nonEmpty
  }

  /** The histogram reads the sorted values at even positions, once there are two. */
  ghost predicate Spaced<T(!new)>(sorted: seq<T>, hist: seq<T>, target: nat) {
    if |sorted| < 2 || RangeBounds(|sorted|, target) < 2 then hist == []
    else
      && |hist| == RangeBounds(|sorted|, target)
      && forall i :: 0 <= i < |hist| ==> hist[i] == sorted[Position(i, |sorted|, |hist|)]
  }

  method SpacedHistogram<T(!new)>(sorted: seq<T>, target: nat) returns (hist: seq<T>)
    requires target >= 1
    ensures Spaced(sorted, hist, target)
  {
    hist := [];
    if |sorted| >= 2 {
      hist := EvenlySpaced(sorted, RangeBounds(|sorted|, target));
    }
  }

  // ------------------------------------------------------------- a column of ranges

  datatype Range = Empty | Bounds(lower: End, upper: End, length: int)

  function Lowers(sample: seq<Range>): (r: seq<End>) {
    if sample == [] then []
    else
      var n := |sample| - 1;
      Lowers(sample[..n]) + match sample[n] case Empty => [] case Bounds(l, _, _) => [l]
  }

  function Uppers(sample: seq<Range>): (r: seq<End>)
    ensures |r| == |Lowers(sample)|
  {
    if sample == [] then []
    else
      var n := |sample| - 1;
      Uppers(sample[..n]) + match sample[n] case Empty => [] case Bounds(_, u, _) => [u]
  }

  function Lengths(sample: seq<Range>): (r: seq<int>)
    ensures |r| == |Lowers(sample)|
  {
    if sample == [] then []
    else
      var n := |sample| - 1;
      Lengths(sample[..n]) + match sample[n] case Empty => [] case Bounds(_, _, d) => [d]
  }

  /** The i-th smallest lower end with the i-th smallest upper end. */
  function Paired(lowers: seq<End>, uppers: seq<End>): (r: seq<(End, End)>)
    requires |lowers| == |uppers|
    ensures |r| == |lowers| && forall i :: 0 <= i < |r| ==> r[i] == (SortEnds(lowers)[i], SortEnds(uppers)[i])
  {
    seq(|lowers|, i requires 0 <= i < |lowers| => (SortEnds(lowers)[i], SortEnds(uppers)[i]))
  }

  method CollectRanges(sample: seq<Range>) returns (lowers: seq<End>, uppers: seq<End>, lengths: seq<int>, empty: nat)
    ensures lowers == Lowers(sample) && uppers == Uppers(sample) && lengths == Lengths(sample)
    ensures empty + |lowers| == |sample|
  {
    lowers, uppers, lengths, empty := [], [], [], 0;
    for k := 0 to |sample|
      invariant lowers == Lowers(sample[..k]) && uppers == Uppers(sample[..k]) && lengths == Lengths(sample[..k])
      invariant empty + |lowers| == k
    {
      assert sample[..k + 1][..k] == sample[..k];
      match sample[k]
      case Empty => empty := empty + 1;
      case Bounds(l, u, d) => lowers, uppers, lengths := lowers + [l], uppers + [u], lengths + [d];
    }
    assert sample[..|sample|] == sample;
  }

  /** Both histograms of a range column, and the fraction of the rows that are empty ranges. */
  method RangeHistograms(sample: seq<Range>, rows: nat, target: nat)
    returns (bounds: seq<(End, End)>, lengthBounds: seq<int>, emptyFraction: real)
    requires target >= 1
    ensures Spaced(Paired(Lowers(sample), Uppers(sample)), bounds, target)
    ensures Spaced(SortedValues(Lengths(sample)), lengthBounds, target)
    ensures emptyFraction * rows as real == if rows == 0 then 0.0 else (|sample| - |Lowers(sample)|) as real
  {
    hide SortedValues, Paired, Spaced, Lowers, Uppers, Lengths;
    var lowers, uppers, lengths, empty := CollectRanges(sample);
    bounds := SpacedHistogram(Paired(lowers, uppers), target);
    lengthBounds := SpacedHistogram(SortedValues(lengths), target);
    emptyFraction := if rows > 0 then empty as real / rows as real else 0.0;
  }

  /** Such a histogram never falls, and it starts and ends at the extremes. */
  lemma SpacedMeaning(values: seq<int>, hist: seq<int>, target: nat)
    requires Spaced(SortedValues(values), hist, target) && hist != []
    ensures 2 <= |hist| <= target + 1 && Sorted(hist)
    ensures forall b :: b in hist ==> b in values
    ensures forall v :: v in values ==> hist[0] <= v <= hist[|hist| - 1]
  {
    hide SortedValues, Position;
    var sorted, n, h := SortedValues(values), |values|, |hist|;
    SortedValuesMeaning(values);
    SampleElements(values, sorted);
    forall i, j | 0 <= i <= j < h ensures hist[i] <= hist[j] { SpacingRises(i, j, n, h); }
    SpacingRises(0, 0, n, h);
    forall b | b in hist ensures b in sorted {
      var i :| 0 <= i < h && hist[i] == b;
      assert sorted[Position(i, n, h)] == b;
    }
    forall v | v in sorted ensures sorted[0] <= v <= sorted[n - 1] {
    }
  }
}

/**
 ANALYZE of one ordered column, end to end (crates/nodus_executor/src/column_stats.rs,
 `scalar_stats`): sort, scan, choose the most common values, draw the histogram of the
 rest, correlate. What comes out is stated about the sample itself.
 */
module ScalarStats {
  import opened Wrappers
  import opened McvTrack
  import opened McvList
  import opened Collapse
  import opened Histograms
  import SampleOrder

  // -------------------------------------------------------- the sorted sample

  function Pick(sample: seq<int>, order: seq<nat>): (r: seq<int>)
    requires forall i :: 0 <= i < |order| ==> order[i] < |sample|
    ensures |r| == |order| && forall i :: 0 <= i < |r| ==> r[i] == sample[order[i]]
  {
    seq(|order|, i requires 0 <= i < |order| => sample[order[i]])
  }

  function SortedValues(sample: seq<int>): seq<int> {
    Pick(sample, SampleOrder.SortOrder(sample))
  }

  lemma PickWithout(sample: seq<int>, order: seq<nat>, i: nat)
    requires forall k :: 0 <= k < |order| ==> order[k] < |sample|
    requires i < |order|
    ensures multiset(Pick(sample, order)) == multiset(Pick(sample, order[..i] + order[i + 1..])) + multiset{sample[order[i]]}
  {
    var p := Pick(sample, order);
    assert p == p[..i] + [p[i]] + p[i + 1..];
    assert Pick(sample, order[..i] + order[i + 1..]) == p[..i] + p[i + 1..];
  }

  lemma {:induction false} PickRearranged(sample: seq<int>, a: seq<nat>, b: seq<nat>)
    requires multiset(a) == multiset(b)
    requires forall k :: 0 <= k < |a| ==> a[k] < |sample|
    requires forall k :: 0 <= k < |b| ==> b[k] < |sample|
    ensures multiset(Pick(sample, a)) == multiset(Pick(sample, b))
    decreases |a|
  {
    hide Pick;
    assert |a| == |multiset(a)| == |multiset(b)| == |b|;
    if a == [] {
      assert a == b;
    } else {
      var n := |a| - 1;
      assert a[n] in multiset(a);
      var i :| 0 <= i < |b| && b[i] == a[n];
      SampleOrder.MultisetWithout(a, n);
      SampleOrder.MultisetWithout(b, i);
      PickRearranged(sample, a[..n] + a[n + 1..], b[..i] + b[i + 1..]);
      PickWithout(sample, a, n);
      PickWithout(sample, b, i);
    }
  }

  /** The sorted values are the sample, sorted. */
  lemma SortedValuesMeaning(sample: seq<int>)
    ensures Sorted(SortedValues(sample))
    ensures multiset(SortedValues(sample)) == multiset(sample)
    ensures |SortedValues(sample)| == |sample|
  {
    hide SampleOrder.SortOrder, SampleOrder.Ids;
    var order, ids := SampleOrder.SortOrder(sample), SampleOrder.Ids(|sample|);
    SampleOrder.SortOrderSorts(sample);
    PickRearranged(sample, order, ids);
    assert Pick(sample, ids) == sample;
    forall i, j | 0 <= i < j < |sample| ensures sample[order[i]] <= sample[order[j]] {
      OrderedPair(sample, order, i, j);
    }
  }

  // ------------------------------------------------------ values and their runs

  ghost predicate InRange(vals: seq<int>, items: seq<Item>) {
    forall i :: 0 <= i < |items| ==> items[i].first < |vals|
  }

  /** The value each item stands for. */
  function ItemValues(vals: seq<int>, items: seq<Item>): (r: seq<int>)
    requires InRange(vals, items)
    ensures |r| == |items| && forall i :: 0 <= i < |r| ==> r[i] == vals[items[i].first]
  {
    seq(|items|, i requires 0 <= i < |items| => vals[items[i].first])
  }

  // Different runs of sorted values have different values.
  lemma ValuesDiffer(vals: seq<int>, items: seq<Item>)
    requires Sorted(vals) && DifferentRuns(vals, items)
    ensures forall i, j :: 0 <= i < j < |items| ==> ItemValues(vals, items)[i] != ItemValues(vals, items)[j]
  {
    forall i, j | 0 <= i < j < |items| ensures vals[items[i].first] != vals[items[j].first] {
      var x, y := items[i], items[j];
      RunHoldsItsValue(vals, x, y.first);
      if x.first <= y.first { RunsDisjoint(vals, x, y); } else { RunsDisjoint(vals, y, x); }
    }
  }

  lemma RunsDiffer(vals: seq<int>)
    ensures DifferentRuns(vals, Runs(vals, |vals|))
  {
    hide Runs, IsRun;
    RunsAreMaximal(vals);
    var runs := Runs(vals, |vals|);
    assert forall i :: 0 <= i < |runs| ==> runs[i] in runs;
  }

  // Every position lies in a run.
  lemma RunOf(vals: seq<int>, p: nat) returns (x: Item)
    requires p < |vals|
    ensures IsRun(vals, x) && InItem(x, p)
  {
    var s, e := RunStart(vals, p), p + 1;
    while e < |vals| && !Starts(vals, e)
      invariant p < e <= |vals|
      invariant forall j :: s < j < e ==> !Starts(vals, j)
    {
      e := e + 1;
    }
    x := Item(e - s, s);
  }

  /** Values that occur more than once. */
  ghost function RepeatedValues(sample: seq<int>): set<int> {
    set v | v in sample && multiset(sample)[v] > 1
  }

  lemma RunValues(vals: seq<int>)
    requires Sorted(vals)
    ensures DifferentRuns(vals, Runs(vals, |vals|))
    ensures Elements(ItemValues(vals, Runs(vals, |vals|))) == Elements(vals)
  {
    var runs := Runs(vals, |vals|);
    RunsDiffer(vals);
    RunsAreMaximal(vals);
    var values := ItemValues(vals, runs);
    forall v | v in Elements(vals) ensures v in Elements(values) {
      var p :| 0 <= p < |vals| && vals[p] == v;
      var x := RunOf(vals, p);
      RunHoldsItsValue(vals, x, p);
      var i :| 0 <= i < |runs| && runs[i] == x;
      assert values[i] == v;
    }
    forall v | v in Elements(values) ensures v in Elements(vals) {
      var i :| 0 <= i < |values| && values[i] == v;
      assert vals[runs[i].first] == v;
    }
  }

  lemma RepeatedDiffer(vals: seq<int>)
    ensures DifferentRuns(vals, Repeated(Runs(vals, |vals|)))
    ensures forall x :: x in Repeated(Runs(vals, |vals|)) <==> IsRun(vals, x) && x.count > 1
  {
    hide Runs, Repeated, IsRun;
    RunsAreMaximal(vals);
    FilterRises(Runs(vals, |vals|));
    var items := Repeated(Runs(vals, |vals|));
    assert forall i :: 0 <= i < |items| ==> items[i] in items;
  }

  lemma RepeatedRunValues(vals: seq<int>)
    requires Sorted(vals)
    ensures DifferentRuns(vals, Repeated(Runs(vals, |vals|)))
    ensures Elements(ItemValues(vals, Repeated(Runs(vals, |vals|)))) == RepeatedValues(vals)
  {
    hide Runs, Repeated;
    var items := Repeated(Runs(vals, |vals|));
    RepeatedDiffer(vals);
    var values := ItemValues(vals, items);
    forall v | v in RepeatedValues(vals) ensures v in Elements(values) {
      var p :| 0 <= p < |vals| && vals[p] == v;
      var x := RunOf(vals, p);
      RunHoldsItsValue(vals, x, p);
      CountIsMultiplicity(vals, x);
      var i :| 0 <= i < |items| && items[i] == x;
      assert values[i] == v;
    }
    forall v | v in Elements(values) ensures v in RepeatedValues(vals) {
      var i :| 0 <= i < |values| && values[i] == v;
      assert items[i] in items;
      CountIsMultiplicity(vals, items[i]);
    }
  }

  /** The counters of the scan are the sample's distinct and repeated values. */
  lemma CountersMean(vals: seq<int>)
    requires Sorted(vals)
    ensures |Runs(vals, |vals|)| == |Elements(vals)|
    ensures |Repeated(Runs(vals, |vals|))| == |RepeatedValues(vals)|
  {
    hide Runs, Repeated;
    var runs, items := Runs(vals, |vals|), Repeated(Runs(vals, |vals|));
    RunValues(vals);
    ValuesDiffer(vals, runs);
    DistinctLength(ItemValues(vals, runs));
    RepeatedRunValues(vals);
    ValuesDiffer(vals, items);
    DistinctLength(ItemValues(vals, items));
  }

  // Where the last complete run among the first `n` values ends.
  function Ended(vals: seq<int>, n: nat): nat
    requires n <= |vals|
  {
    if n == 0 || n == |vals| || Starts(vals, n) then n else RunStart(vals, n - 1)
  }

  lemma {:induction false} RunsFitBelow(vals: seq<int>, n: nat)
    requires n <= |vals|
    ensures |Runs(vals, n)| + |Repeated(Runs(vals, n))| <= Ended(vals, n)
  {
    if n > 0 {
      RunsFitBelow(vals, n - 1);
      assert Ended(vals, n - 1) == RunStart(vals, n - 1);
      if n == |vals| || Starts(vals, n) {
        var last := Item(n - RunStart(vals, n - 1), RunStart(vals, n - 1));
        assert Runs(vals, n) == Runs(vals, n - 1) + [last];
        assert (Runs(vals, n - 1) + [last])[..|Runs(vals, n - 1)|] == Runs(vals, n - 1);
      } else {
        assert Runs(vals, n) == Runs(vals, n - 1);
      }
    }
  }

  // --------------------------------------------------------- most common values

  datatype Common = Common(value: int, frequency: real)

  function Multiplicity(sample: seq<int>, v: int): nat {
    multiset(sample)[v]
  }

  /** `u` is the more common value, or the smaller of two equally common ones. */
  predicate Precedes(sample: seq<int>, u: int, v: int) {
    || Multiplicity(sample, u) > Multiplicity(sample, v)
    || (Multiplicity(sample, u) == Multiplicity(sample, v) && u < v)
  }

  ghost predicate Listed(common: seq<Common>, v: int) {
    exists i :: 0 <= i < |common| && common[i].value == v
  }

  /**
   The list is a prefix of all repeated values in order of commonness, with their true
   frequencies: nothing that was left out precedes anything listed.
   */
  ghost predicate MostCommon(sample: seq<int>, common: seq<Common>, rows: nat)
    requires rows >= 1
  {
    && (forall i :: 0 <= i < |common| ==>
          && Multiplicity(sample, common[i].value) > 1
          && common[i].frequency == Multiplicity(sample, common[i].value) as real / rows as real)
    && (forall i, j :: 0 <= i < j < |common| ==> Precedes(sample, common[i].value, common[j].value))
    && forall i, v :: 0 <= i < |common| && v in sample && !Listed(common, v) ==> Precedes(sample, common[i].value, v)
  }

  function Publish(vals: seq<int>, items: seq<Item>, rows: nat): (r: seq<Common>)
    requires rows >= 1 && InRange(vals, items)
    ensures |r| == |items|
    ensures forall i :: 0 <= i < |r| ==> r[i] == Common(vals[items[i].first], items[i].count as real / rows as real)
  {
    seq(|items|, i requires 0 <= i < |items| => Common(vals[items[i].first], items[i].count as real / rows as real))
  }

  /** All the repeated runs, most common first. */
  function Ranking(vals: seq<int>): seq<Item> {
    StableDesc(Repeated(Runs(vals, |vals|)))
  }

  lemma RankingMeaning(vals: seq<int>)
    ensures Ordered(Ranking(vals)) && DifferentRuns(vals, Ranking(vals))
    ensures forall x :: x in Ranking(vals) <==> IsRun(vals, x) && x.count > 1
  {
    hide Runs, Repeated, StableDesc;
    var items, list := Repeated(Runs(vals, |vals|)), Ranking(vals);
    RepeatedDiffer(vals);
    RepeatedRise(vals, |vals|);
    StableDescSorts(items);
    forall x ensures x in list <==> x in items {
      assert x in list <==> x in multiset(list);
      assert x in items <==> x in multiset(items);
    }
    assert forall i :: 0 <= i < |list| ==> list[i] in list;
    assert forall i, j :: 0 <= i < j < |list| ==> Before(list[i], list[j]);
  }

  // The order of two runs is the order of their values.
  lemma BeforePrecedes(vals: seq<int>, x: Item, y: Item)
    requires Sorted(vals) && IsRun(vals, x) && IsRun(vals, y) && Before(x, y)
    ensures Precedes(vals, vals[x.first], vals[y.first])
  {
    hide IsRun;
    CountIsMultiplicity(vals, x);
    CountIsMultiplicity(vals, y);
    if x.count == y.count { LaterIsGreater(vals, x, y); }
  }

  lemma LaterIsGreater(vals: seq<int>, x: Item, y: Item)
    requires Sorted(vals) && IsRun(vals, x) && IsRun(vals, y) && x.first < y.first
    ensures vals[x.first] < vals[y.first]
  {
    RunsDisjoint(vals, x, y);
    RunHoldsItsValue(vals, x, y.first);
  }

  // What is not in the first `k` of the ranking comes after them.
  lemma UnlistedFollows(vals: seq<int>, list: seq<Item>, k: nat, rows: nat, i: nat, p: nat)
    requires Sorted(vals) && rows >= 1 && list == Ranking(vals) && InRange(vals, list)
    requires i < k <= |list| && p < |vals| && !Listed(Publish(vals, list[..k], rows), vals[p])
    ensures Precedes(vals, vals[list[i].first], vals[p])
  {
    hide Ranking, Precedes, IsRun;
    RankingMeaning(vals);
    var x := RunOf(vals, p);
    var common := Publish(vals, list[..k], rows);
    var v := vals[p];
    RunHoldsItsValue(vals, x, p);
    assert list[i] in list;
    if x.count > 1 {
      var j :| 0 <= j < |list| && list[j] == x;
      assert forall h :: 0 <= h < k ==> common[h].value != v;
      assert x.first < |vals| && vals[x.first] == v;
      assert Before(list[i], list[j]);
    }
    BeforePrecedes(vals, list[i], x);
  }

  /** Every prefix of the ranking lists the most common values. */
  lemma PrefixIsMostCommon(vals: seq<int>, list: seq<Item>, k: nat, rows: nat)
    requires Sorted(vals) && rows >= 1 && list == Ranking(vals) && k <= |list|
    ensures InRange(vals, list) && MostCommon(vals, Publish(vals, list[..k], rows), rows)
  {
    hide Ranking, Precedes, IsRun, Multiplicity;
    RankingMeaning(vals);
    FirstsInRange(vals, list);
    var common := Publish(vals, list[..k], rows);
    forall i | 0 <= i < k
      ensures Multiplicity(vals, common[i].value) == list[i].count && list[i].count > 1
    {
      assert list[i] in list;
      MultiplicityIs(vals, list[i]);
    }
    forall i, j | 0 <= i < j < k ensures Precedes(vals, common[i].value, common[j].value) {
      BeforePrecedes(vals, list[i], list[j]);
    }
    forall i, v | 0 <= i < k && v in vals && !Listed(common, v) ensures Precedes(vals, common[i].value, v) {
      var p :| 0 <= p < |vals| && vals[p] == v;
      UnlistedFollows(vals, list, k, rows, i, p);
    }
  }

  lemma MultiplicityIs(vals: seq<int>, x: Item)
    requires Sorted(vals) && IsRun(vals, x)
    ensures Multiplicity(vals, vals[x.first]) == x.count
  {
    CountIsMultiplicity(vals, x);
  }

  lemma FirstsInRange(vals: seq<int>, items: seq<Item>)
    requires forall i :: 0 <= i < |items| ==> IsRun(vals, items[i])
    ensures InRange(vals, items)
  {
  }

  /** How many values the list keeps. */
  ghost predicate IsCut(track: seq<Item>, distinct: nat, estimate: real, s: Sample, target: nat, k: nat)
    requires s.rows >= 1
  {
    var counts := Counts(track);
    if (|track| == distinct && estimate > 0.0 && |track| <= target) || FullSample(s) then k == |track|
    else
      && k <= |track|
      && (k > 0 ==> Significant(counts, k, TableDistinct(estimate, s.tableRows), s))
      && forall j :: k < j <= |track| ==> !Significant(counts, j, TableDistinct(estimate, s.tableRows), s)
  }

  function Counts(track: seq<Item>): (r: seq<nat>)
    ensures |r| == |track| && forall i :: 0 <= i < |r| ==> r[i] == track[i].count
  {
    seq(|track|, i requires 0 <= i < |track| => track[i].count)
  }

  method ChooseCommon(scan: Scan, estimate: real, s: Sample, target: nat) returns (k: nat)
    requires s.rows >= 1
    ensures k <= |scan.track| && IsCut(scan.track, scan.distinct, estimate, s, target, k)
  {
    hide Significant, TableDistinct;
    if |scan.track| == scan.distinct && estimate > 0.0 && |scan.track| <= target {
      k := |scan.track|;
    } else {
      k := |scan.track|;
      if k > 0 {
        k := AnalyzeMcvList(Counts(scan.track), estimate, s);
      }
    }
  }

  // ---------------------------------------------------------------- the histogram

  /** The sorted values with the listed ones taken out. */
  ghost function Unlisted(vals: seq<int>, common: seq<Common>): (r: seq<int>) {
    if vals == [] then []
    else
      var n := |vals| - 1;
      Unlisted(vals[..n], common) + if Listed(common, vals[n]) then [] else [vals[n]]
  }

  lemma {:induction false} OutsideIsUnlisted(vals: seq<int>, items: seq<Item>, common: seq<Common>, n: nat)
    requires n <= |vals| && forall p :: 0 <= p < n ==> (Chosen(items, p) <==> Listed(common, vals[p]))
    ensures forall i :: 0 <= i < |Outside(items, n)| ==> Outside(items, n)[i] < |vals|
    ensures Pick(vals, Outside(items, n)) == Unlisted(vals[..n], common)
  {
    if n > 0 {
      OutsideIsUnlisted(vals, items, common, n - 1);
      assert vals[..n][..n - 1] == vals[..n - 1];
    }
  }

  // A position lies in a chosen run exactly when its value is listed.
  lemma ChosenIsListed(vals: seq<int>, items: seq<Item>, rows: nat, p: nat)
    requires Sorted(vals) && DifferentRuns(vals, items) && InRange(vals, items) && rows >= 1 && p < |vals|
    ensures Chosen(items, p) <==> Listed(Publish(vals, items, rows), vals[p])
  {
    var common := Publish(vals, items, rows);
    forall i | 0 <= i < |items| ensures InItem(items[i], p) <==> common[i].value == vals[p] {
      RunHoldsItsValue(vals, items[i], p);
    }
    if Chosen(items, p) {
      var i :| 0 <= i < |items| && InItem(items[i], p);
      assert common[i].value == vals[p];
    }
    if Listed(common, vals[p]) {
      var i :| 0 <= i < |common| && common[i].value == vals[p];
      assert InItem(items[i], p);
    }
  }

  /** How many bounds the histogram has. */
  function NumHist(distinct: nat, listed: nat, target: nat): nat
    requires listed <= distinct
  {
    if distinct - listed > target then target + 1 else distinct - listed
  }

  /** The bounds lie evenly in the sorted values that are not listed. */
  ghost predicate HistogramOf(vals: seq<int>, common: seq<Common>, hist: seq<int>, target: nat) {
    var rest := Unlisted(vals, common);
    && |common| <= |Elements(vals)|
    && var h := NumHist(|Elements(vals)|, |common|, target);
       if h < 2 then hist == []
       else
         && |rest| >= h
         && |hist| == h
         && forall i :: 0 <= i < h ==> hist[i] == rest[Position(i, |rest|, h)]
  }

  method DrawHistogram(vals: seq<int>, items: seq<Item>, distinct: nat, target: nat, ghost rows: nat)
    returns (hist: seq<int>)
    requires Sorted(vals) && DifferentRuns(vals, items) && InRange(vals, items) && rows >= 1
    requires distinct == |Runs(vals, |vals|)| && |items| <= distinct
    ensures HistogramOf(vals, Publish(vals, items, rows), hist, target)
  {
    hide Runs, Outside, Chosen, DifferentRuns, Unlisted, Elements, Position;
    CountersMean(vals);
    hist := [];
    var h := NumHist(distinct, |items|, target);
    if h >= 2 {
      ByPositionApart(vals, items);
      var keep := Collapse.Collapse(ByPosition(items), |vals|);
      forall p ensures Chosen(ByPosition(items), p) <==> Chosen(items, p) { ByPositionCovers(items, p); }
      SameOutside(ByPosition(items), items, |vals|);
      EnoughKept(vals, items);
      forall p | 0 <= p < |vals| ensures Chosen(items, p) <==> Listed(Publish(vals, items, rows), vals[p]) {
        ChosenIsListed(vals, items, rows, p);
      }
      OutsideIsUnlisted(vals, items, Publish(vals, items, rows), |vals|);
      assert vals[..|vals|] == vals;
      hist := EvenlySpaced(Pick(vals, keep), h);
    }
  }

  lemma {:induction false} UnlistedMeaning(vals: seq<int>, common: seq<Common>)
    ensures forall v :: v in Unlisted(vals, common) <==> v in vals && !Listed(common, v)
    ensures Sorted(vals) ==> Sorted(Unlisted(vals, common))
  {
    if vals != [] {
      var n := |vals| - 1;
      UnlistedMeaning(vals[..n], common);
      var rest := Unlisted(vals[..n], common);
      assert vals == vals[..n] + [vals[n]];
      forall i | 0 <= i < |rest| ensures Sorted(vals) ==> rest[i] <= vals[n] {
        assert rest[i] in rest;
      }
    }
  }

  /**
   The bounds never fall, are sampled values that are not listed as common, and start and
   end at the smallest and largest such value.
   */
  lemma HistogramMeaning(vals: seq<int>, common: seq<Common>, hist: seq<int>, target: nat)
    requires Sorted(vals) && HistogramOf(vals, common, hist, target) && hist != []
    ensures 2 <= |hist| <= target + 1 && Sorted(hist)
    ensures forall b :: b in hist ==> b in vals && !Listed(common, b)
    ensures forall v :: v in vals && !Listed(common, v) ==> hist[0] <= v <= hist[|hist| - 1]
  {
    hide Unlisted, Position, Elements, Listed;
    var rest, h := Unlisted(vals, common), |hist|;
    UnlistedMeaning(vals, common);
    forall i, j | 0 <= i <= j < h ensures hist[i] <= hist[j] {
      SpacingRises(i, j, |rest|, h);
    }
    SpacingRises(0, 0, |rest|, h);
    forall b | b in hist ensures b in rest {
      var i :| 0 <= i < h && hist[i] == b;
      assert rest[Position(i, |rest|, h)] == b;
    }
    forall v | v in rest ensures rest[0] <= v <= rest[|rest| - 1] {
    }
  }

  // -------------------------------------------------------------- the whole column

  datatype Statistics = Statistics(distinct: real, common: seq<Common>, histogram: seq<int>, correlation: Option<real>)

  ghost predicate DistinctOf(sample: seq<int>, s: Sample, estimate: real) {
    var distinct, multiple := |Elements(sample)|, |RepeatedValues(sample)|;
    && s.Valid() && multiple <= distinct && distinct + multiple <= s.rows - s.nulls
    && estimate == Distinct(distinct, multiple, s)
  }

  lemma {:induction false} RepeatedFewer(runs: seq<Item>)
    ensures |Repeated(runs)| <= |runs|
  {
    if runs != [] { RepeatedFewer(runs[..|runs| - 1]); }
  }

  lemma SampleElements(sample: seq<int>, vals: seq<int>)
    requires multiset(vals) == multiset(sample)
    ensures forall v :: v in vals <==> v in sample
    ensures Elements(vals) == Elements(sample) && RepeatedValues(vals) == RepeatedValues(sample)
  {
    forall v ensures v in vals <==> v in sample {
      assert v in vals <==> v in multiset(vals);
      assert v in sample <==> v in multiset(sample);
    }
  }

  lemma MostCommonOfSample(sample: seq<int>, vals: seq<int>, common: seq<Common>, rows: nat)
    requires multiset(vals) == multiset(sample) && rows >= 1 && MostCommon(vals, common, rows)
    ensures MostCommon(sample, common, rows)
  {
    SampleElements(sample, vals);
    assert forall v :: Multiplicity(vals, v) == Multiplicity(sample, v);
    assert forall u, v :: Precedes(vals, u, v) == Precedes(sample, u, v);
  }

  // The scan and the cut, and what they say about the sample.
  method CommonValues(sample: seq<int>, vals: seq<int>, s: Sample, target: nat)
    returns (estimate: real, scan: Scan, k: nat)
    requires s.Valid() && |sample| == s.rows - s.nulls && target >= 1
    requires vals == SortedValues(sample)
    ensures DistinctOf(sample, s, estimate)
    ensures scan.distinct == |Runs(vals, |vals|)| && scan.track == Take(Ranking(vals), target)
    ensures k <= |scan.track| <= scan.distinct && IsCut(scan.track, scan.distinct, estimate, s, target, k)
  {
    hide SortedValues, Runs, Repeated, StableDesc, Sample.NullFrac, Distinct, IsCut, RepeatedValues, Elements;
    scan := ScanSorted(vals, target);
    SortedValuesMeaning(sample);
    CountersMean(vals);
    SampleElements(sample, vals);
    RepeatedFewer(Runs(vals, |vals|));
    RunsFitBelow(vals, |vals|);
    estimate := Distinct(scan.distinct, scan.multiple, s);
    k := ChooseCommon(scan, estimate, s, target);
  }

  /** `scalar_stats`. */
  method Analyze(sample: seq<int>, s: Sample, target: nat) returns (st: Statistics)
    requires s.Valid() && |sample| == s.rows - s.nulls && target >= 1
    ensures DistinctOf(sample, s, st.distinct)
    ensures MostCommon(sample, st.common, s.rows)
    ensures var track := Take(Ranking(SortedValues(sample)), target);
            |st.common| <= |track| && IsCut(track, |Elements(sample)|, st.distinct, s, target, |st.common|)
    ensures HistogramOf(SortedValues(sample), st.common, st.histogram, target)
    ensures st.correlation.Some? <==> |sample| > 1
    ensures |sample| > 1 ==>
              && -1.0 <= st.correlation.value <= 1.0
              && (st.correlation.value == 1.0 <==> Sorted(sample))
  {
    hide SortedValues, Runs, Repeated, Ranking, IsCut, DistinctOf, MostCommon, HistogramOf, Elements;
    var order := SampleOrder.SortOrder(sample);
    SortedValuesMeaning(sample);
    var vals := SortedValues(sample);
    var estimate, scan, k := CommonValues(sample, vals, s, target);
    CountersMean(vals);
    SampleElements(sample, vals);
    ghost var list := Ranking(vals);
    PrefixIsMostCommon(vals, list, k, s.rows);
    var items := scan.track[..k];
    assert items == list[..k];
    PrefixDiffers(vals, k);
    var common := Publish(vals, items, s.rows);
    MostCommonOfSample(sample, vals, common, s.rows);
    var hist := DrawHistogram(vals, items, scan.distinct, target, s.rows);
    var correlation := None;
    if |sample| > 1 {
      SampleOrder.SortOrderSorts(sample);
      SampleOrder.CorrelationMeaning(sample, order);
      var xySum := SampleOrder.CorrelationSum(order);
      correlation := Some(SampleOrder.Correlation(|sample|, xySum));
    }
    st := Statistics(estimate, common, hist, correlation);
  }

  lemma PrefixDiffers(vals: seq<int>, k: nat)
    requires k <= |Ranking(vals)|
    ensures DifferentRuns(vals, Ranking(vals)[..k]) && InRange(vals, Ranking(vals)[..k])
  {
    RankingMeaning(vals);
  }
}

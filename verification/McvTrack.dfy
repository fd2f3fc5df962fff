/**
 The most-common-value track of ANALYZE (crates/nodus_executor/src/column_stats.rs,
 `scalar_stats`): the runs of equal values in the sorted sample, and the bounded list of the
 longest of them, built by insertion in place.
 */
module McvTrack {

  /** A run of equal values: its length and where it starts among the sorted values. */
  datatype Item = Item(count: nat, first: nat)

  // ----------------------------------------------------------------- the runs

  /** A new run starts at `i`. */
  predicate Starts(vals: seq<int>, i: nat)
    requires i < |vals|
  {
    i == 0 || vals[i - 1] != vals[i]
  }

  /** Where the run that `i` lies in starts. */
  function RunStart(vals: seq<int>, i: nat): (r: nat)
    requires i < |vals|
    ensures r <= i && Starts(vals, r)
    ensures forall j :: r < j <= i ==> !Starts(vals, j)
    decreases i
  {
    if Starts(vals, i) then i else RunStart(vals, i - 1)
  }

  /** The complete runs among the first `n` values: those that end before `n`. */
  function Runs(vals: seq<int>, n: nat): (r: seq<Item>)
    requires n <= |vals|
  {
    if n == 0 then []
    else
      Runs(vals, n - 1) +
      if n == |vals| || Starts(vals, n) then [Item(n - RunStart(vals, n - 1), RunStart(vals, n - 1))] else []
  }

  function Repeated(runs: seq<Item>): seq<Item> {
    if runs == [] then []
    else
      var r := runs[|runs| - 1];
      Repeated(runs[..|runs| - 1]) + if r.count > 1 then [r] else []
  }

  // --------------------------------------------------------- the stable sort

  /** Inserts behind every item whose count is no smaller. */
  function InsertDesc(list: seq<Item>, x: Item): (r: seq<Item>)
    ensures |r| == |list| + 1
  {
    if list != [] && list[|list| - 1].count < x.count
    then InsertDesc(list[..|list| - 1], x) + [list[|list| - 1]]
    else list + [x]
  }

  /** The items by descending count; equal counts keep their order. */
  function StableDesc(items: seq<Item>): (r: seq<Item>)
    ensures |r| == |items|
  {
    if items == [] then [] else InsertDesc(StableDesc(items[..|items| - 1]), items[|items| - 1])
  }

  ghost predicate RisingFirst(items: seq<Item>) {
    forall i, j :: 0 <= i < j < |items| ==> items[i].first < items[j].first
  }

  lemma {:induction false} InsertKeepsContents(list: seq<Item>, x: Item)
    ensures multiset(InsertDesc(list, x)) == multiset(list) + multiset{x}
  {
    if list != [] && list[|list| - 1].count < x.count {
      var init, last := list[..|list| - 1], list[|list| - 1];
      assert list == init + [last];
      InsertKeepsContents(init, x);
    }
  }

  /** `y` may stand before `z` in a stable descending list. */
  ghost predicate Before(y: Item, z: Item) {
    y.count > z.count || (y.count == z.count && y.first < z.first)
  }

  ghost predicate Ordered(list: seq<Item>) {
    forall i, j :: 0 <= i < j < |list| ==> Before(list[i], list[j])
  }

  lemma {:induction false} InsertKeepsOrder(list: seq<Item>, x: Item)
    requires Ordered(list)
    requires forall i :: 0 <= i < |list| ==> list[i].first < x.first
    ensures Ordered(InsertDesc(list, x))
    ensures forall i :: 0 <= i < |list| + 1 ==> InsertDesc(list, x)[i] in list || InsertDesc(list, x)[i] == x
  {
    if list != [] && list[|list| - 1].count < x.count {
      var n := |list| - 1;
      var init, last := list[..n], list[n];
      InsertKeepsOrder(init, x);
      var r := InsertDesc(init, x);
      forall i | 0 <= i < |r| ensures Before(r[i], last) && (r[i] in list || r[i] == x) {
        if r[i] in init {
          var k :| 0 <= k < n && init[k] == r[i];
          assert Before(list[k], list[n]);
        }
      }
    } else {
      assert forall i :: 0 <= i < |list| - 1 ==> Before(list[i], list[|list| - 1]);
    }
  }

  /** The reference sort is one: a permutation, descending by count, and stable. */
  lemma {:induction false} StableDescSorts(items: seq<Item>)
    requires RisingFirst(items)
    ensures multiset(StableDesc(items)) == multiset(items)
    ensures Ordered(StableDesc(items))
  {
    if items != [] {
      var init, last := items[..|items| - 1], items[|items| - 1];
      assert items == init + [last];
      StableDescSorts(init);
      var r := StableDesc(init);
      forall i | 0 <= i < |r| ensures r[i].first < last.first {
        assert r[i] in multiset(r);
        assert r[i] in multiset(init);
        var k :| 0 <= k < |init| && init[k] == r[i];
        assert items[k].first < items[|items| - 1].first;
      }
      InsertKeepsContents(r, last);
      InsertKeepsOrder(r, last);
    }
  }

  // ------------------------------------------------------- bounded insertion

  function Take(list: seq<Item>, n: nat): seq<Item> {
    if |list| <= n then list else list[..n]
  }

  /** What inserting into a list cut at `target` comes to. */
  lemma {:induction false} InsertThenCut(list: seq<Item>, x: Item, target: nat)
    requires target >= 1 && Ordered(list)
    ensures var cut := Take(list, target);
            Take(InsertDesc(list, x), target) ==
              if |cut| < target || x.count > cut[|cut| - 1].count then Take(InsertDesc(cut, x), target) else cut
  {
    if |list| > target {
      var init, last := list[..|list| - 1], list[|list| - 1];
      InsertThenCut(init, x, target);
      assert Take(init, target) == Take(list, target);
      if last.count < x.count {
        assert Take(InsertDesc(list, x), target) == Take(InsertDesc(init, x), target);
      } else {
        assert Before(list[target - 1], list[|list| - 1]);
      }
    }
  }

  // The position an insertion lands at splits the list.
  lemma {:induction false} InsertAt(list: seq<Item>, x: Item, j: nat)
    requires j <= |list|
    requires forall i :: j <= i < |list| ==> list[i].count < x.count
    requires j > 0 ==> x.count <= list[j - 1].count
    ensures InsertDesc(list, x) == list[..j] + [x] + list[j..]
  {
    if j < |list| {
      var n := |list| - 1;
      InsertAt(list[..n], x, j);
      assert list[..n][..j] == list[..j];
      assert list[j..] == list[..n][j..] + [list[n]];
    } else {
      assert list[..j] == list && list[j..] == [];
    }
  }

  /**
   The insertion in place: a slot is added while there is room, else the last is given up,
   and smaller counts move down one by one until the new item's place is found.
   */
  method Insert(track: seq<Item>, x: Item, target: nat) returns (r: seq<Item>)
    requires |track| <= target && target >= 1 && Ordered(track)
    requires |track| < target || x.count > track[|track| - 1].count
    ensures r == Take(InsertDesc(track, x), target)
  {
    r := track;
    if |track| < target { r := r + [Item(0, 0)]; }
    var j := |r| - 1;
    ghost var n := j;
    while j > 0
      invariant 0 <= j <= n && |r| == n + 1
      invariant n == if |track| < target then |track| else |track| - 1
      invariant r[..j] == track[..j]
      invariant forall i :: j < i <= n ==> r[i] == track[i - 1]
      invariant forall i :: j <= i < n ==> track[i].count < x.count
    {
      if x.count <= r[j - 1].count { break; }
      assert r[j - 1] == r[..j][j - 1] == track[j - 1];
      r := r[j := r[j - 1]];
      j := j - 1;
    }
    if j > 0 { assert r[j - 1] == r[..j][j - 1] == track[j - 1]; }
    r := r[j := x];
    assert r[..j] == track[..j];
    Settled(track, x, target, r, j, n);
  }

  lemma Settled(track: seq<Item>, x: Item, target: nat, r: seq<Item>, j: nat, n: nat)
    requires |track| <= target && target >= 1 && Ordered(track)
    requires |track| < target || x.count > track[|track| - 1].count
    requires n == (if |track| < target then |track| else |track| - 1) && j <= n && |r| == n + 1
    requires r[..j] == track[..j] && r[j] == x && forall i :: j < i <= n ==> r[i] == track[i - 1]
    requires forall i :: j <= i < n ==> track[i].count < x.count
    requires j > 0 ==> x.count <= track[j - 1].count
    ensures r == Take(InsertDesc(track, x), target)
  {
    InsertAt(track, x, j);
    var full := track[..j] + [x] + track[j..];
    assert |full| == |track| + 1;
    forall i | 0 <= i < |r| ensures r[i] == full[i] {
      if i < j { assert r[i] == r[..j][i]; }
    }
  }

  // ------------------------------------------------------------------- the scan

  /** What one pass over the sorted values finds. */
  datatype Scan = Scan(distinct: nat, multiple: nat, track: seq<Item>)

  ghost predicate Scanned(vals: seq<int>, i: nat, s: Scan, target: nat)
    requires i <= |vals|
  {
    && s.distinct == |Runs(vals, i)|
    && s.multiple == |Repeated(Runs(vals, i))|
    && s.track == Take(StableDesc(Repeated(Runs(vals, i))), target)
  }

  // Another repeated run has ended.
  method Track(track: seq<Item>, ghost items: seq<Item>, x: Item, target: nat) returns (r: seq<Item>)
    requires target >= 1 && RisingFirst(items) && track == Take(StableDesc(items), target)
    ensures r == Take(StableDesc(items + [x]), target)
  {
    assert (items + [x])[..|items|] == items;
    StableDescSorts(items);
    InsertThenCut(StableDesc(items), x, target);
    r := track;
    if |track| < target || x.count > track[|track| - 1].count {
      r := Insert(track, x, target);
    }
  }

  // The run that `i` lies in ends there.
  method EndRun(vals: seq<int>, i: nat, dups: nat, s: Scan, target: nat) returns (r: Scan)
    requires target >= 1 && i < |vals| && Scanned(vals, i, s, target)
    requires dups == i + 1 - RunStart(vals, i)
    requires i + 1 == |vals| || Starts(vals, i + 1)
    ensures Scanned(vals, i + 1, r, target)
  {
    hide StableDesc, InsertDesc, Take;
    var x := Item(dups, i + 1 - dups);
    ghost var runs := Runs(vals, i);
    assert Runs(vals, i + 1) == runs + [x];
    assert (runs + [x])[..|runs|] == runs;
    r := s.(distinct := s.distinct + 1);
    if dups > 1 {
      RepeatedRise(vals, i);
      var track := Track(s.track, Repeated(runs), x, target);
      r := r.(multiple := s.multiple + 1, track := track);
      assert Repeated(runs + [x]) == Repeated(runs) + [x];
    } else {
      assert Repeated(runs + [x]) == Repeated(runs);
    }
  }

  /**
   The loop of `scalar_stats` over the sorted values: it counts the runs, and keeps the
   `target` longest repeated ones. The track is the first `target` items of a stable
   descending sort of all of them, each with the true start of its run.
   */
  method ScanSorted(vals: seq<int>, target: nat) returns (s: Scan)
    requires target >= 1
    ensures Scanned(vals, |vals|, s, target)
  {
    hide Scanned, Runs;
    s := Scan(0, 0, []);
    var dups := 0;
    NothingScanned(vals, target);
    for i := 0 to |vals|
      invariant Scanned(vals, i, s, target)
      invariant dups == if i == 0 || i == |vals| || Starts(vals, i) then 0 else i - RunStart(vals, i - 1)
    {
      dups := dups + 1;
      if i + 1 == |vals| || vals[i] != vals[i + 1] {
        s := EndRun(vals, i, dups, s, target);
        dups := 0;
      } else {
        RunGoesOn(vals, i, s, target);
      }
    }
  }

  lemma NothingScanned(vals: seq<int>, target: nat)
    ensures Scanned(vals, 0, Scan(0, 0, []), target)
  {
  }

  lemma RunGoesOn(vals: seq<int>, i: nat, s: Scan, target: nat)
    requires i + 1 < |vals| && vals[i] == vals[i + 1] && Scanned(vals, i, s, target)
    ensures Scanned(vals, i + 1, s, target)
  {
    assert Runs(vals, i + 1) == Runs(vals, i);
  }

  lemma {:induction false} RunsRise(vals: seq<int>, n: nat)
    requires n <= |vals|
    ensures RisingFirst(Runs(vals, n))
    ensures forall i :: 0 <= i < |Runs(vals, n)| ==> Runs(vals, n)[i].count >= 1 && Runs(vals, n)[i].first + Runs(vals, n)[i].count <= n
  {
    if n > 0 {
      RunsRise(vals, n - 1);
      var s := RunStart(vals, n - 1);
      var r := Runs(vals, n - 1);
      if n == |vals| || Starts(vals, n) {
        forall i | 0 <= i < |r| ensures r[i].first < s {
          CompleteRunsEnd(vals, n - 1, i);
        }
      }
    }
  }

  // A run complete before `n` ends where another starts, so it lies before the run of `n`.
  lemma {:induction false} CompleteRunsEnd(vals: seq<int>, n: nat, i: nat)
    requires n < |vals| && i < |Runs(vals, n)|
    ensures Runs(vals, n)[i].first < RunStart(vals, n)
  {
    if n > 0 {
      if i < |Runs(vals, n - 1)| {
        CompleteRunsEnd(vals, n - 1, i);
      }
    }
  }

  lemma RepeatedRise(vals: seq<int>, n: nat)
    requires n <= |vals|
    ensures RisingFirst(Repeated(Runs(vals, n)))
  {
    RunsRise(vals, n);
    FilterRises(Runs(vals, n));
  }

  lemma {:induction false} FilterRises(runs: seq<Item>)
    requires RisingFirst(runs)
    ensures RisingFirst(Repeated(runs))
    ensures forall x :: x in Repeated(runs) <==> x in runs && x.count > 1
  {
    if runs != [] {
      var init, last := runs[..|runs| - 1], runs[|runs| - 1];
      FilterRises(init);
      assert runs == init + [last];
      forall x | x in init ensures x.first < last.first {
        var k :| 0 <= k < |init| && init[k] == x;
        assert runs[k].first < runs[|runs| - 1].first;
      }
      var r := Repeated(init);
      assert forall i :: 0 <= i < |r| ==> r[i] in r && r[i].first < last.first;
    }
  }

  // --------------------------------------------------------- what the runs are

  /** A maximal stretch of equal values. */
  ghost predicate IsRun(vals: seq<int>, x: Item) {
    && x.count >= 1 && x.first + x.count <= |vals|
    && Starts(vals, x.first)
    && (forall i :: x.first < i < x.first + x.count ==> !Starts(vals, i))
    && (x.first + x.count == |vals| || Starts(vals, x.first + x.count))
  }

  lemma {:induction false} CompleteRuns(vals: seq<int>, n: nat, x: Item)
    requires n <= |vals|
    ensures x in Runs(vals, n) <==> IsRun(vals, x) && x.first + x.count <= n
  {
    if n > 0 {
      CompleteRuns(vals, n - 1, x);
      var s := RunStart(vals, n - 1);
      if n == |vals| || Starts(vals, n) {
        var last := Item(n - s, s);
        assert Runs(vals, n) == Runs(vals, n - 1) + [last];
        assert IsRun(vals, last);
        if IsRun(vals, x) && x.first + x.count == n {
          SameStart(vals, n - 1, s, x.first);
        }
      }
    }
  }

  // Two starts with no other start between them and `i` are one.
  lemma SameStart(vals: seq<int>, i: nat, s: nat, t: nat)
    requires i < |vals| && s <= i && t <= i && Starts(vals, s) && Starts(vals, t)
    requires forall j :: s < j <= i ==> !Starts(vals, j)
    requires forall j :: t < j <= i ==> !Starts(vals, j)
    ensures s == t
  {
  }

  /** The runs of the sample are exactly its maximal stretches of equal values, in order. */
  lemma RunsAreMaximal(vals: seq<int>)
    ensures forall x :: x in Runs(vals, |vals|) <==> IsRun(vals, x)
    ensures RisingFirst(Runs(vals, |vals|))
  {
    RunsRise(vals, |vals|);
    forall x ensures x in Runs(vals, |vals|) <==> IsRun(vals, x) { CompleteRuns(vals, |vals|, x); }
  }

  ghost predicate Sorted(vals: seq<int>) {
    forall i, j :: 0 <= i <= j < |vals| ==> vals[i] <= vals[j]
  }

  lemma {:induction false} RunIsConstant(vals: seq<int>, x: Item, i: nat)
    requires IsRun(vals, x) && x.first <= i < x.first + x.count
    ensures vals[i] == vals[x.first]
    decreases i
  {
    if i > x.first {
      RunIsConstant(vals, x, i - 1);
      assert !Starts(vals, i);
    }
  }

  /** In sorted values a run holds every occurrence of its value. */
  lemma RunHoldsItsValue(vals: seq<int>, x: Item, i: nat)
    requires Sorted(vals) && IsRun(vals, x) && i < |vals|
    ensures vals[i] == vals[x.first] <==> x.first <= i < x.first + x.count
  {
    var end := x.first + x.count;
    if x.first <= i < end {
      RunIsConstant(vals, x, i);
    } else if i < x.first {
      assert vals[i] <= vals[x.first - 1] < vals[x.first];
    } else {
      RunIsConstant(vals, x, end - 1);
      assert vals[end - 1] < vals[end] <= vals[i];
    }
  }

  // The occurrences of `v` among the first `n` values.
  lemma {:induction false} Occurrences(vals: seq<int>, x: Item, n: nat)
    requires Sorted(vals) && IsRun(vals, x) && n <= |vals|
    ensures multiset(vals[..n])[vals[x.first]] ==
              if n <= x.first then 0 else if n <= x.first + x.count then n - x.first else x.count
  {
    if n > 0 {
      Occurrences(vals, x, n - 1);
      RunHoldsItsValue(vals, x, n - 1);
      assert vals[..n] == vals[..n - 1] + [vals[n - 1]];
    }
  }

  /** A tracked item's count is how often its value occurs in the sample. */
  lemma CountIsMultiplicity(vals: seq<int>, x: Item)
    requires Sorted(vals) && IsRun(vals, x)
    ensures multiset(vals)[vals[x.first]] == x.count
  {
    Occurrences(vals, x, |vals|);
    assert vals[..|vals|] == vals;
  }
}

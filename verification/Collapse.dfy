/**
 Removing the chosen most common values from the sorted sample before the histogram is
 drawn (crates/nodus_executor/src/column_stats.rs, `scalar_stats`).
 */
module Collapse {
  import opened McvTrack
  import Arithmetic
  import SampleOrder

  predicate InItem(x: Item, p: int) {
    x.first <= p < x.first + x.count
  }

  /** Position `p` lies in one of the chosen runs. */
  predicate Chosen(chosen: seq<Item>, p: int) {
    exists j :: 0 <= j < |chosen| && InItem(chosen[j], p)
  }

  /** The positions below `n` outside the chosen runs, in order. */
  function Outside(chosen: seq<Item>, n: nat): seq<nat> {
    if n == 0 then [] else Outside(chosen, n - 1) + if Chosen(chosen, n - 1) then [] else [n - 1]
  }

  lemma {:induction false} OutsideMeaning(chosen: seq<Item>, n: nat)
    ensures forall i, j :: 0 <= i < j < |Outside(chosen, n)| ==> Outside(chosen, n)[i] < Outside(chosen, n)[j]
    ensures forall p :: p in Outside(chosen, n) <==> 0 <= p < n && !Chosen(chosen, p)
  {
    if n > 0 {
      OutsideMeaning(chosen, n - 1);
      var before := Outside(chosen, n - 1);
      assert forall i :: 0 <= i < |before| ==> before[i] in before;
    }
  }

  /** Non-empty runs within `n`, each after the one before. */
  ghost predicate Apart(chosen: seq<Item>, n: nat) {
    && (forall j :: 0 <= j < |chosen| ==> chosen[j].count >= 1 && chosen[j].first + chosen[j].count <= n)
    && forall j, k :: 0 <= j < k < |chosen| ==> chosen[j].first + chosen[j].count <= chosen[k].first
  }

  function Range(a: nat, b: nat): (r: seq<nat>)
    requires a <= b
    ensures |r| == b - a && forall i :: 0 <= i < b - a ==> r[i] == a + i
  {
    seq(b - a, i requires 0 <= i => a + i)
  }

  lemma {:induction false} OutsideSkips(chosen: seq<Item>, a: nat, b: nat)
    requires a <= b && forall p :: a <= p < b ==> Chosen(chosen, p)
    ensures Outside(chosen, b) == Outside(chosen, a)
  {
    if a < b { OutsideSkips(chosen, a, b - 1); }
  }

  lemma {:induction false} OutsideKeeps(chosen: seq<Item>, a: nat, b: nat)
    requires a <= b && forall p :: a <= p < b ==> !Chosen(chosen, p)
    ensures Outside(chosen, b) == Outside(chosen, a) + Range(a, b)
  {
    if a < b {
      OutsideKeeps(chosen, a, b - 1);
      assert Range(a, b) == Range(a, b - 1) + [b - 1];
    } else {
      assert Range(a, b) == [];
    }
  }

  // Between the runs already passed and the next one nothing is chosen.
  lemma GapIsFree(chosen: seq<Item>, n: nat, j: nat, src: nat, end: nat)
    requires Apart(chosen, n) && j <= |chosen|
    requires forall k :: 0 <= k < j ==> chosen[k].first + chosen[k].count <= src
    requires j < |chosen| ==> end <= chosen[j].first
    ensures forall p :: src <= p < end ==> !Chosen(chosen, p)
  {
    forall p, k | src <= p < end && 0 <= k < |chosen| ensures !InItem(chosen[k], p) {
      if k > j { assert chosen[j].first + chosen[j].count <= chosen[k].first; }
    }
  }

  /** The collapse loop: it keeps exactly the positions outside the chosen runs. */
  method Collapse(chosen: seq<Item>, n: nat) returns (keep: seq<nat>)
    requires Apart(chosen, n)
    ensures keep == Outside(chosen, n)
  {
    hide Outside, Chosen;
    keep := [];
    assert Outside(chosen, 0) == [] by { NothingYet(chosen); }
    var src, j := 0, 0;
    while src < n
      invariant src <= n && j <= |chosen|
      invariant keep == Outside(chosen, src)
      invariant forall k :: 0 <= k < j ==> chosen[k].first + chosen[k].count <= src
      invariant j < |chosen| ==> src <= chosen[j].first
      decreases n - src
    {
      if j < |chosen| {
        var first := chosen[j].first;
        if src >= first {
          RunIsChosen(chosen, j);
          OutsideSkips(chosen, first, first + chosen[j].count);
          src := first + chosen[j].count;
          j := j + 1;
          continue;
        }
        GapIsFree(chosen, n, j, src, first);
        OutsideKeeps(chosen, src, first);
        keep := keep + Range(src, first);
        src := first;
      } else {
        GapIsFree(chosen, n, j, src, n);
        OutsideKeeps(chosen, src, n);
        keep := keep + Range(src, n);
        src := n;
      }
    }
  }

  lemma NothingYet(chosen: seq<Item>)
    ensures Outside(chosen, 0) == []
  {
  }

  lemma RunIsChosen(chosen: seq<Item>, j: nat)
    requires j < |chosen|
    ensures forall p :: InItem(chosen[j], p) ==> Chosen(chosen, p)
  {
  }

  // --------------------------------------------------------- in position order

  function Firsts(items: seq<Item>): (r: seq<nat>)
    ensures |r| == |items| && forall i :: 0 <= i < |r| ==> r[i] == items[i].first
  {
    seq(|items|, i requires 0 <= i < |items| => items[i].first)
  }

  /** The items by where their runs start (`mcv_sorted`). */
  function ByPosition(items: seq<Item>): seq<Item> {
    var order := SampleOrder.SortOrder(Firsts(items));
    seq(|items|, j requires 0 <= j < |items| => items[order[j]])
  }

  /** Different runs of the same values. */
  ghost predicate DifferentRuns(vals: seq<int>, items: seq<Item>) {
    && (forall i :: 0 <= i < |items| ==> IsRun(vals, items[i]))
    && forall i, j :: 0 <= i < j < |items| ==> items[i] != items[j]
  }

  // Runs that start at different places do not overlap.
  lemma RunsDisjoint(vals: seq<int>, x: Item, y: Item)
    requires IsRun(vals, x) && IsRun(vals, y) && x.first <= y.first && x != y
    ensures x.first + x.count <= y.first
  {
  }

  lemma InIds(n: nat, p: nat)
    requires p < n
    ensures p in SampleOrder.Ids(n)
  {
    assert SampleOrder.Ids(n)[p] == p;
  }

  // Sorting the positions loses none.
  lemma OrderCovers(vals: seq<int>, order: seq<nat>, p: nat)
    requires SampleOrder.IsSortOrder(vals, order) && p < |vals|
    ensures exists j :: 0 <= j < |order| && order[j] == p
  {
    InIds(|vals|, p);
    assert p in multiset(SampleOrder.Ids(|vals|));
    assert p in multiset(order);
  }

  /** In position order the runs are apart. */
  lemma ByPositionApart(vals: seq<int>, items: seq<Item>)
    requires DifferentRuns(vals, items)
    ensures Apart(ByPosition(items), |vals|)
  {
    hide SampleOrder.SortOrder;
    var firsts := Firsts(items);
    var order := SampleOrder.SortOrder(firsts);
    SampleOrder.SortOrderSorts(firsts);
    var sorted := ByPosition(items);
    assert forall j :: 0 <= j < |sorted| ==> sorted[j] == items[order[j]] && IsRun(vals, items[order[j]]);
    forall j, k | 0 <= j < k < |sorted| ensures sorted[j].first + sorted[j].count <= sorted[k].first {
      OrderedPair(firsts, order, j, k);
      RunsDisjoint(vals, items[order[j]], items[order[k]]);
    }
  }

  lemma OrderedPair(vals: seq<int>, order: seq<nat>, j: nat, k: nat)
    requires SampleOrder.IsSortOrder(vals, order) && j < k < |order|
    ensures order[j] != order[k] && vals[order[j]] <= vals[order[k]]
  {
    assert SampleOrder.Before(vals, order[j], order[k]);
  }

  /** And they cover the same positions. */
  lemma ByPositionCovers(items: seq<Item>, p: int)
    ensures Chosen(ByPosition(items), p) <==> Chosen(items, p)
  {
    hide SampleOrder.SortOrder;
    var firsts := Firsts(items);
    var order := SampleOrder.SortOrder(firsts);
    SampleOrder.SortOrderSorts(firsts);
    var sorted := ByPosition(items);
    if Chosen(items, p) {
      var i :| 0 <= i < |items| && InItem(items[i], p);
      OrderCovers(firsts, order, i);
      var j :| 0 <= j < |order| && order[j] == i;
      assert InItem(sorted[j], p);
    }
    if Chosen(sorted, p) {
      var j :| 0 <= j < |sorted| && InItem(sorted[j], p);
      assert InItem(items[order[j]], p);
    }
  }

  lemma {:induction false} SameOutside(a: seq<Item>, b: seq<Item>, n: nat)
    requires forall p :: Chosen(a, p) <==> Chosen(b, p)
    ensures Outside(a, n) == Outside(b, n)
  {
    if n > 0 { SameOutside(a, b, n - 1); }
  }

  // ------------------------------------------------------------ enough is kept

  ghost function Elements<T(!new)>(s: seq<T>): set<T> {
    set x | x in s
  }

  lemma {:induction false} AtMostLength<T(!new)>(s: seq<T>)
    ensures |Elements(s)| <= |s|
  {
    if s != [] {
      var n := |s| - 1;
      AtMostLength(s[..n]);
      assert Elements(s) == Elements(s[..n]) + {s[n]};
    }
  }

  lemma {:induction false} DistinctLength<T(!new)>(s: seq<T>)
    requires forall i, j :: 0 <= i < j < |s| ==> s[i] != s[j]
    ensures |Elements(s)| == |s|
  {
    if s != [] {
      var n := |s| - 1;
      DistinctLength(s[..n]);
      assert s[n] !in Elements(s[..n]);
      assert Elements(s) == Elements(s[..n]) + {s[n]};
    }
  }

  // The first position of a run that was not chosen is kept.
  lemma UnchosenStartKept(vals: seq<int>, chosen: seq<Item>, x: Item)
    requires DifferentRuns(vals, chosen) && IsRun(vals, x) && x.first !in Elements(Firsts(chosen))
    ensures !Chosen(chosen, x.first)
  {
    forall j | 0 <= j < |chosen| ensures !InItem(chosen[j], x.first) {
      assert Firsts(chosen)[j] == chosen[j].first;
      assert chosen[j].first in Elements(Firsts(chosen));
    }
  }

  lemma SetDifferenceSize(a: set<nat>, b: set<nat>, c: set<nat>)
    requires a - b <= c
    ensures |a| <= |b| + |c|
  {
    assert a <= b + c;
    Arithmetic.SubsetSize(a, b + c);
    assert |b + c| == |b| + |c| - |b * c|;
  }

  /** At least as many positions are kept as there are runs not chosen. */
  lemma EnoughKept(vals: seq<int>, chosen: seq<Item>)
    requires DifferentRuns(vals, chosen)
    ensures |Outside(chosen, |vals|)| >= |Runs(vals, |vals|)| - |chosen|
  {
    var runs, keep := Runs(vals, |vals|), Outside(chosen, |vals|);
    RunsAreMaximal(vals);
    OutsideMeaning(chosen, |vals|);
    var starts, taken := Elements(Firsts(runs)), Elements(Firsts(chosen));
    DistinctLength(Firsts(runs));
    AtMostLength(Firsts(chosen));
    AtMostLength(keep);
    forall f | f in starts - taken ensures f in Elements(keep) {
      var i :| 0 <= i < |runs| && Firsts(runs)[i] == f;
      assert runs[i] in runs;
      UnchosenStartKept(vals, chosen, runs[i]);
    }
    SetDifferenceSize(starts, taken, Elements(keep));
  }
}

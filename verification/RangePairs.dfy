/**
 The bounds histogram of a range column prints the i-th smallest lower end with the i-th smallest
 upper end (crates/nodus_executor/src/column_stats.rs, `report_range_stats`). What is printed need
 not be a range, by the test that reading one back applies (crates/nodus_executor/src/ranges.rs,
 `canonical`).
 */
module RangePairs {
  import opened RangeEnds
  import opened Histograms
  import opened ArrayRangeStats

  /** A pair holds at least a point: the values rise, or meet in two inclusive ends. */
  predicate IsRange(lower: End, upper: End) {
    || lower.Unbounded?
    || upper.Unbounded?
    || lower.value < upper.value
    || (lower.value == upper.value && lower.inclusive && upper.inclusive)
  }

  /** Every sorted lower end makes a range with the sorted upper end in its place. */
  ghost predicate PairsAreRanges(lowers: seq<End>, uppers: seq<End>)
    requires |lowers| == |uppers|
  {
    forall p :: 0 <= p < |lowers| ==> IsRange(SortEnds(lowers)[p], SortEnds(uppers)[p])
  }

  /**
   Enough ranges have begun at a bounded upper end. By an exclusive one, as many lower ends lie
   below its value as upper ends come up to it. By an inclusive one, as many lie at or below it, and
   the exclusive lower ends at its value, if any, stand clear of the places its copies take.
   */
  predicate Begun(lowers: seq<End>, uppers: seq<End>, u: End)
    requires u.At?
  {
    var v := u.value;
    if !u.inclusive then WithOpen(uppers, v) <= Below(lowers, v)
    else
      && WithClosed(uppers, v) <= WithClosed(lowers, v)
      && (At(v, false) !in lowers || WithClosed(uppers, v) <= Below(lowers, v) || WithOpen(lowers, v) <= WithOpen(uppers, v))
  }

  ghost predicate EnoughBegun(lowers: seq<End>, uppers: seq<End>) {
    forall u :: u in uppers && u.At? ==> Begun(lowers, uppers, u)
  }

  // -------------------------------------------------------------- place by place

  // Where a bounded upper end stands among the sorted ones.
  lemma Places(uppers: seq<End>, p: nat, u: End)
    requires p < |uppers| && u.At?
    ensures SortEnds(uppers)[p] == u <==>
              if u.inclusive then WithOpen(uppers, u.value) <= p < WithClosed(uppers, u.value)
              else Below(uppers, u.value) <= p < WithOpen(uppers, u.value)
  {
    hide SortEnds, Count;
    var v := u.value;
    CountSorted(uppers, 2 * v, p);
    CountSorted(uppers, 2 * v + 1, p);
    CountSorted(uppers, 2 * v + 2, p);
  }

  // The lower ends that make a range with `u` are two stretches of the sorted ones.
  lemma Fits(lowers: seq<End>, p: nat, u: End)
    requires p < |lowers| && u.At?
    ensures IsRange(SortEnds(lowers)[p], u) <==>
              p < Below(lowers, u.value) || (u.inclusive && WithOpen(lowers, u.value) <= p < WithClosed(lowers, u.value))
  {
    hide SortEnds, Count;
    var v := u.value;
    CountSorted(lowers, 2 * v, p);
    CountSorted(lowers, 2 * v + 1, p);
    CountSorted(lowers, 2 * v + 2, p);
  }

  lemma Counted(ends: seq<End>, v: int)
    ensures Below(ends, v) <= WithOpen(ends, v) <= WithClosed(ends, v) <= |ends|
    ensures WithOpen(ends, v) == Below(ends, v) <==> At(v, false) !in ends
  {
    hide Count;
    CountRises(ends, 2 * v, 2 * v + 1);
    CountRises(ends, 2 * v + 1, 2 * v + 2);
    CountBound(ends, 2 * v + 2);
    CountBetween(ends, v);
  }

  lemma Taken(uppers: seq<End>, u: End)
    requires u in uppers && u.At?
    ensures if u.inclusive then WithOpen(uppers, u.value) < WithClosed(uppers, u.value)
            else Below(uppers, u.value) < WithOpen(uppers, u.value)
  {
    hide SortEnds, Count;
    SortKeeps(uppers, u);
    var p :| 0 <= p < |SortEnds(uppers)| && SortEnds(uppers)[p] == u;
    Places(uppers, p, u);
  }

  lemma RangesBegin(lowers: seq<End>, uppers: seq<End>, u: End)
    requires |lowers| == |uppers| && PairsAreRanges(lowers, uppers) && u in uppers && u.At?
    ensures Begun(lowers, uppers, u)
  {
    hide SortEnds, Below, WithOpen, WithClosed, IsRange;
    var v := u.value;
    Counted(uppers, v);
    Counted(lowers, v);
    Taken(uppers, u);
    var last := (if u.inclusive then WithClosed(uppers, v) else WithOpen(uppers, v)) - 1;
    Places(uppers, last, u);
    Fits(lowers, last, u);
    if u.inclusive && At(v, false) in lowers && Below(lowers, v) < WithClosed(uppers, v) {
      var a, b := WithOpen(uppers, v), Below(lowers, v);
      var p := if a > b then a else b;
      Places(uppers, p, u);
      Fits(lowers, p, u);
    }
  }

  lemma BegunIsRange(lowers: seq<End>, uppers: seq<End>, p: nat)
    requires |lowers| == |uppers| && EnoughBegun(lowers, uppers) && p < |lowers|
    ensures IsRange(SortEnds(lowers)[p], SortEnds(uppers)[p])
  {
    hide SortEnds, Below, WithOpen, WithClosed;
    var u := SortEnds(uppers)[p];
    SortKeeps(uppers, u);
    if u.At? {
      assert Begun(lowers, uppers, u);
      Counted(lowers, u.value);
      Places(uppers, p, u);
      Fits(lowers, p, u);
    }
  }

  /** The pairs are all ranges exactly when enough ranges have begun at every bounded upper end. */
  lemma PairsAreRangesExactly(lowers: seq<End>, uppers: seq<End>)
    requires |lowers| == |uppers|
    ensures PairsAreRanges(lowers, uppers) <==> EnoughBegun(lowers, uppers)
  {
    hide SortEnds, Begun, IsRange;
    if PairsAreRanges(lowers, uppers) {
      forall u | u in uppers && u.At? ensures Begun(lowers, uppers, u) { RangesBegin(lowers, uppers, u); }
    }
    if EnoughBegun(lowers, uppers) {
      forall p | 0 <= p < |lowers| ensures IsRange(SortEnds(lowers)[p], SortEnds(uppers)[p]) {
        BegunIsRange(lowers, uppers, p);
      }
    }
  }

  // ------------------------------------------------------- ranges that end somewhere

  /** The sampled ranges themselves hold a point and end. */
  ghost predicate BoundedRanges(lowers: seq<End>, uppers: seq<End>) {
    |lowers| == |uppers| && forall i :: 0 <= i < |lowers| ==> IsRange(lowers[i], uppers[i]) && uppers[i].At?
  }

  lemma BegunByEnd(lowers: seq<End>, uppers: seq<End>, v: int)
    requires BoundedRanges(lowers, uppers)
    ensures WithOpen(uppers, v) <= Below(lowers, v) && WithClosed(uppers, v) <= WithClosed(lowers, v)
  {
    hide Count;
    CountPartners(uppers, 2 * v + 1, lowers, 2 * v);
    CountPartners(uppers, 2 * v + 2, lowers, 2 * v + 2);
  }

  /** No value where one range ends in and another begins after, or enough begin below it. */
  ghost predicate Apart(lowers: seq<End>, uppers: seq<End>) {
    forall v :: At(v, true) in uppers && At(v, false) in lowers ==> WithClosed(uppers, v) <= Below(lowers, v)
  }

  /**
   Of ranges that all end, the pairs are ranges exactly when, wherever an inclusive upper end meets
   an exclusive lower one, as many ranges begin below that value as end by it.
   */
  lemma BoundedRangesPair(lowers: seq<End>, uppers: seq<End>)
    requires BoundedRanges(lowers, uppers)
    ensures PairsAreRanges(lowers, uppers) <==> Apart(lowers, uppers)
  {
    hide PairsAreRanges, Below, WithOpen, WithClosed, BoundedRanges;
    assert |lowers| == |uppers| by { SameCount(lowers, uppers); }
    PairsAreRangesExactly(lowers, uppers);
    forall u | u in uppers && u.At?
      ensures Begun(lowers, uppers, u) <==>
                (u.inclusive && At(u.value, false) in lowers ==> WithClosed(uppers, u.value) <= Below(lowers, u.value))
    {
      BegunByEnd(lowers, uppers, u.value);
      Counted(lowers, u.value);
    }
    if EnoughBegun(lowers, uppers) {
      forall v | At(v, true) in uppers && At(v, false) in lowers ensures WithClosed(uppers, v) <= Below(lowers, v) {
        assert Begun(lowers, uppers, At(v, true));
      }
    }
  }

  lemma SameCount(lowers: seq<End>, uppers: seq<End>)
    requires BoundedRanges(lowers, uppers)
    ensures |lowers| == |uppers|
  {
  }

  /** Where upper ends are exclusive, as the discrete subtypes make them, every pair is a range. */
  lemma ExclusiveEndsPair(lowers: seq<End>, uppers: seq<End>)
    requires BoundedRanges(lowers, uppers) && forall u :: u in uppers ==> !u.inclusive
    ensures PairsAreRanges(lowers, uppers)
  {
    hide PairsAreRanges, BoundedRanges;
    BoundedRangesPair(lowers, uppers);
  }

  lemma OneSorted(a: End)
    ensures SortEnds([a]) == [a]
  {
    assert [a][..0] == [];
  }

  lemma OneInserted(a: End, b: End)
    ensures Insert([a], b) == if AtMost(a, b) then [a, b] else [b, a]
  {
    hide AtMost, SortEnds;
    assert [a][..0] == [];
  }

  lemma TwoSorted(a: End, b: End)
    ensures SortEnds([a, b]) == if AtMost(a, b) then [a, b] else [b, a]
  {
    hide AtMost, Insert;
    assert [a, b][..1] == [a];
    OneSorted(a);
    OneInserted(a, b);
  }

  /** [5,5] and (5,7) print the lower end (5 with the upper end 5]. */
  lemma MeetingEndsBreakPairs()
    ensures BoundedRanges([At(5, true), At(5, false)], [At(5, true), At(7, false)])
    ensures !PairsAreRanges([At(5, true), At(5, false)], [At(5, true), At(7, false)])
  {
    hide SortEnds;
    TwoSorted(At(5, true), At(5, false));
    TwoSorted(At(5, true), At(7, false));
    assert !IsRange([At(5, false), At(5, true)][0], [At(5, true), At(7, false)][0]);
  }

  /** (5,) and [1,5) print the lower end (5 with the upper end 5): the unbounded end moved to the front. */
  lemma UnboundedUpperBreaksPairs()
    ensures IsRange(At(5, false), Unbounded) && IsRange(At(1, true), At(5, false))
    ensures !PairsAreRanges([At(5, false), At(1, true)], [Unbounded, At(5, false)])
  {
    hide SortEnds;
    TwoSorted(At(5, false), At(1, true));
    TwoSorted(Unbounded, At(5, false));
    assert !IsRange([At(1, true), At(5, false)][1], [Unbounded, At(5, false)][1]);
  }

  /** The printed bounds are among the pairs, so under the condition each of them is a range. */
  lemma PrintedBoundsAreRanges(lowers: seq<End>, uppers: seq<End>, bounds: seq<(End, End)>, target: nat)
    requires |lowers| == |uppers| && Spaced(Paired(lowers, uppers), bounds, target)
    requires EnoughBegun(lowers, uppers)
    ensures forall i :: 0 <= i < |bounds| ==> IsRange(bounds[i].0, bounds[i].1)
  {
    hide SortEnds, Position, Begun, IsRange;
    PairsAreRangesExactly(lowers, uppers);
    forall i | 0 <= i < |bounds| ensures IsRange(bounds[i].0, bounds[i].1) {
      var p := Position(i, |lowers|, |bounds|);
      assert bounds[i] == Paired(lowers, uppers)[p];
    }
  }
}

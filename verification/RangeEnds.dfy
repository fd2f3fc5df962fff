/**
 The ends of ranges and their order (crates/nodus_executor/src/column_stats.rs, `RangeEnd` and
 `cmp_end`): by value, an exclusive end before an inclusive one at the same value, and an unbounded
 end before every other. Values are modelled by their rank in the subtype's order.
 */
module RangeEnds {
  import SampleOrder

  datatype End = Unbounded | At(value: int, inclusive: bool)

  /** `cmp_end` does not say greater. */
  predicate AtMost(a: End, b: End) {
    a.Unbounded? || (b.At? && (a.value < b.value || (a.value == b.value && (a.inclusive ==> b.inclusive))))
  }

  ghost predicate Ascending(ends: seq<End>) {
    forall i, j :: 0 <= i < j < |ends| ==> AtMost(ends[i], ends[j])
  }

  function Insert(ends: seq<End>, e: End): (r: seq<End>)
    ensures |r| == |ends| + 1
    ensures multiset(r) == multiset(ends) + multiset{e}
  {
    if ends == [] then [e]
    else
      var n := |ends| - 1;
      assert ends == ends[..n] + [ends[n]];
      if AtMost(ends[n], e) then ends + [e] else Insert(ends[..n], e) + [ends[n]]
  }

  /** The stable sort. */
  function SortEnds(ends: seq<End>): (r: seq<End>)
    ensures |r| == |ends| && multiset(r) == multiset(ends)
  {
    if ends == [] then []
    else
      var n := |ends| - 1;
      assert ends == ends[..n] + [ends[n]];
      Insert(SortEnds(ends[..n]), ends[n])
  }

  lemma AscendingSnoc(ends: seq<End>, e: End)
    requires Ascending(ends) && forall x :: x in ends ==> AtMost(x, e)
    ensures Ascending(ends + [e])
  {
  }

  lemma {:induction false} InsertAscends(ends: seq<End>, e: End)
    requires Ascending(ends)
    ensures Ascending(Insert(ends, e))
  {
    if ends != [] {
      var n := |ends| - 1;
      if AtMost(ends[n], e) {
        AscendingSnoc(ends, e);
      } else {
        InsertAscends(ends[..n], e);
        var r := Insert(ends[..n], e);
        forall x | x in r ensures AtMost(x, ends[n]) {
          assert x in multiset(r);
          if x != e {
            assert x in multiset(ends[..n]);
            var k :| 0 <= k < n && ends[k] == x;
          }
        }
        AscendingSnoc(r, ends[n]);
      }
    }
  }

  lemma {:induction false} SortAscends(ends: seq<End>)
    ensures Ascending(SortEnds(ends))
  {
    if ends != [] {
      var n := |ends| - 1;
      SortAscends(ends[..n]);
      InsertAscends(SortEnds(ends[..n]), ends[n]);
    }
  }

  lemma SortKeeps(ends: seq<End>, e: End)
    ensures e in SortEnds(ends) <==> e in ends
  {
    assert e in multiset(ends) <==> e in multiset(SortEnds(ends));
  }

  // ------------------------------------------------------------------------ counts

  /**
   Whether an end lies under a cut. At a value `v` there are three: 2v lies before both of its ends,
   2v + 1 between the exclusive and the inclusive one, 2v + 2 after both.
   */
  predicate Under(e: End, cut: int) {
    e.Unbounded? || 2 * e.value + (if e.inclusive then 1 else 0) < cut
  }

  function Count(ends: seq<End>, cut: int): nat {
    if ends == [] then 0
    else Count(ends[..|ends| - 1], cut) + if Under(ends[|ends| - 1], cut) then 1 else 0
  }

  /** How many ends lie below the value. */
  function Below(ends: seq<End>, v: int): nat {
    Count(ends, 2 * v)
  }

  /** How many lie below the value or are its exclusive end. */
  function WithOpen(ends: seq<End>, v: int): nat {
    Count(ends, 2 * v + 1)
  }

  /** How many lie below the value or at it. */
  function WithClosed(ends: seq<End>, v: int): nat {
    Count(ends, 2 * v + 2)
  }

  lemma {:induction false} CountWithout(s: seq<End>, i: nat, cut: int)
    requires i < |s|
    ensures Count(s, cut) == Count(s[..i] + s[i + 1..], cut) + if Under(s[i], cut) then 1 else 0
  {
    var n := |s| - 1;
    if i == n {
      assert s[..i] + s[i + 1..] == s[..n];
    } else {
      CountWithout(s[..n], i, cut);
      var t := s[..i] + s[i + 1..];
      assert t[..n - 1] == s[..n][..i] + s[..n][i + 1..] && t[n - 1] == s[n];
    }
  }

  /** Sorting does not change how many lie under a cut. */
  lemma {:induction false} CountRearranged(a: seq<End>, b: seq<End>, cut: int)
    requires multiset(a) == multiset(b)
    ensures Count(a, cut) == Count(b, cut)
    decreases |a|
  {
    hide Count;
    assert |a| == |multiset(a)| == |multiset(b)| == |b|;
    if a == [] {
      assert a == b;
    } else {
      var n := |a| - 1;
      assert a[n] in multiset(a);
      var i :| 0 <= i < |b| && b[i] == a[n];
      SampleOrder.MultisetWithout(a, n);
      SampleOrder.MultisetWithout(b, i);
      CountRearranged(a[..n] + a[n + 1..], b[..i] + b[i + 1..], cut);
      CountWithout(a, n, cut);
      CountWithout(b, i, cut);
    }
  }

  lemma {:induction false} CountBound(s: seq<End>, cut: int)
    ensures Count(s, cut) <= |s|
  {
    if s != [] { CountBound(s[..|s| - 1], cut); }
  }

  lemma {:induction false} AllCounted(s: seq<End>, cut: int)
    requires Ascending(s) && s != [] && Under(s[|s| - 1], cut)
    ensures Count(s, cut) == |s|
  {
    if |s| > 1 {
      var n := |s| - 1;
      assert AtMost(s[n - 1], s[n]);
      AllCounted(s[..n], cut);
    }
  }

  /** In sorted ends the first so many are the ones under the cut. */
  lemma {:induction false} SortedCount(s: seq<End>, cut: int, p: nat)
    requires Ascending(s) && p < |s|
    ensures Under(s[p], cut) <==> p < Count(s, cut)
  {
    var n := |s| - 1;
    assert Ascending(s[..n]);
    CountBound(s[..n], cut);
    if p < n { SortedCount(s[..n], cut, p); }
    if Under(s[n], cut) { AllCounted(s, cut); }
  }

  lemma CountSorted(ends: seq<End>, cut: int, p: nat)
    requires p < |ends|
    ensures Under(SortEnds(ends)[p], cut) <==> p < Count(ends, cut)
  {
    hide SortEnds, Count;
    SortAscends(ends);
    SortedCount(SortEnds(ends), cut, p);
    CountRearranged(SortEnds(ends), ends, cut);
  }

  lemma {:induction false} CountRises(s: seq<End>, cut: int, cut': int)
    requires cut <= cut'
    ensures Count(s, cut) <= Count(s, cut')
  {
    if s != [] { CountRises(s[..|s| - 1], cut, cut'); }
  }

  /** Between two cuts lies nothing exactly when they count the same. */
  lemma {:induction false} CountBetween(s: seq<End>, v: int)
    ensures WithOpen(s, v) == Below(s, v) <==> At(v, false) !in s
  {
    if s != [] {
      var n := |s| - 1;
      CountBetween(s[..n], v);
      CountRises(s[..n], 2 * v, 2 * v + 1);
      assert s == s[..n] + [s[n]];
    }
  }

  /** If each end under one cut has its partner under the other, there are no more of them. */
  lemma {:induction false} CountPartners(a: seq<End>, cut: int, b: seq<End>, cut': int)
    requires |a| == |b| && forall i :: 0 <= i < |a| && Under(a[i], cut) ==> Under(b[i], cut')
    ensures Count(a, cut) <= Count(b, cut')
  {
    if a != [] {
      var n := |a| - 1;
      CountPartners(a[..n], cut, b[..n], cut');
    }
  }
}

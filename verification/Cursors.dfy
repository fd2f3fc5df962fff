/**
 Cursors (crates/nodus_executor/src/cursors.rs): where a `FETCH` or `MOVE` goes, and what a
 run of them delivers.
 */
module Cursors {
  import opened Wrappers

  datatype Direction = Forward(ahead: int) | Backward(back: int) | Absolute(place: int) | Relative(offset: int) {
    /** The cursor is to stay on its row. */
    predicate Again() {
      this == Forward(0) || this == Backward(0) || this == Relative(0)
    }
  }

  /** The positions passed, in the order fetched; where the cursor ends; whether it went back. */
  datatype Plan = Plan(passed: seq<nat>, end: nat, backward: bool)

  function Min(a: int, b: int): int { if a < b then a else b }

  function Max(a: int, b: int): int { if a > b then a else b }

  /** The positions a, a+1, …, b. */
  function Up(a: nat, b: int): (r: seq<nat>)
    ensures |r| == (if a <= b then b - a + 1 else 0)
    ensures forall i :: 0 <= i < |r| ==> r[i] == a + i
  {
    seq(if a <= b then b - a + 1 else 0, i requires i >= 0 => a + i)
  }

  /** The positions b-1, b-2, …, a. */
  function Down(a: nat, b: nat): (r: seq<nat>)
    ensures |r| == (if a < b then b - a else 0)
    ensures forall i :: 0 <= i < |r| ==> r[i] == b - 1 - i
  {
    seq(if a < b then b - a else 0, i requires 0 <= i < b - a => b - 1 - i)
  }

  /** `plan_move` for a cursor at `p` of `n` rows. */
  function PlanMove(n: nat, p: nat, d: Direction): Plan {
    if d.Again() then
      if 1 <= p <= n then Plan([p], p, true) else Plan([], p, false)
    else
      match d
      case Forward(k) =>
        var last := p + Max(k, 0);
        Plan(Up(p + 1, Min(n, last)), if last > n then n + 1 else last, false)
      case Backward(k) =>
        var first := Max(p - Max(k, 0), 0);
        Plan(Down(Max(first, 1), Min(p, n + 1)), if Max(k, 0) >= p then 0 else first, true)
      case Absolute(k) =>
        var target := if k >= 0 then k else Max(n + 1 + k, 0);
        var backward := k < 0 || (p > 0 && target <= p);
        if 1 <= target <= n then Plan([target], target, backward)
        else if k > 0 then Plan([], n + 1, backward)
        else Plan([], 0, backward || p > 0)
      case Relative(k) =>
        var target := p + k;
        if 1 <= target <= n then Plan([target], target, k < 0)
        else if target < 1 then Plan([], 0, k < 0)
        else Plan([], n + 1, k < 0)
  }

  /** A move stays within the rows and one past either end. */
  lemma PlanInRange(n: nat, p: nat, d: Direction)
    requires p <= n + 1
    ensures PlanMove(n, p, d).end <= n + 1
    ensures forall i :: 0 <= i < |PlanMove(n, p, d).passed| ==> 1 <= PlanMove(n, p, d).passed[i] <= n
  {
  }

  ghost predicate Rising(s: seq<nat>) {
    forall i, j :: 0 <= i < j < |s| ==> s[i] < s[j]
  }

  /** A move that is not backward only passes rows beyond where it started, in order. */
  lemma ForwardAdvances(n: nat, p: nat, d: Direction)
    requires p <= n + 1 && !PlanMove(n, p, d).backward
    ensures var m := PlanMove(n, p, d);
            p <= m.end && Rising(m.passed) && forall i :: 0 <= i < |m.passed| ==> p < m.passed[i] <= m.end
  {
  }

  // ------------------------------------------------------------------ moves compose

  /** Two moves, one after the other. */
  function Then(n: nat, p: nat, d: Direction, e: Direction): Plan {
    var first := PlanMove(n, p, d);
    var second := PlanMove(n, first.end, e);
    Plan(first.passed + second.passed, second.end, first.backward || second.backward)
  }

  lemma UpSplits(a: nat, b: int, c: int)
    requires a <= b + 1 && b <= c
    ensures Up(a, b) + Up(b + 1, c) == Up(a, c)
  {
  }

  lemma DownSplits(a: nat, b: nat, c: nat)
    requires a <= b <= c
    ensures Down(b, c) + Down(a, b) == Down(a, c)
  {
  }

  /** `FORWARD a` then `FORWARD b` is `FORWARD a + b`, in rows and position. */
  lemma ForwardAdds(n: nat, p: nat, a: int, b: int)
    requires p <= n + 1 && a > 0 && b > 0
    ensures Then(n, p, Forward(a), Forward(b)) == PlanMove(n, p, Forward(a + b))
  {
    if p + a <= n {
      UpSplits(p + 1, p + a, Min(n, p + a + b));
    } else {
      assert Up(n + 2, Min(n, n + 1 + b)) == [];
      assert Min(n, p + a) == Min(n, p + a + b);
    }
  }

  /** `BACKWARD a` then `BACKWARD b` is `BACKWARD a + b`. */
  lemma BackwardAdds(n: nat, p: nat, a: int, b: int)
    requires p <= n + 1 && a > 0 && b > 0
    ensures Then(n, p, Backward(a), Backward(b)) == PlanMove(n, p, Backward(a + b))
  {
    if a < p {
      DownSplits(Max(p - a - b, 1), p - a, p);
    } else {
      assert Down(1, 0) == [];
    }
  }

  /** `RELATIVE k` goes where `ABSOLUTE p + k` goes. */
  lemma RelativeIsAbsolute(n: nat, p: nat, k: int)
    requires p <= n + 1 && k != 0 && p + k >= 0
    ensures PlanMove(n, p, Relative(k)).passed == PlanMove(n, p, Absolute(p + k)).passed
    ensures PlanMove(n, p, Relative(k)).end == PlanMove(n, p, Absolute(p + k)).end
  {
  }

  // ----------------------------------------------------------------------- the cursor

  datatype Output<T> = Moved(count: nat) | Fetched(rows: seq<T>)

  datatype Error = ForwardOnly

  class Cursor<T> {
    const rows: seq<T>
    const scroll: bool

    /** The row the cursor is on, counted from 1; 0 and |rows| + 1 lie outside. */
    var position: nat

    /** The positions of the rows fetched so far. */
    ghost var delivered: seq<nat>

    ghost predicate Valid()
      reads this
    {
      && position <= |rows| + 1
      && (forall i :: 0 <= i < |delivered| ==> 1 <= delivered[i] <= |rows|)
      && (!scroll ==> Rising(delivered) && forall i :: 0 <= i < |delivered| ==> delivered[i] <= position)
    }

    constructor (rows: seq<T>, scroll: bool)
      ensures Valid() && position == 0 && delivered == [] && this.rows == rows && this.scroll == scroll
    {
      this.rows, this.scroll := rows, scroll;
      position, delivered := 0, [];
    }

    /** `FETCH` and `MOVE`. */
    method Fetch(d: Direction, moveOnly: bool) returns (r: Result<Output<T>, Error>)
      requires Valid()
      modifies this
      ensures Valid()
      ensures var plan := PlanMove(|rows|, old(position), d);
              if moveOnly && d.Again() then
                r == Ok(Moved(|plan.passed|)) && position == old(position) && delivered == old(delivered)
              else if plan.backward && !scroll then
                r == Err(ForwardOnly) && position == old(position) && delivered == old(delivered)
              else
                && position == plan.end
                && delivered == old(delivered) + (if moveOnly then [] else plan.passed)
                && r.Ok?
                && (if moveOnly then r.value == Moved(|plan.passed|)
                    else r.value.Fetched? && IsRows(rows, plan.passed, r.value.rows))
    {
      hide PlanMove;
      var plan := PlanMove(|rows|, position, d);
      PlanInRange(|rows|, position, d);
      if moveOnly && d.Again() { return Ok(Moved(|plan.passed|)); }
      if plan.backward && !scroll { return Err(ForwardOnly); }
      if !plan.backward { ForwardAdvances(|rows|, position, d); }
      position := plan.end;
      if moveOnly {
        assert delivered + [] == delivered;
        return Ok(Moved(|plan.passed|));
      }
      delivered := delivered + plan.passed;
      r := Ok(Fetched(seq(|plan.passed|, i requires 0 <= i < |plan.passed| => rows[plan.passed[i] - 1])));
    }
  }

  /** The rows at these positions. */
  ghost predicate IsRows<T>(rows: seq<T>, positions: seq<nat>, r: seq<T>) {
    && |r| == |positions|
    && forall i :: 0 <= i < |r| ==> 1 <= positions[i] <= |rows| && r[i] == rows[positions[i] - 1]
  }

  // ----------------------------------------------------------------------------- runs

  datatype Request = Request(direction: Direction, moveOnly: bool)

  predicate Refused(n: nat, p: nat, scroll: bool, q: Request) {
    PlanMove(n, p, q.direction).backward && !scroll && !(q.moveOnly && q.direction.Again())
  }

  /** Where a run of requests leaves the cursor. */
  function PositionAfter(n: nat, scroll: bool, requests: seq<Request>): nat {
    if requests == [] then 0
    else
      var k := |requests| - 1;
      var p := PositionAfter(n, scroll, requests[..k]);
      if Refused(n, p, scroll, requests[k]) then p else PlanMove(n, p, requests[k].direction).end
  }

  /** The planned positions of the accepted fetches, one after the other. */
  function Deliveries(n: nat, scroll: bool, requests: seq<Request>): seq<nat> {
    if requests == [] then []
    else
      var k := |requests| - 1;
      var p := PositionAfter(n, scroll, requests[..k]);
      var passed := if requests[k].moveOnly || Refused(n, p, scroll, requests[k]) then [] else PlanMove(n, p, requests[k].direction).passed;
      Deliveries(n, scroll, requests[..k]) + passed
  }

  /** All the rows fetched. */
  function RowsOf<T>(outputs: seq<Result<Output<T>, Error>>): seq<T> {
    if outputs == [] then []
    else
      var k := |outputs| - 1;
      RowsOf(outputs[..k]) + if outputs[k].Ok? && outputs[k].value.Fetched? then outputs[k].value.rows else []
  }

  /** The answer to one request at `p`. */
  ghost predicate Answers<T(!new)>(rows: seq<T>, p: nat, scroll: bool, q: Request, r: Result<Output<T>, Error>) {
    var plan := PlanMove(|rows|, p, q.direction);
    if Refused(|rows|, p, scroll, q) then r == Err(ForwardOnly)
    else if q.moveOnly then r == Ok(Moved(|plan.passed|))
    else r.Ok? && r.value.Fetched? && IsRows(rows, plan.passed, r.value.rows)
  }

  lemma RequestSnoc(n: nat, scroll: bool, requests: seq<Request>, i: nat)
    requires i < |requests|
    ensures var p, q := PositionAfter(n, scroll, requests[..i]), requests[i];
            var passed := PlanMove(n, p, q.direction).passed;
            && PositionAfter(n, scroll, requests[..i + 1]) == (if Refused(n, p, scroll, q) then p else PlanMove(n, p, q.direction).end)
            && Deliveries(n, scroll, requests[..i + 1]) ==
                 Deliveries(n, scroll, requests[..i]) + if q.moveOnly || Refused(n, p, scroll, q) then [] else passed
  {
    hide PlanMove;
    assert requests[..i + 1][..i] == requests[..i];
  }

  lemma OutputSnoc<T>(outputs: seq<Result<Output<T>, Error>>, r: Result<Output<T>, Error>)
    ensures RowsOf(outputs + [r]) == RowsOf(outputs) + if r.Ok? && r.value.Fetched? then r.value.rows else []
  {
    assert (outputs + [r])[..|outputs|] == outputs;
  }

  lemma RowsJoin<T>(rows: seq<T>, a: seq<nat>, r: seq<T>, b: seq<nat>, s: seq<T>)
    requires IsRows(rows, a, r) && IsRows(rows, b, s)
    ensures IsRows(rows, a + b, r + s)
  {
  }

  /**
   Any run of moves and fetches answers each request at the position the earlier ones left, and
   delivers the rows at the planned positions of the accepted fetches; without `SCROLL` that is each
   row at most once, in order.
   */
  method Run<T(!new)>(rows: seq<T>, scroll: bool, requests: seq<Request>) returns (outputs: seq<Result<Output<T>, Error>>, position: nat)
    ensures position == PositionAfter(|rows|, scroll, requests) <= |rows| + 1 && |outputs| == |requests|
    ensures forall i :: 0 <= i < |requests| ==> Answers(rows, PositionAfter(|rows|, scroll, requests[..i]), scroll, requests[i], outputs[i])
    ensures IsRows(rows, Deliveries(|rows|, scroll, requests), RowsOf(outputs))
    ensures !scroll ==> Rising(Deliveries(|rows|, scroll, requests))
  {
    hide PlanMove, Rising, IsRows, PositionAfter, Deliveries, RowsOf;
    outputs := [];
    var c := new Cursor(rows, scroll);
    NothingYet(rows, scroll);
    assert requests[..0] == [];
    for i := 0 to |requests|
      invariant fresh(c) && c.Valid() && c.rows == rows && c.scroll == scroll && |outputs| == i
      invariant c.position == PositionAfter(|rows|, scroll, requests[..i])
      invariant c.delivered == Deliveries(|rows|, scroll, requests[..i])
      invariant forall j :: 0 <= j < i ==> Answers(rows, PositionAfter(|rows|, scroll, requests[..j]), scroll, requests[j], outputs[j])
      invariant IsRows(rows, c.delivered, RowsOf(outputs))
    {
      ghost var p, before := c.position, c.delivered;
      RequestSnoc(|rows|, scroll, requests, i);
      AgainStays(|rows|, p, requests[i].direction);
      var r := c.Fetch(requests[i].direction, requests[i].moveOnly);
      assert Answers(rows, p, scroll, requests[i], r);
      if r.Ok? && r.value.Fetched? {
        RowsJoin(rows, before, RowsOf(outputs), PlanMove(|rows|, p, requests[i].direction).passed, r.value.rows);
      }
      OutputSnoc(outputs, r);
      assert before + [] == before && RowsOf(outputs) + [] == RowsOf(outputs);
      outputs := outputs + [r];
    }
    assert requests[..|requests|] == requests;
    position := c.position;
  }

  lemma NothingYet<T>(rows: seq<T>, scroll: bool)
    ensures PositionAfter(|rows|, scroll, []) == 0 && Deliveries(|rows|, scroll, []) == []
    ensures RowsOf<T>([]) == [] && IsRows(rows, [], [])
  {
  }

  lemma AgainStays(n: nat, p: nat, d: Direction)
    ensures d.Again() ==> PlanMove(n, p, d).end == p
  {
  }
}

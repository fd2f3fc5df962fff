/**
 The end-to-end guarantee of a point-in-time restore. Over an archive whose
 segments name their true predecessors, planning always succeeds and selects a
 window that holds every transaction the target needs; loading the base and
 replaying that window rebuilds the source's history up to the target
 (crates/nodus_backup/src/lib.rs, `plan_pitr_restore` to
 `replay_pitr_wal_segments`, as crates/nodus_server/src/admin.rs applies them).
 */
module PointInTime {
  import opened Wrappers
  import opened BackupKeys
  import opened Mvcc
  import opened Wal
  import opened WalPlan
  import opened BaseRestore
  import Pitr

  datatype Segment = Segment(id: nat, size: nat, records: seq<WalRecord>)

  /** The operations of the whole log. */
  function Log(segs: seq<Segment>): seq<Op> {
    if segs == [] then [] else Log(segs[..|segs| - 1]) + Ops(segs[|segs| - 1].records)
  }

  lemma {:induction false} LogConcat(a: seq<Segment>, b: seq<Segment>)
    ensures Log(a + b) == Log(a) + Log(b)
  {
    hide Ops;
    if b == [] {
      assert a + b == a;
    } else {
      assert (a + b)[..|a + b| - 1] == a + b[..|b| - 1];
      LogConcat(a, b[..|b| - 1]);
    }
  }

  /** Where a segment starts in the log. */
  function Start(segs: seq<Segment>, i: nat): nat
    requires i <= |segs|
  {
    |Log(segs[..i])|
  }

  lemma Middle(p: seq<Op>, m: seq<Op>, q: seq<Op>)
    ensures (p + m + q)[|p|..|p + m|] == m
  {
  }

  lemma LogWindow(segs: seq<Segment>, a: nat, b: nat)
    requires a <= b <= |segs|
    ensures Start(segs, a) <= Start(segs, b) <= |Log(segs)|
    ensures Log(segs)[Start(segs, a)..Start(segs, b)] == Log(segs[a..b])
  {
    hide Ops, Log;
    LogSplit(segs, a, b);
    Middle(Log(segs[..a]), Log(segs[a..b]), Log(segs[b..]));
  }

  lemma LogSplit(segs: seq<Segment>, a: nat, b: nat)
    requires a <= b <= |segs|
    ensures Log(segs[..b]) == Log(segs[..a]) + Log(segs[a..b])
    ensures Log(segs) == Log(segs[..a]) + Log(segs[a..b]) + Log(segs[b..])
  {
    hide Log;
    Slices(segs, a, b);
    LogTwo(segs[..a], segs[a..b], segs[..b]);
    LogTwo(segs[..b], segs[b..], segs);
  }

  lemma Slices<T>(s: seq<T>, a: nat, b: nat)
    requires a <= b <= |s|
    ensures s[..b] == s[..a] + s[a..b] && s == s[..b] + s[b..]
  {
  }

  lemma LogTwo(x: seq<Segment>, y: seq<Segment>, z: seq<Segment>)
    requires z == x + y
    ensures Log(z) == Log(x) + Log(y)
  {
    hide Log;
    LogConcat(x, y);
  }

  lemma StartsAtZero(segs: seq<Segment>)
    ensures Start(segs, 0) == 0
  {
  }

  // An operation of the last of the first `n` segments.
  lemma InLast(segs: seq<Segment>, n: nat, i: nat)
    requires 0 < n <= |segs| && Start(segs, n - 1) <= i < Start(segs, n)
    ensures i < |Log(segs)| && Log(segs)[i] in Ops(segs[n - 1].records)
  {
    hide Ops, Log;
    LogWindow(segs, n - 1, n);
    assert segs[n - 1..n] == [segs[n - 1]];
    LogOfOne(segs[n - 1]);
    var k := i - Start(segs, n - 1);
    assert Log(segs)[i] == Log(segs)[Start(segs, n - 1)..Start(segs, n)][k];
  }

  lemma LogOfOne(seg: Segment)
    ensures Log([seg]) == Ops(seg.records)
  {
    hide Ops;
    assert [seg][..0] == [];
  }

  // The segment an operation of the log came from.
  lemma {:induction false} Locate(segs: seq<Segment>, n: nat, i: nat) returns (x: nat)
    requires n <= |segs| && i < Start(segs, n)
    ensures x < n && Start(segs, x) <= i < Start(segs, x + 1) <= |Log(segs)|
    ensures Log(segs)[i] in Ops(segs[x].records)
    decreases n
  {
    hide Ops, Log;
    assert n > 0 by { StartsAtZero(segs); }
    LogWindow(segs, n - 1, n);
    if i >= Start(segs, n - 1) {
      x := n - 1;
      InLast(segs, n, i);
    } else {
      x := Locate(segs, n - 1, i);
    }
  }

  // --------------------------------------------------------------- the archive

  /** Segment ids grow, sparsely, and each segment's header names the one before it. */
  ghost predicate HonestLineage(segs: seq<Segment>) {
    && (forall i, j :: 0 <= i < j < |segs| ==> segs[i].id < segs[j].id)
    && (forall i :: 0 < i < |segs| ==> PredecessorOf(segs[i].records) == Some(segs[i - 1].id))
  }

  // Ids order segments as their positions do.
  lemma IdsOrder(segs: seq<Segment>, i: nat, j: nat)
    requires HonestLineage(segs) && i < |segs| && j < |segs|
    ensures segs[i].id <= segs[j].id <==> i <= j
  {
  }

  function IndexOfSegment(seg: Segment, timeline: string): WalArchiveIndex {
    IndexOf(seg.id, WalObject(seg.size, seg.records), timeline)
  }

  /** `xs`, in any order, are the indexes of exactly these segments among the uploaded ones of the timeline. */
  ghost predicate Archived(segs: seq<Segment>, timeline: string, xs: seq<WalArchiveIndex>) {
    && DistinctIds(xs)
    && (forall i :: 0 <= i < |segs| ==> IndexOfSegment(segs[i], timeline) in xs)
    && (forall x :: x in xs && x.timeline == timeline && x.uploaded ==> exists i :: 0 <= i < |segs| && x == IndexOfSegment(segs[i], timeline))
  }

  /** A transaction the window commits has no write, and no commit, below the WAL floor. */
  ghost predicate NothingStraddlesFloor(segs: seq<Segment>, floor: nat, snapshot: Timestamp, target: Timestamp) {
    forall y, t, ts :: 0 <= y < |segs| && Commit(t, ts) in Ops(segs[y].records) && InWindow(ts, snapshot, target) ==>
      segs[y].id >= floor && WritesAbove(segs, t, floor)
  }

  ghost predicate WritesAbove(segs: seq<Segment>, t: TxnId, floor: nat) {
    forall x, op :: 0 <= x < |segs| && op in Ops(segs[x].records) && op.Write? && op.t == t ==> segs[x].id >= floor
  }

  ghost function IdSet(segs: seq<Segment>, a: nat, b: nat): set<nat>
    requires a <= b <= |segs|
  {
    set i | a <= i < b :: segs[i].id
  }

  lemma IdSetSnoc(segs: seq<Segment>, a: nat, b: nat)
    requires a <= b < |segs|
    ensures IdSet(segs, a, b + 1) == {segs[b].id} + IdSet(segs, a, b)
  {
  }

  /** On an honest lineage the walk succeeds however sparse the ids, and visits the whole stretch. */
  lemma {:induction false} HonestWalkSucceeds(m: map<nat, WalArchiveIndex>, segs: seq<Segment>, timeline: string, a: nat, b: nat)
    requires HonestLineage(segs) && a <= b < |segs|
    requires forall i :: a <= i <= b ==> segs[i].id in m && m[segs[i].id] == IndexOfSegment(segs[i], timeline)
    ensures Walk(m, segs[b].id, segs[a].id) == Ok(IdSet(segs, a, b + 1))
    decreases b
  {
    hide PredecessorOf, IndexOfSegment;
    if a == b {
      assert IdSet(segs, a, b + 1) == {segs[b].id};
    } else {
      IndexCarriesId(segs[b], timeline);
      IdsOrder(segs, b, a);
      IdsOrder(segs, a, b - 1);
      var m' := m - {segs[b].id};
      forall i | a <= i <= b - 1 ensures segs[i].id in m' && m'[segs[i].id] == IndexOfSegment(segs[i], timeline) {
        IdsOrder(segs, b, i);
      }
      HonestWalkSucceeds(m', segs, timeline, a, b - 1);
      IdSetSnoc(segs, a, b);
    }
  }

  // Two ascending sequences with the same elements are the same sequence.
  lemma {:induction false} AscendingUnique(a: seq<nat>, b: seq<nat>)
    requires forall i, j :: 0 <= i < j < |a| ==> a[i] < a[j]
    requires forall i, j :: 0 <= i < j < |b| ==> b[i] < b[j]
    requires forall x :: x in a <==> x in b
    ensures a == b
    decreases |a|
  {
    if a == [] {
      HeadIsMember(b);
    } else {
      assert a[0] in b && b != [];
      var i :| 0 <= i < |b| && b[i] == a[0];
      assert b[0] in a;
      var j :| 0 <= j < |a| && a[j] == b[0];
      assert a[0] == b[0];
      var a', b' := a[1..], b[1..];
      forall x ensures x in a' <==> x in b' {
        assert x in a' <==> x in a && x != a[0] by { TailMember(a, x); }
        assert x in b' <==> x in b && x != b[0] by { TailMember(b, x); }
      }
      AscendingUnique(a', b');
      assert a == [a[0]] + a' && b == [b[0]] + b';
    }
  }

  lemma HeadIsMember(b: seq<nat>)
    ensures b != [] ==> b[0] in b
  {
  }

  lemma TailMember(a: seq<nat>, x: nat)
    requires a != [] && forall i, j :: 0 <= i < j < |a| ==> a[i] < a[j]
    ensures x in a[1..] <==> x in a && x != a[0]
  {
    if x in a && x != a[0] {
      var i :| 0 <= i < |a| && a[i] == x;
      assert a[1..][i - 1] == x;
    }
  }

  // ------------------------------------------------------------- the planned window

  ghost predicate PlansWindow(segs: seq<Segment>, timeline: string, a: nat, b: nat, out: seq<WalArchiveIndex>) {
    && a <= b <= |segs|
    && |out| == b - a
    && forall i :: 0 <= i < |out| ==> out[i] == IndexOfSegment(segs[a + i], timeline)
  }

  // The position of a considered index in the archive.
  lemma PositionOf(segs: seq<Segment>, timeline: string, xs: seq<WalArchiveIndex>, floor: nat, id: nat, snapshot: Timestamp, target: Timestamp)
    returns (i: nat)
    requires Archived(segs, timeline, xs)
    requires id in NeededIds(Live(xs, timeline, floor), snapshot, target)
    ensures i < |segs| && segs[i].id == id
    ensures IndexOfSegment(segs[i], timeline) in Live(xs, timeline, floor)
    ensures Needed(Live(xs, timeline, floor), IndexOfSegment(segs[i], timeline), snapshot, target)
  {
    hide Needed, IndexOf, Live;
    LiveMeaning(xs, timeline, floor);
    var x := NeededIdFrom(Live(xs, timeline, floor), id, snapshot, target);
    i :| 0 <= i < |segs| && x == IndexOfSegment(segs[i], timeline);
    IndexCarriesId(segs[i], timeline);
  }

  lemma IndexCarriesId(seg: Segment, timeline: string)
    ensures IndexOfSegment(seg, timeline).id == seg.id
    ensures IndexOfSegment(seg, timeline).timeline == timeline && IndexOfSegment(seg, timeline).uploaded
    ensures IndexOfSegment(seg, timeline).size == seg.size
    ensures IndexOfSegment(seg, timeline).checksum == WalObject(seg.size, seg.records)
    ensures IndexOfSegment(seg, timeline).predecessor == PredecessorOf(seg.records)
  {
  }

  lemma LiveDistinct(xs: seq<WalArchiveIndex>, timeline: string, floor: nat)
    requires DistinctIds(xs)
    ensures DistinctIds(Live(xs, timeline, floor))
    decreases |xs|
  {
    if xs != [] {
      var init, x := xs[..|xs| - 1], xs[|xs| - 1];
      LiveDistinct(init, timeline, floor);
      var rest := Live(init, timeline, floor);
      LiveMeaning(init, timeline, floor);
      forall i | 0 <= i < |rest| ensures rest[i].id != x.id {
        assert rest[i] in rest;
        var j :| 0 <= j < |init| && init[j] == rest[i];
        assert xs[j] == init[j];
      }
    }
  }

  /**
   Planning over an honest, complete archive always succeeds, and what it selects is
   an unbroken stretch of the log.
   */
  lemma PlanSucceeds(segs: seq<Segment>, timeline: string, xs: seq<WalArchiveIndex>, floor: nat,
                     snapshot: Timestamp, target: Timestamp, r: Result<seq<WalArchiveIndex>, PlanError>)
    returns (a: nat, b: nat)
    requires HonestLineage(segs) && Archived(segs, timeline, xs)
    requires Selects(Live(xs, timeline, floor), snapshot, target, r)
    ensures r.Ok? && PlansWindow(segs, timeline, a, b, r.value)
  {
    hide Needed, NeededIds, IndexOfSegment, HonestLineage, Walk, ById, Ascending;
    var live := Live(xs, timeline, floor);
    LiveDistinct(xs, timeline, floor);
    var needed := NeededIds(live, snapshot, target);
    if needed == {} { return 0, 0; }
    a := PositionOf(segs, timeline, xs, floor, MinOf(needed), snapshot, target);
    var last := PositionOf(segs, timeline, xs, floor, MaxOf(needed), snapshot, target);
    b := last + 1;
    IdsOrder(segs, a, last);
    StretchIsLive(segs, timeline, xs, floor, a, last);
    HonestWalkSucceeds(ById(live), segs, timeline, a, last);
    NeededInStretch(segs, timeline, xs, floor, a, b, snapshot, target);
    StretchListed(segs, timeline, a, b, ById(live), r.value);
  }

  // Every segment between two considered ones is considered.
  lemma StretchIsLive(segs: seq<Segment>, timeline: string, xs: seq<WalArchiveIndex>, floor: nat, a: nat, last: nat)
    requires HonestLineage(segs) && Archived(segs, timeline, xs) && a <= last < |segs|
    requires IndexOfSegment(segs[a], timeline) in Live(xs, timeline, floor)
    ensures forall i :: a <= i <= last ==>
              segs[i].id in ById(Live(xs, timeline, floor)) &&
              ById(Live(xs, timeline, floor))[segs[i].id] == IndexOfSegment(segs[i], timeline)
  {
    hide IndexOf, ById, PredecessorOf, Live;
    var live := Live(xs, timeline, floor);
    LiveMeaning(xs, timeline, floor);
    LiveDistinct(xs, timeline, floor);
    IndexCarriesId(segs[a], timeline);
    forall i | a <= i <= last
      ensures segs[i].id in ById(live) && ById(live)[segs[i].id] == IndexOfSegment(segs[i], timeline)
    {
      IndexCarriesId(segs[i], timeline);
      assert segs[a].id <= segs[i].id;
      ByIdFinds(live, IndexOfSegment(segs[i], timeline));
    }
  }

  lemma NeededInStretch(segs: seq<Segment>, timeline: string, xs: seq<WalArchiveIndex>, floor: nat, a: nat, b: nat,
                        snapshot: Timestamp, target: Timestamp)
    requires HonestLineage(segs) && Archived(segs, timeline, xs) && a < b <= |segs|
    requires var needed := NeededIds(Live(xs, timeline, floor), snapshot, target);
             needed != {} && segs[a].id == MinOf(needed) && segs[b - 1].id == MaxOf(needed)
    ensures NeededIds(Live(xs, timeline, floor), snapshot, target) <= IdSet(segs, a, b)
  {
    var needed := NeededIds(Live(xs, timeline, floor), snapshot, target);
    forall id | id in needed ensures id in IdSet(segs, a, b) {
      var i := PositionOf(segs, timeline, xs, floor, id, snapshot, target);
      IdsOrder(segs, a, i);
      IdsOrder(segs, i, b - 1);
    }
  }

  lemma StretchListed(segs: seq<Segment>, timeline: string, a: nat, b: nat, m: map<nat, WalArchiveIndex>, out: seq<WalArchiveIndex>)
    requires HonestLineage(segs) && a <= b <= |segs|
    requires forall i :: a <= i < b ==> segs[i].id in m && m[segs[i].id] == IndexOfSegment(segs[i], timeline)
    requires Listed(m, Ascending(IdSet(segs, a, b)), out)
    ensures PlansWindow(segs, timeline, a, b, out)
  {
    hide IndexOf, PredecessorOf, Ascending, IdSet;
    var ids := seq(b - a, i requires 0 <= i < b - a => segs[a + i].id);
    StretchIds(segs, a, b, ids);
    forall i | 0 <= i < |out| ensures out[i] == IndexOfSegment(segs[a + i], timeline) {
      assert ids[i] == segs[a + i].id;
    }
  }

  lemma StretchIds(segs: seq<Segment>, a: nat, b: nat, ids: seq<nat>)
    requires HonestLineage(segs) && a <= b <= |segs|
    requires |ids| == b - a && forall i :: 0 <= i < b - a ==> ids[i] == segs[a + i].id
    ensures ids == Ascending(IdSet(segs, a, b))
  {
    hide PredecessorOf, Ascending;
    AscendingMeaning(IdSet(segs, a, b));
    forall x ensures x in ids <==> x in IdSet(segs, a, b) {
      if x in IdSet(segs, a, b) {
        var i :| a <= i < b && segs[i].id == x;
        assert ids[i - a] == x;
      }
    }
    AscendingUnique(ids, Ascending(IdSet(segs, a, b)));
  }

  // ----------------------------------------------------------------- the theorem

  // A segment above the floor that holds a commit of the window is planned.
  lemma CommitPlanned(segs: seq<Segment>, timeline: string, xs: seq<WalArchiveIndex>, floor: nat,
                      snapshot: Timestamp, target: Timestamp, a: nat, b: nat, out: seq<WalArchiveIndex>,
                      y: nat, t: TxnId, ts: Timestamp)
    requires HonestLineage(segs) && Archived(segs, timeline, xs)
    requires Covers(Live(xs, timeline, floor), snapshot, target, out) && PlansWindow(segs, timeline, a, b, out)
    requires y < |segs| && segs[y].id >= floor
    requires Commit(t, ts) in Ops(segs[y].records) && InWindow(ts, snapshot, target)
    ensures a <= y < b
    ensures NeededTxn(Live(xs, timeline, floor), t, snapshot, target)
  {
    hide Ops, PredecessorOf, HonestLineage, Live, Commits;
    var live := Live(xs, timeline, floor);
    IndexSeesCommits(segs[y].records, t, ts);
    var iy := IndexOfSegment(segs[y], timeline);
    assert CommitsInWindow(iy, t, snapshot, target);
    assert iy in live by {
      LiveMeaning(xs, timeline, floor);
      IndexCarriesId(segs[y], timeline);
    }
    assert Needed(live, iy, snapshot, target);
    InWindowPosition(segs, timeline, a, b, out, y);
  }

  // And so is one that holds a write of a transaction the window commits.
  lemma WritePlanned(segs: seq<Segment>, timeline: string, xs: seq<WalArchiveIndex>, floor: nat,
                     snapshot: Timestamp, target: Timestamp, a: nat, b: nat, out: seq<WalArchiveIndex>,
                     x: nat, t: TxnId, k: Key, v: Stored)
    requires HonestLineage(segs) && Archived(segs, timeline, xs)
    requires Covers(Live(xs, timeline, floor), snapshot, target, out) && PlansWindow(segs, timeline, a, b, out)
    requires x < |segs| && segs[x].id >= floor
    requires Write(t, k, v) in Ops(segs[x].records) && NeededTxn(Live(xs, timeline, floor), t, snapshot, target)
    ensures a <= x < b
  {
    hide Ops, PredecessorOf, HonestLineage, NeededTxn, Live, Commits;
    var live := Live(xs, timeline, floor);
    IndexSeesWrites(segs[x].records, t, k, v);
    var ix := IndexOfSegment(segs[x], timeline);
    assert ix in live by {
      LiveMeaning(xs, timeline, floor);
      IndexCarriesId(segs[x], timeline);
    }
    assert Needed(live, ix, snapshot, target);
    InWindowPosition(segs, timeline, a, b, out, x);
  }

  // The window holds every write of a transaction it must commit, and its commit.
  lemma WindowHoldsTxn(segs: seq<Segment>, timeline: string, xs: seq<WalArchiveIndex>, floor: nat,
                       snapshot: Timestamp, target: Timestamp, a: nat, b: nat, out: seq<WalArchiveIndex>,
                       y: nat, t: TxnId, ts: Timestamp)
    requires HonestLineage(segs) && Archived(segs, timeline, xs)
    requires NothingStraddlesFloor(segs, floor, snapshot, target)
    requires Covers(Live(xs, timeline, floor), snapshot, target, out) && PlansWindow(segs, timeline, a, b, out)
    requires y < |segs| && Commit(t, ts) in Ops(segs[y].records) && InWindow(ts, snapshot, target)
    ensures a <= y < b
    ensures forall x, op :: 0 <= x < |segs| && op in Ops(segs[x].records) && op.Write? && op.t == t ==> a <= x < b
  {
    hide Ops, HonestLineage, Archived, Covers, PlansWindow, NeededTxn;
    assert segs[y].id >= floor && WritesAbove(segs, t, floor);
    CommitPlanned(segs, timeline, xs, floor, snapshot, target, a, b, out, y, t, ts);
    forall x, op | 0 <= x < |segs| && op in Ops(segs[x].records) && op.Write? && op.t == t ensures a <= x < b {
      WritePlanned(segs, timeline, xs, floor, snapshot, target, a, b, out, x, t, op.k, op.v);
    }
  }

  lemma InWindowPosition(segs: seq<Segment>, timeline: string, a: nat, b: nat, out: seq<WalArchiveIndex>, x: nat)
    requires HonestLineage(segs) && PlansWindow(segs, timeline, a, b, out)
    requires x < |segs| && IndexOfSegment(segs[x], timeline) in out
    ensures a <= x < b
  {
    hide PredecessorOf;
    var i :| 0 <= i < |out| && out[i] == IndexOfSegment(segs[x], timeline);
    IndexCarriesId(segs[x], timeline);
    IndexCarriesId(segs[a + i], timeline);
    assert segs[a + i].id == segs[x].id;
  }

  /**
   The planned window commits every version of the replay interval that the whole log
   commits, and never a version the log does not; and if the log has no conflicting
   writes neither has the window.
   */
  lemma PlannedWindowIsEnough(segs: seq<Segment>, timeline: string, xs: seq<WalArchiveIndex>, floor: nat,
                              snapshot: Timestamp, target: Timestamp, a: nat, b: nat, out: seq<WalArchiveIndex>)
    requires HonestLineage(segs) && Archived(segs, timeline, xs)
    requires NothingStraddlesFloor(segs, floor, snapshot, target)
    requires Covers(Live(xs, timeline, floor), snapshot, target, out) && PlansWindow(segs, timeline, a, b, out)
    ensures ConflictFree(Log(segs)) ==> ConflictFree(Log(segs[a..b]))
    ensures forall k: Key, ts: Timestamp, v: Stored :: Committed(Log(segs[a..b]), k, ts, v) ==> Committed(Log(segs), k, ts, v)
    ensures forall k: Key, ts: Timestamp, v: Stored :: InWindow(ts, snapshot, target) && Committed(Log(segs), k, ts, v) ==> Committed(Log(segs[a..b]), k, ts, v)
  {
    hide Ops, ConflictFree, Log, HonestLineage;
    var log, lo, hi := Log(segs), Start(segs, a), Start(segs, b);
    LogWindow(segs, a, b);
    if ConflictFree(log) { WindowConflictFree(log, lo, hi); }
    forall k: Key, ts: Timestamp, v: Stored | Committed(log[lo..hi], k, ts, v) ensures Committed(log, k, ts, v) {
      WindowCommitsOnlyTruth(log, lo, hi, k, ts, v);
    }
    forall k: Key, ts: Timestamp, v: Stored | InWindow(ts, snapshot, target) && Committed(log, k, ts, v) ensures Committed(log[lo..hi], k, ts, v) {
      var j, t :| CommitsAt(log, j, t, k, ts, v);
      CommitInWindow(segs, timeline, xs, floor, snapshot, target, a, b, out, j, t, k, ts, v);
    }
  }

  lemma CommitInWindow(segs: seq<Segment>, timeline: string, xs: seq<WalArchiveIndex>, floor: nat,
                       snapshot: Timestamp, target: Timestamp, a: nat, b: nat, out: seq<WalArchiveIndex>,
                       j: nat, t: TxnId, k: Key, ts: Timestamp, v: Stored)
    requires HonestLineage(segs) && Archived(segs, timeline, xs)
    requires NothingStraddlesFloor(segs, floor, snapshot, target)
    requires Covers(Live(xs, timeline, floor), snapshot, target, out) && PlansWindow(segs, timeline, a, b, out)
    requires CommitsAt(Log(segs), j, t, k, ts, v) && InWindow(ts, snapshot, target)
    ensures Start(segs, a) <= Start(segs, b) <= |Log(segs)|
    ensures Committed(Log(segs)[Start(segs, a)..Start(segs, b)], k, ts, v)
  {
    hide Ops, Log, HonestLineage, Archived, NothingStraddlesFloor, Covers, Pending;
    var log, lo, hi := Log(segs), Start(segs, a), Start(segs, b);
    assert segs[..|segs|] == segs;
    LogWindow(segs, a, b);
    var y := Locate(segs, |segs|, j);
    WindowHoldsTxn(segs, timeline, xs, floor, snapshot, target, a, b, out, y, t, ts);
    LogWindow(segs, a, y);
    LogWindow(segs, y + 1, b);
    forall i | 0 <= i < lo ensures !(log[i].Write? && log[i].t == t) {
      var x := Locate(segs, a, i);
    }
    WindowCommitsWholeTxns(log, lo, hi, j, t, k, ts, v);
  }

  // ------------------------------------------------------------------ the restore

  /** Versions committed before the log begins. */
  type History = iset<(Key, Timestamp, Stored)>

  /** A committed version of the source: it held it before the log began, or the log commits it. */
  ghost predicate TrueVersion(initial: History, segs: seq<Segment>, k: Key, ts: Timestamp, v: Stored) {
    (k, ts, v) in initial || Committed(Log(segs), k, ts, v)
  }

  /** The base holds every restorable version at or before its snapshot, and no other. */
  ghost predicate HoldsHistory(objects: seq<BackupObject>, initial: History, segs: seq<Segment>, snapshot: Timestamp) {
    forall k: Key, ts: Timestamp, v: Stored :: !IsExcluded(k) ==> (BaseVersion(objects, k, ts, v) <==> TrueVersion(initial, segs, k, ts, v) && ts <= snapshot)
  }

  /** Version `v` at `ts` is what a read of `k` at `at` sees in the source. */
  ghost predicate NewestAt(initial: History, segs: seq<Segment>, k: Key, at: Timestamp, ts: Timestamp, v: Stored) {
    && TrueVersion(initial, segs, k, ts, v) && ts <= at
    && forall ts': Timestamp, v': Stored :: TrueVersion(initial, segs, k, ts', v') && ts' <= at ==> ts' <= ts
  }

  /** The base holds, per key, at least the version visible at its snapshot, and nothing untrue. */
  ghost predicate HoldsSnapshot(objects: seq<BackupObject>, initial: History, segs: seq<Segment>, snapshot: Timestamp) {
    && (forall k: Key, ts: Timestamp, v: Stored :: BaseVersion(objects, k, ts, v) ==> TrueVersion(initial, segs, k, ts, v) && ts <= snapshot)
    && (forall k: Key, ts: Timestamp, v: Stored :: !IsExcluded(k) && NewestAt(initial, segs, k, snapshot, ts, v) ==> BaseVersion(objects, k, ts, v))
  }

  /** No key has two values at one timestamp. */
  ghost predicate OneValuePerVersion(initial: History, segs: seq<Segment>) {
    forall k: Key, ts: Timestamp, v: Stored, v': Stored :: TrueVersion(initial, segs, k, ts, v) && TrueVersion(initial, segs, k, ts, v') ==> v == v'
  }

  /** Reading `k` in the source as of `at` gives `r`. */
  ghost predicate ReadsAs(initial: History, segs: seq<Segment>, k: Key, at: Timestamp, r: Option<Bytes>) {
    || (exists ts: Timestamp, v: Stored :: NewestAt(initial, segs, k, at, ts, v) && r == v)
    || ((forall ts: Timestamp, v: Stored :: TrueVersion(initial, segs, k, ts, v) ==> ts > at) && r == None)
  }

  lemma {:induction false} NewestExists(initial: History, segs: seq<Segment>, k: Key, at: Timestamp, ts: Timestamp, v: Stored)
    returns (ts0: Timestamp, v0: Stored)
    requires TrueVersion(initial, segs, k, ts, v) && ts <= at
    ensures NewestAt(initial, segs, k, at, ts0, v0) && ts <= ts0
    decreases at - ts
  {
    hide TrueVersion;
    if ts': Timestamp, v': Stored :| TrueVersion(initial, segs, k, ts', v') && ts < ts' <= at {
      ts0, v0 := NewestExists(initial, segs, k, at, ts', v');
    } else {
      ts0, v0 := ts, v;
    }
  }

  /** The store holds of `k` what the base and the window give. */
  ghost predicate KeyRestored(s: Store, objects: seq<BackupObject>, window: seq<Op>, target: Timestamp, k: Key) {
    forall ts: Timestamp, v: Stored :: Version(s, k, ts, v) <==> BaseVersion(objects, k, ts, v) || (ts <= target && Committed(window, k, ts, v))
  }

  ghost predicate WindowEnough(segs: seq<Segment>, window: seq<Op>, snapshot: Timestamp, target: Timestamp) {
    && (forall k: Key, ts: Timestamp, v: Stored :: Committed(window, k, ts, v) ==> Committed(Log(segs), k, ts, v))
    && (forall k: Key, ts: Timestamp, v: Stored :: InWindow(ts, snapshot, target) && Committed(Log(segs), k, ts, v) ==> Committed(window, k, ts, v))
  }

  /** With the whole history in the base, the restored versions are exactly the history up to the target. */
  lemma RestoresHistory(s: Store, objects: seq<BackupObject>, initial: History, segs: seq<Segment>,
                        window: seq<Op>, snapshot: Timestamp, target: Timestamp, k: Key, ts: Timestamp, v: Stored)
    requires HoldsHistory(objects, initial, segs, snapshot) && WindowEnough(segs, window, snapshot, target)
    requires forall e :: e in initial ==> e.1 <= snapshot
    requires snapshot <= target && !IsExcluded(k) && KeyRestored(s, objects, window, target, k)
    ensures Version(s, k, ts, v) <==> TrueVersion(initial, segs, k, ts, v) && ts <= target
  {
    hide IsExcluded, BaseVersion, Committed, Log, Version;
    assert BaseVersion(objects, k, ts, v) <==> TrueVersion(initial, segs, k, ts, v) && ts <= snapshot;
    assert Version(s, k, ts, v) <==> BaseVersion(objects, k, ts, v) || (ts <= target && Committed(window, k, ts, v));
  }

  /**
   With only the visible version of each key in the base, as a full backup exports it,
   every read at or after the snapshot sees what the source would show as of the
   target, deletes included.
   */
  lemma RestoresReads(s: Store, objects: seq<BackupObject>, initial: History, segs: seq<Segment>,
                      window: seq<Op>, snapshot: Timestamp, target: Timestamp, k: Key, at: Timestamp)
    requires HoldsSnapshot(objects, initial, segs, snapshot) && WindowEnough(segs, window, snapshot, target)
    requires OneValuePerVersion(initial, segs)
    requires forall e :: e in initial ==> e.1 <= snapshot
    requires snapshot <= target && snapshot <= at && !IsExcluded(k) && KeyRestored(s, objects, window, target, k)
    ensures ReadsAs(initial, segs, k, if at <= target then at else target, Read(ChainOf(s, k), at))
  {
    hide IsExcluded, BaseVersion, Committed, Log, TrueVersion;
    var c, upTo := ChainOf(s, k), if at <= target then at else target;
    var i := NewestVisible(c, at);
    assert forall ts: Timestamp, v: Stored :: Version(s, k, ts, v) ==> TrueVersion(initial, segs, k, ts, v) && ts <= target by {
      StoredIsTrue(s, objects, initial, segs, window, snapshot, target, k);
    }
    if i >= 0 { assert Version(s, k, c[i].version, c[i].value); }
    forall ts: Timestamp, v: Stored | TrueVersion(initial, segs, k, ts, v) && ts <= upTo
      ensures i >= 0 && ts <= c[i].version
    {
      var ts0, v0 := AnswerStored(s, objects, initial, segs, window, snapshot, target, k, upTo, ts, v);
      var j :| 0 <= j < |c| && !c[j].isIntent && c[j].version == ts0 && c[j].value == v0;
    }
    if i >= 0 {
      assert NewestAt(initial, segs, k, upTo, c[i].version, c[i].value);
    }
  }

  lemma StoredIsTrue(s: Store, objects: seq<BackupObject>, initial: History, segs: seq<Segment>,
                     window: seq<Op>, snapshot: Timestamp, target: Timestamp, k: Key)
    requires HoldsSnapshot(objects, initial, segs, snapshot) && WindowEnough(segs, window, snapshot, target)
    requires snapshot <= target && KeyRestored(s, objects, window, target, k)
    ensures forall ts: Timestamp, v: Stored :: Version(s, k, ts, v) ==> TrueVersion(initial, segs, k, ts, v) && ts <= target
  {
    hide IsExcluded, BaseVersion, Committed, Log, Version;
  }

  // A true version within reach is answered by a stored version at least as new.
  lemma AnswerStored(s: Store, objects: seq<BackupObject>, initial: History, segs: seq<Segment>,
                     window: seq<Op>, snapshot: Timestamp, target: Timestamp, k: Key, upTo: Timestamp, ts: Timestamp, v: Stored)
    returns (ts0: Timestamp, v0: Stored)
    requires HoldsSnapshot(objects, initial, segs, snapshot) && WindowEnough(segs, window, snapshot, target)
    requires forall e :: e in initial ==> e.1 <= snapshot
    requires snapshot <= upTo <= target && !IsExcluded(k) && KeyRestored(s, objects, window, target, k)
    requires TrueVersion(initial, segs, k, ts, v) && ts <= upTo
    ensures Version(s, k, ts0, v0) && ts <= ts0 <= upTo
  {
    hide IsExcluded, BaseVersion, Committed, Log, Version;
    if ts > snapshot {
      assert Committed(Log(segs), k, ts, v);
      ts0, v0 := ts, v;
    } else {
      ts0, v0 := NewestExists(initial, segs, k, snapshot, ts, v);
      assert BaseVersion(objects, k, ts0, v0);
    }
  }

  datatype Failure =
    | PlanFailed(plan: PlanError)
    | LoadFailed(load: PlanError)
    | BaseFailed(base: RestoreError)
    | ReplayFailed(replay: Pitr.ReplayError)

  /** `load_pitr_wal_segments`: the planned objects in order; a missing or damaged one fails. */
  method LoadSegments(archive: map<nat, WalObject>, plan: seq<WalArchiveIndex>) returns (r: Result<seq<Loaded>, PlanError>)
    ensures r.Ok? <==> AllIntact(archive, plan)
    ensures r.Ok? ==> Pitr.MatchesPlan(plan, r.value)
    ensures r.Err? ==> Reports(archive, plan, r.error)
  {
    var segments: seq<Loaded> := [];
    for i := 0 to |plan|
      invariant |segments| == i
      invariant forall j :: 0 <= j < i ==> Intact(archive, plan[j]) && segments[j] == Loaded(plan[j].id, plan[j].checksum)
    {
      var fetched := Fetch(archive, plan[i]);
      if fetched.Err? { return Err(fetched.error); }
      segments := segments + [Loaded(plan[i].id, fetched.value)];
    }
    r := Ok(segments);
  }

  /** The archive keeps every segment's object under its id. */
  ghost predicate Holds(archive: map<nat, WalObject>, segs: seq<Segment>) {
    forall i :: 0 <= i < |segs| ==> segs[i].id in archive && archive[segs[i].id] == WalObject(segs[i].size, segs[i].records)
  }

  lemma HeldIsIntact(archive: map<nat, WalObject>, plan: seq<WalArchiveIndex>, segs: seq<Segment>, timeline: string, a: nat, b: nat)
    requires Holds(archive, segs) && PlansWindow(segs, timeline, a, b, plan)
    ensures AllIntact(archive, plan)
  {
    forall i | 0 <= i < |plan| ensures Intact(archive, plan[i]) { IndexCarriesId(segs[a + i], timeline); }
  }

  /** Whatever the archive holds, what passes the comparison with an honest plan is the log itself. */
  lemma {:induction false} LoadedOps(plan: seq<WalArchiveIndex>, segs: seq<Segment>, timeline: string, a: nat, b: nat, loaded: seq<Loaded>)
    requires PlansWindow(segs, timeline, a, b, plan) && Pitr.MatchesPlan(plan, loaded)
    ensures Pitr.SegmentOps(RecordsOf(loaded)) == Log(segs[a..b])
    decreases b
  {
    hide Ops, IndexOfSegment;
    if a < b {
      var n := b - a - 1;
      LoadedOps(plan[..n], segs, timeline, a, b - 1, loaded[..n]);
      assert Pitr.IsPlanned(plan[n], loaded[n]);
      IndexCarriesId(segs[b - 1], timeline);
      assert RecordsOf(loaded)[..n] == RecordsOf(loaded[..n]);
      assert segs[a..b][..n] == segs[a..b - 1];
    }
  }

  /** What a restore relies on: honest indexes of a conflict-free log, and a destination without restorable data. */
  ghost predicate Trusted(s: Store, objects: seq<BackupObject>, xs: seq<WalArchiveIndex>,
                          timeline: string, floor: nat, snapshot: Timestamp, target: Timestamp, segs: seq<Segment>) {
    && (forall k: Key, ts: Timestamp, v: Stored :: !IsExcluded(k) ==> !Version(s, k, ts, v))
    && Supported(xs) && HonestLineage(segs) && Archived(segs, timeline, xs)
    && NothingStraddlesFloor(segs, floor, snapshot, target)
    && ConflictFree(Log(segs)) && WellFormed(objects)
  }

  /** What it then rebuilds: the history up to the target, and the reads at and after the snapshot. */
  ghost predicate Rebuilt(s: Store, objects: seq<BackupObject>, segs: seq<Segment>, snapshot: Timestamp, target: Timestamp,
                          initial: History) {
    && (HoldsHistory(objects, initial, segs, snapshot) ==>
          forall k: Key, ts: Timestamp, v: Stored :: !IsExcluded(k) ==> (Version(s, k, ts, v) <==> TrueVersion(initial, segs, k, ts, v) && ts <= target))
    && (HoldsSnapshot(objects, initial, segs, snapshot) && OneValuePerVersion(initial, segs) ==>
          forall k: Key, at: Timestamp :: !IsExcluded(k) && snapshot <= at ==>
            ReadsAs(initial, segs, k, if at <= target then at else target, Read(ChainOf(s, k), at)))
  }

  lemma RebuiltFromWindow(s: Store, objects: seq<BackupObject>, segs: seq<Segment>, window: seq<Op>,
                          snapshot: Timestamp, target: Timestamp, initial: History)
    requires WindowEnough(segs, window, snapshot, target) && snapshot <= target
    requires forall e :: e in initial ==> e.1 <= snapshot
    requires forall k :: !IsExcluded(k) ==> KeyRestored(s, objects, window, target, k)
    ensures Rebuilt(s, objects, segs, snapshot, target, initial)
  {
    hide IsExcluded, HoldsHistory, HoldsSnapshot, ReadsAs, Read, TrueVersion, Version, KeyRestored, OneValuePerVersion, WindowEnough;
    if HoldsHistory(objects, initial, segs, snapshot) {
      forall k: Key, ts: Timestamp, v: Stored | !IsExcluded(k)
        ensures Version(s, k, ts, v) <==> TrueVersion(initial, segs, k, ts, v) && ts <= target
      {
        RestoresHistory(s, objects, initial, segs, window, snapshot, target, k, ts, v);
      }
    }
    if HoldsSnapshot(objects, initial, segs, snapshot) && OneValuePerVersion(initial, segs) {
      forall k: Key, at: Timestamp | !IsExcluded(k) && snapshot <= at
        ensures ReadsAs(initial, segs, k, if at <= target then at else target, Read(ChainOf(s, k), at))
      {
        RestoresReads(s, objects, initial, segs, window, snapshot, target, k, at);
      }
    }
  }

  /**
   Plan, base restore and replay together, from honest indexes of a conflict-free log and into a
   destination that holds no restorable data. If the archive holds the segments, when planning
   (`archive`) and still when loading (`fetched`), the restore succeeds. Whatever it holds, a restore that succeeds leaves no intent, leaves the
   destination's excluded keys as they were, and rebuilds exactly the source's history up to the
   target, or, from a base that holds only what was visible at its snapshot, exactly the source's
   reads.
   */
  method RestoreToPoint(kv: MemKvEngine, objects: seq<BackupObject>, archive: map<nat, WalObject>, fetched: map<nat, WalObject>,
                        xs: seq<WalArchiveIndex>, timeline: string, floor: nat, snapshot: Timestamp, target: Timestamp,
                        ghost segs: seq<Segment>, ghost initial: History)
    returns (r: Result<Pitr.Report, Failure>)
    requires kv.Valid() && NoIntents(kv.store) && snapshot <= target
    modifies kv
    ensures kv.Valid()
    ensures (Trusted(old(kv.store), objects, xs, timeline, floor, snapshot, target, segs)
             && Holds(archive, segs) && Holds(fetched, segs)) ==> r.Ok?
    ensures r.Ok? ==> NoIntents(kv.store) && ExcludedKept(old(kv.store), kv.store)
    ensures Trusted(old(kv.store), objects, xs, timeline, floor, snapshot, target, segs) &&
            (forall e :: e in initial ==> e.1 <= snapshot) && r.Ok? ==>
              Rebuilt(kv.store, objects, segs, snapshot, target, initial)
  {
    hide IsExcluded, HonestLineage, Archived, NothingStraddlesFloor, ConflictFree, NoIntents, Log, Selects, Covers, Committed,
         BaseVersion, WellFormed, Version, KeyRestored, Rebuilt, WindowEnough, Holds, AllIntact, Pitr.MatchesPlan, Reports;
    ghost var good := Trusted(kv.store, objects, xs, timeline, floor, snapshot, target, segs);
    var plan: seq<WalArchiveIndex> := [];
    ghost var a, b := 0, 0;
    if target != snapshot {
      var p, selected := PlanWalSegments(xs, archive, timeline, floor, snapshot, target);
      if good {
        a, b := PlanSucceeds(segs, timeline, xs, floor, snapshot, target, selected);
        if Holds(archive, segs) { HeldIsIntact(archive, selected.value, segs, timeline, a, b); }
      }
      if p.Err? { return Err(PlanFailed(p.error)); }
      plan := p.value;
    } else {
      NothingPlanned(segs, timeline);
    }
    if good {
      EnoughWhenPlanned(segs, timeline, xs, floor, snapshot, target, a, b, plan);
      if Holds(fetched, segs) { HeldIsIntact(fetched, plan, segs, timeline, a, b); }
    }
    var loaded := LoadSegments(fetched, plan);
    if loaded.Err? { return Err(LoadFailed(loaded.error)); }
    if good { LoadedOps(plan, segs, timeline, a, b, loaded.value); }
    var base := RestoreBackupObjects(kv, objects);
    if base.Err? { return Err(BaseFailed(base.error)); }
    ghost var mid := kv.store;
    var replay := Pitr.ReplayPitrWalSegments(kv, plan, loaded.value, target);
    if replay.Err? { return Err(ReplayFailed(replay.error)); }
    if good && forall e :: e in initial ==> e.1 <= snapshot {
      forall k | !IsExcluded(k) ensures KeyRestored(kv.store, objects, Log(segs[a..b]), target, k) {
        RestoredKey(old(kv.store), mid, kv.store, objects, Log(segs[a..b]), target, k);
      }
      RebuiltFromWindow(kv.store, objects, segs, Log(segs[a..b]), snapshot, target, initial);
    }
    r := Ok(replay.value);
  }

  lemma NothingPlanned(segs: seq<Segment>, timeline: string)
    ensures PlansWindow(segs, timeline, 0, 0, [])
  {
  }

  lemma EnoughWhenPlanned(segs: seq<Segment>, timeline: string, xs: seq<WalArchiveIndex>, floor: nat,
                          snapshot: Timestamp, target: Timestamp, a: nat, b: nat, plan: seq<WalArchiveIndex>)
    requires HonestLineage(segs) && Archived(segs, timeline, xs)
    requires NothingStraddlesFloor(segs, floor, snapshot, target) && ConflictFree(Log(segs))
    requires PlansWindow(segs, timeline, a, b, plan)
    requires if target == snapshot then a == b else Covers(Live(xs, timeline, floor), snapshot, target, plan)
    ensures ConflictFree(Log(segs[a..b])) && WindowEnough(segs, Log(segs[a..b]), snapshot, target)
  {
    if target == snapshot {
      assert segs[a..b] == [];
    } else {
      PlannedWindowIsEnough(segs, timeline, xs, floor, snapshot, target, a, b, plan);
    }
  }

  // One key through the base restore and the replay.
  lemma RestoredKey(s0: Store, mid: Store, s: Store, objects: seq<BackupObject>, window: seq<Op>, target: Timestamp, k: Key)
    requires !IsExcluded(k)
    requires forall ts: Timestamp, v: Stored :: !Version(s0, k, ts, v)
    requires forall ts: Timestamp, v: Stored :: Version(mid, k, ts, v) <==> Version(s0, k, ts, v) || BaseVersion(objects, k, ts, v)
    requires forall ts: Timestamp, v: Stored :: Version(s, k, ts, v) <==> Version(mid, k, ts, v) || Pitr.Replayed(window, target, k, ts, v)
    ensures KeyRestored(s, objects, window, target, k)
  {
    hide Version, BaseVersion, Committed, IsExcluded;
  }
}

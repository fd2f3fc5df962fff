/**
 Planning a point-in-time restore over the archived WAL: the index of a segment,
 which segments a replay window needs, and the walk along recorded predecessors
 that selects them (crates/nodus_backup/src/lib.rs, `archive_wal_indexed` and
 `plan_wal_segments`; crates/nodus_server/src/lib.rs, `wal_archive_txn_index`).
 */
module WalPlan {
  import opened Wrappers
  import opened Mvcc
  import opened Wal

  const INDEX_VERSION: nat := 1

  /** An archived WAL object. A checksum is taken as the object it was computed of. */
  datatype WalObject = WalObject(size: nat, records: seq<WalRecord>)

  /** An archived segment's index; `id` is the number its file is named by. */
  datatype WalArchiveIndex = WalArchiveIndex(
    indexVersion: nat,
    timeline: string,
    id: nat,
    firstCommitTs: Option<Timestamp>,
    lastCommitTs: Option<Timestamp>,
    recordTxns: seq<TxnId>,
    committed: seq<(TxnId, Timestamp)>,
    predecessor: Option<nat>,
    size: nat,
    checksum: WalObject,
    uploaded: bool)

  datatype PlanError =
    | UnsupportedIndex(version: nat)
    | DuplicateIndex(id: nat)
    | MissingSegment(id: nat)
    | OffLineage(id: nat)
    | NotArchived(id: nat)
    | SizeMismatch(id: nat)
    | ChecksumMismatch(id: nat)

  // ------------------------------------------------------------- set helpers

  /** The least element of a non-empty set. */
  function MinOf(s: set<nat>): (m: nat)
    requires s != {}
    ensures m in s && forall x :: x in s ==> m <= x
  {
    HasMin(s);
    var x :| x in s && forall y :: y in s ==> x <= y;
    x
  }

  /** The greatest element of a non-empty set. */
  function MaxOf(s: set<nat>): (m: nat)
    requires s != {}
    ensures m in s && forall x :: x in s ==> x <= m
  {
    HasMax(s);
    var x :| x in s && forall y :: y in s ==> y <= x;
    x
  }

  lemma {:induction false} HasMin(s: set<nat>)
    requires s != {}
    ensures exists x :: x in s && forall y :: y in s ==> x <= y
  {
    var x := Least(s);
  }

  lemma {:induction false} Least(s: set<nat>) returns (m: nat)
    requires s != {}
    ensures m in s && forall y :: y in s ==> m <= y
  {
    m :| m in s;
    var r := s - {m};
    if r != {} {
      var m' := Least(r);
      if m' < m { m := m'; }
    }
    assert forall y :: y in s ==> y in r || y in s - r;
  }

  lemma {:induction false} HasMax(s: set<nat>)
    requires s != {}
    ensures exists x :: x in s && forall y :: y in s ==> y <= x
  {
    var x := Greatest(s);
  }

  lemma {:induction false} Greatest(s: set<nat>) returns (m: nat)
    requires s != {}
    ensures m in s && forall y :: y in s ==> y <= m
  {
    m :| m in s;
    var r := s - {m};
    if r != {} {
      var m' := Greatest(r);
      if m' > m { m := m'; }
    }
    assert forall y :: y in s ==> y in r || y in s - r;
  }

  // ---------------------------------------------------------------- indexing

  /** Transactions a segment holds begin, write or delete records of. */
  function RecordTxns(rs: seq<WalRecord>): seq<TxnId> {
    if rs == [] then []
    else
      var r := rs[|rs| - 1];
      RecordTxns(rs[..|rs| - 1]) +
      (if r.BeginTxn? || r.WriteIntent? || r.DeleteIntent? then [r.txn] else [])
  }

  /** The commits a segment holds, in log order. */
  function Commits(rs: seq<WalRecord>): seq<(TxnId, Timestamp)> {
    if rs == [] then []
    else
      var r := rs[|rs| - 1];
      Commits(rs[..|rs| - 1]) +
      (if r.CommitTxn? then [(r.txn, r.commitTs)] else if r.CommitTxnBatch? then r.commits else [])
  }

  /** The predecessor its last header names. */
  function PredecessorOf(rs: seq<WalRecord>): Option<nat> {
    if rs == [] then None
    else if rs[|rs| - 1].SegmentHeader? then rs[|rs| - 1].predecessor
    else PredecessorOf(rs[..|rs| - 1])
  }

  /** `wal_archive_txn_index`: one pass over the records. */
  method IndexRecords(rs: seq<WalRecord>)
    returns (txns: seq<TxnId>, commits: seq<(TxnId, Timestamp)>, predecessor: Option<nat>)
    ensures txns == RecordTxns(rs) && commits == Commits(rs) && predecessor == PredecessorOf(rs)
    ensures forall t :: t in txns <== exists k, v :: Write(t, k, v) in Ops(rs)
    ensures forall t: TxnId, ts: Timestamp :: (t, ts) in commits <==> Commit(t, ts) in Ops(rs)
  {
    txns, commits, predecessor := [], [], None;
    for i := 0 to |rs|
      invariant txns == RecordTxns(rs[..i]) && commits == Commits(rs[..i])
      invariant predecessor == PredecessorOf(rs[..i])
    {
      assert rs[..i + 1][..i] == rs[..i];
      match rs[i] {
        case SegmentHeader(p) => predecessor := p;
        case BeginTxn(t) => txns := txns + [t];
        case WriteIntent(t, _, _) => txns := txns + [t];
        case DeleteIntent(t, _) => txns := txns + [t];
        case CommitTxn(t, ts) => commits := commits + [(t, ts)];
        case CommitTxnBatch(cs) => commits := commits + cs;
        case AbortTxn(_) =>
        case Checkpoint(_) =>
      }
    }
    assert rs[..|rs|] == rs;
    forall t, k, v | Write(t, k, v) in Ops(rs) ensures t in txns { IndexSeesWrites(rs, t, k, v); }
    forall t: TxnId, ts: Timestamp ensures (t, ts) in commits <==> Commit(t, ts) in Ops(rs) { IndexSeesCommits(rs, t, ts); }
  }

  lemma {:induction false} IndexSeesWrites(rs: seq<WalRecord>, t: TxnId, k: Key, v: Stored)
    requires Write(t, k, v) in Ops(rs)
    ensures t in RecordTxns(rs)
  {
    var init, r := rs[..|rs| - 1], rs[|rs| - 1];
    if Write(t, k, v) in Ops(init) { IndexSeesWrites(init, t, k, v); } else { assert Write(t, k, v) in OpsOf(r); }
  }

  lemma {:induction false} IndexSeesCommits(rs: seq<WalRecord>, t: TxnId, ts: Timestamp)
    ensures (t, ts) in Commits(rs) <==> Commit(t, ts) in Ops(rs)
  {
    if rs != [] {
      var init, r := rs[..|rs| - 1], rs[|rs| - 1];
      IndexSeesCommits(init, t, ts);
      assert (t, ts) in Commits(rs) <==>
        (t, ts) in Commits(init) || r == CommitTxn(t, ts) || (r.CommitTxnBatch? && (t, ts) in r.commits);
      assert Commit(t, ts) in Ops(rs) <==> Commit(t, ts) in Ops(init) || Commit(t, ts) in OpsOf(r) by { hide OpsOf; }
      RecordCommits(r, t, ts);
    }
  }

  lemma RecordCommits(r: WalRecord, t: TxnId, ts: Timestamp)
    ensures Commit(t, ts) in OpsOf(r) <==> r == CommitTxn(t, ts) || (r.CommitTxnBatch? && (t, ts) in r.commits)
  {
    if r.CommitTxnBatch? {
      if (t, ts) in r.commits {
        var i :| 0 <= i < |r.commits| && r.commits[i] == (t, ts);
        assert OpsOf(r)[i] == Commit(t, ts);
      }
      if Commit(t, ts) in OpsOf(r) {
        var i :| 0 <= i < |OpsOf(r)| && OpsOf(r)[i] == Commit(t, ts);
        assert r.commits[i] == (t, ts);
      }
    }
  }

  function MinTs(cs: seq<(TxnId, Timestamp)>): (m: Option<Timestamp>)
    ensures m.None? <==> cs == []
    ensures m.Some? ==> (exists i :: 0 <= i < |cs| && cs[i].1 == m.value) &&
                        forall i :: 0 <= i < |cs| ==> m.value <= cs[i].1
  {
    if cs == [] then None
    else
      var n := |cs| - 1;
      var rest := MinTs(cs[..n]);
      assert forall i :: 0 <= i < n ==> cs[..n][i] == cs[i];
      if rest.None? || cs[n].1 <= rest.value then Some(cs[n].1) else rest
  }

  function MaxTs(cs: seq<(TxnId, Timestamp)>): (m: Option<Timestamp>)
    ensures m.None? <==> cs == []
    ensures m.Some? ==> (exists i :: 0 <= i < |cs| && cs[i].1 == m.value) &&
                        forall i :: 0 <= i < |cs| ==> cs[i].1 <= m.value
  {
    if cs == [] then None
    else
      var n := |cs| - 1;
      var rest := MaxTs(cs[..n]);
      assert forall i :: 0 <= i < n ==> cs[..n][i] == cs[i];
      if rest.None? || cs[n].1 >= rest.value then Some(cs[n].1) else rest
  }

  /** The index `archive_wal_indexed` publishes for a segment. */
  function IndexOf(id: nat, stored: WalObject, timeline: string): WalArchiveIndex {
    var rs := stored.records;
    WalArchiveIndex(INDEX_VERSION, timeline, id, MinTs(Commits(rs)), MaxTs(Commits(rs)),
                    RecordTxns(rs), Commits(rs), PredecessorOf(rs), stored.size, stored, true)
  }

  // ---------------------------------------------------------------- planning

  predicate InWindow(ts: Timestamp, snapshot: Timestamp, target: Timestamp) {
    snapshot < ts <= target
  }

  predicate Supported(xs: seq<WalArchiveIndex>) {
    forall i :: 0 <= i < |xs| ==> xs[i].indexVersion == INDEX_VERSION
  }

  /** The indexes a plan considers: at or above the floor, on the base's timeline, completely uploaded. */
  function Live(xs: seq<WalArchiveIndex>, timeline: string, floor: nat): seq<WalArchiveIndex> {
    if xs == [] then []
    else
      var x := xs[|xs| - 1];
      Live(xs[..|xs| - 1], timeline, floor) +
      (if x.id >= floor && x.timeline == timeline && x.uploaded then [x] else [])
  }

  lemma {:induction false} LiveMeaning(xs: seq<WalArchiveIndex>, timeline: string, floor: nat)
    ensures forall x :: x in Live(xs, timeline, floor) <==> x in xs && x.id >= floor && x.timeline == timeline && x.uploaded
  {
    if xs != [] {
      var n := |xs| - 1;
      LiveMeaning(xs[..n], timeline, floor);
      assert xs == xs[..n] + [xs[n]];
    }
  }

  ghost predicate CommitsInWindow(x: WalArchiveIndex, t: TxnId, snapshot: Timestamp, target: Timestamp) {
    exists ts :: (t, ts) in x.committed && InWindow(ts, snapshot, target)
  }

  /** Some considered segment commits `t` inside the window. */
  ghost predicate NeededTxn(xs: seq<WalArchiveIndex>, t: TxnId, snapshot: Timestamp, target: Timestamp) {
    exists x :: x in xs && CommitsInWindow(x, t, snapshot, target)
  }

  /** The segment holds a commit of the window, or a record of a transaction the window commits. */
  ghost predicate Needed(xs: seq<WalArchiveIndex>, x: WalArchiveIndex, snapshot: Timestamp, target: Timestamp) {
    || (exists t :: CommitsInWindow(x, t, snapshot, target))
    || (exists t :: t in x.recordTxns && NeededTxn(xs, t, snapshot, target))
  }

  ghost function NeededIds(xs: seq<WalArchiveIndex>, snapshot: Timestamp, target: Timestamp): set<nat>
  {
    set x | x in xs && Needed(xs, x, snapshot, target) :: x.id
  }

  predicate DistinctIds(xs: seq<WalArchiveIndex>) {
    forall i, j :: 0 <= i < j < |xs| ==> xs[i].id != xs[j].id
  }

  /** The indexes by segment id. */
  function ById(xs: seq<WalArchiveIndex>): map<nat, WalArchiveIndex>
  {
    if xs == [] then map[] else ById(xs[..|xs| - 1])[xs[|xs| - 1].id := xs[|xs| - 1]]
  }

  lemma {:induction false} ByIdMeaning(xs: seq<WalArchiveIndex>)
    ensures forall i :: i in ById(xs) ==> exists j :: 0 <= j < |xs| && xs[j] == ById(xs)[i] && xs[j].id == i
    ensures forall j :: 0 <= j < |xs| ==> xs[j].id in ById(xs)
  {
    if xs != [] {
      var init := xs[..|xs| - 1];
      ByIdMeaning(init);
      forall i | i in ById(xs) ensures exists j :: 0 <= j < |xs| && xs[j] == ById(xs)[i] && xs[j].id == i {
        if i == xs[|xs| - 1].id {
          assert xs[|xs| - 1] == ById(xs)[i];
        } else {
          assert i in ById(init) && ById(xs)[i] == ById(init)[i];
          var j :| 0 <= j < |init| && init[j] == ById(init)[i] && init[j].id == i;
          assert xs[j] == init[j];
        }
      }
      forall j | 0 <= j < |xs| ensures xs[j].id in ById(xs) {
        if j < |init| { assert init[j].id in ById(init); }
      }
    }
  }

  lemma ByIdFinds(xs: seq<WalArchiveIndex>, x: WalArchiveIndex)
    requires DistinctIds(xs) && x in xs
    ensures x.id in ById(xs) && ById(xs)[x.id] == x
  {
    ByIdMeaning(xs);
    var i :| 0 <= i < |xs| && xs[i] == x;
    assert xs[i].id in ById(xs);
    var j :| 0 <= j < |xs| && xs[j] == ById(xs)[x.id] && xs[j].id == x.id;
  }

  /**
   The walk from `current` back to `first` along recorded predecessors. Each
   segment is taken out of the map as it is visited, so a cycle ends as a missing
   segment.
   */
  function Walk(m: map<nat, WalArchiveIndex>, current: nat, first: nat): (r: Result<set<nat>, PlanError>)
    ensures r.Ok? ==> current in r.value && r.value <= m.Keys
    ensures r.Ok? && current >= first ==> forall x :: x in r.value ==> x >= first
    decreases m.Keys
  {
    if current !in m then Err(MissingSegment(current))
    else if current == first then Ok({current})
    else
      var p := m[current].predecessor;
      if p.Some? && p.value >= first then
        var rest := Walk(m - {current}, p.value, first);
        if rest.Err? then rest else Ok({current} + rest.value)
      else Ok({current})
  }

  /** The set in ascending order, as a `BTreeMap` is iterated. */
  function Ascending(s: set<nat>): seq<nat>
  {
    if s == {} then [] else [MinOf(s)] + Ascending(s - {MinOf(s)})
  }

  lemma {:induction false} AscendingMeaning(s: set<nat>)
    ensures |Ascending(s)| == |s|
    ensures forall x :: x in Ascending(s) <==> x in s
    ensures forall i, j :: 0 <= i < j < |Ascending(s)| ==> Ascending(s)[i] < Ascending(s)[j]
  {
    if s != {} {
      var m, rest := MinOf(s), s - {MinOf(s)};
      AscendingMeaning(rest);
      assert Ascending(s) == [m] + Ascending(rest);
      forall i, j | 0 <= i < j < |Ascending(s)| ensures Ascending(s)[i] < Ascending(s)[j] {
        assert Ascending(s)[j] == Ascending(rest)[j - 1];
        assert Ascending(rest)[j - 1] in rest;
      }
    }
  }

  /** What planning over the considered indexes `xs` yields. */
  ghost predicate Selects(xs: seq<WalArchiveIndex>, snapshot: Timestamp, target: Timestamp, r: Result<seq<WalArchiveIndex>, PlanError>)
  {
    var needed := NeededIds(xs, snapshot, target);
    if !DistinctIds(xs) then r.Err? && r.error.DuplicateIndex?
    else if needed == {} then r == Ok([])
    else
      var walk := Walk(ById(xs), MaxOf(needed), MinOf(needed));
      if walk.Err? then r == Err(walk.error)
      else if !(needed <= walk.value) then r.Err? && r.error.OffLineage? && r.error.id in needed - walk.value
      else r.Ok? && Listed(ById(xs), Ascending(walk.value), r.value)
  }

  ghost predicate Listed(m: map<nat, WalArchiveIndex>, ids: seq<nat>, out: seq<WalArchiveIndex>) {
    |out| == |ids| && forall i :: 0 <= i < |ids| ==> ids[i] in m && out[i] == m[ids[i]]
  }

  /** A plan covers every segment its window needs and nothing below the first of them, in order. */
  ghost predicate Covers(xs: seq<WalArchiveIndex>, snapshot: Timestamp, target: Timestamp, out: seq<WalArchiveIndex>) {
    && (forall x :: x in out ==> x in xs)
    && (forall x :: x in xs && Needed(xs, x, snapshot, target) ==> x in out)
    && (forall y :: y in out ==> exists x :: x in xs && Needed(xs, x, snapshot, target) && x.id <= y.id)
    && (forall i, j :: 0 <= i < j < |out| ==> out[i].id < out[j].id)
  }

  lemma NeededIdIn(xs: seq<WalArchiveIndex>, x: WalArchiveIndex, snapshot: Timestamp, target: Timestamp)
    requires x in xs && Needed(xs, x, snapshot, target)
    ensures x.id in NeededIds(xs, snapshot, target)
  {
  }

  lemma NeededIdFrom(xs: seq<WalArchiveIndex>, i: nat, snapshot: Timestamp, target: Timestamp) returns (x: WalArchiveIndex)
    requires i in NeededIds(xs, snapshot, target)
    ensures x in xs && Needed(xs, x, snapshot, target) && x.id == i
  {
    x :| x in xs && Needed(xs, x, snapshot, target) && x.id == i;
  }

  /** Whatever the archive holds, even with cyclic lineage, a plan that succeeds covers its window. */
  lemma SelectedCovers(xs: seq<WalArchiveIndex>, snapshot: Timestamp, target: Timestamp, r: Result<seq<WalArchiveIndex>, PlanError>)
    requires Selects(xs, snapshot, target, r) && r.Ok?
    ensures Covers(xs, snapshot, target, r.value)
  {
    var needed := NeededIds(xs, snapshot, target);
    if needed == {} {
      forall x | x in xs ensures !Needed(xs, x, snapshot, target) {
        if Needed(xs, x, snapshot, target) { NeededIdIn(xs, x, snapshot, target); }
      }
    } else {
      var m := ById(xs);
      var walk := Walk(m, MaxOf(needed), MinOf(needed)).value;
      var low := NeededIdFrom(xs, MinOf(needed), snapshot, target);
      AscendingMeaning(walk);
      ListedCovers(xs, snapshot, target, needed, low, Ascending(walk), r.value);
    }
  }

  lemma ListedCovers(xs: seq<WalArchiveIndex>, snapshot: Timestamp, target: Timestamp, needed: set<nat>,
                     low: WalArchiveIndex, ids: seq<nat>, out: seq<WalArchiveIndex>)
    requires DistinctIds(xs) && Listed(ById(xs), ids, out)
    requires needed == NeededIds(xs, snapshot, target)
    requires low in xs && Needed(xs, low, snapshot, target)
    requires forall i :: i in needed ==> i in ids
    requires forall i :: i in ids ==> low.id <= i
    requires forall i, j :: 0 <= i < j < |ids| ==> ids[i] < ids[j]
    ensures Covers(xs, snapshot, target, out)
  {
    hide Needed, ById, NeededIds, DistinctIds, Listed;
    ListedIds(xs, ids, out);
    forall x | x in xs && Needed(xs, x, snapshot, target) ensures x in out {
      NeededIdIn(xs, x, snapshot, target);
      ListedHolds(xs, ids, out, x);
    }
    forall y | y in out ensures y in xs && low.id <= y.id { ListedFrom(xs, ids, out, y); }
  }

  lemma ListedHolds(xs: seq<WalArchiveIndex>, ids: seq<nat>, out: seq<WalArchiveIndex>, x: WalArchiveIndex)
    requires DistinctIds(xs) && Listed(ById(xs), ids, out) && x in xs && x.id in ids
    ensures x in out
  {
    hide ById, DistinctIds;
    var j :| 0 <= j < |ids| && ids[j] == x.id;
    ByIdFinds(xs, x);
    assert out[j] == x;
  }

  lemma ListedFrom(xs: seq<WalArchiveIndex>, ids: seq<nat>, out: seq<WalArchiveIndex>, y: WalArchiveIndex)
    requires Listed(ById(xs), ids, out) && y in out
    ensures y in xs && y.id in ids
  {
    hide ById;
    var j :| 0 <= j < |out| && out[j] == y;
    ByIdMeaning(xs);
    assert ids[j] in ids;
  }

  lemma ListedIds(xs: seq<WalArchiveIndex>, ids: seq<nat>, out: seq<WalArchiveIndex>)
    requires Listed(ById(xs), ids, out)
    ensures |out| == |ids| && forall i :: 0 <= i < |ids| ==> out[i].id == ids[i]
  {
    hide ById;
    ByIdMeaning(xs);
  }

  // ------------------------------------------------------------- the archived bytes

  /** The archived object is there, of the size and checksum its index records. */
  predicate Intact(archive: map<nat, WalObject>, x: WalArchiveIndex) {
    x.id in archive && archive[x.id].size == x.size && archive[x.id] == x.checksum
  }

  predicate AllIntact(archive: map<nat, WalObject>, plan: seq<WalArchiveIndex>) {
    forall i :: 0 <= i < |plan| ==> Intact(archive, plan[i])
  }

  /** Fetches the object of an index and compares it. */
  function Fetch(archive: map<nat, WalObject>, x: WalArchiveIndex): (r: Result<WalObject, PlanError>)
    ensures r.Ok? <==> Intact(archive, x)
    ensures r.Ok? ==> r.value == x.checksum
    ensures r.Err? ==> r.error in {NotArchived(x.id), SizeMismatch(x.id), ChecksumMismatch(x.id)}
  {
    if x.id !in archive then Err(NotArchived(x.id))
    else if archive[x.id].size != x.size then Err(SizeMismatch(x.id))
    else if archive[x.id] != x.checksum then Err(ChecksumMismatch(x.id))
    else Ok(archive[x.id])
  }

  /** The error names a planned segment that is not intact. */
  ghost predicate Reports(archive: map<nat, WalObject>, plan: seq<WalArchiveIndex>, e: PlanError) {
    exists i :: 0 <= i < |plan| && !Intact(archive, plan[i]) && Fetch(archive, plan[i]) == Err(e)
  }

  /**
   `plan_wal_segments`: selects over the considered indexes, and fails if the archived object of a
   selected segment is missing or damaged.
   */
  method PlanWalSegments(xs: seq<WalArchiveIndex>, archive: map<nat, WalObject>, timeline: string, floor: nat,
                         snapshot: Timestamp, target: Timestamp)
    returns (r: Result<seq<WalArchiveIndex>, PlanError>, ghost selected: Result<seq<WalArchiveIndex>, PlanError>)
    ensures !Supported(xs) ==> r.Err? && r.error.UnsupportedIndex?
    ensures Supported(xs) ==>
              && Selects(Live(xs, timeline, floor), snapshot, target, selected)
              && if selected.Ok? && !AllIntact(archive, selected.value) then r.Err? && Reports(archive, selected.value, r.error)
                 else r == selected
    ensures r.Ok? ==> Covers(Live(xs, timeline, floor), snapshot, target, r.value) && AllIntact(archive, r.value)
  {
    hide Selects, Covers, Live, AllIntact, Reports;
    var live: seq<WalArchiveIndex> := [];
    NoneLive(xs, timeline, floor);
    selected := Ok([]);
    for i := 0 to |xs|
      invariant Supported(xs[..i])
      invariant live == Live(xs[..i], timeline, floor)
    {
      LiveNext(xs, i, timeline, floor);
      var x := xs[i];
      if x.indexVersion != INDEX_VERSION { return Err(UnsupportedIndex(x.indexVersion)), selected; }
      if x.id < floor { continue; }
      if x.timeline == timeline && x.uploaded { live := live + [x]; }
    }
    assert xs[..|xs|] == xs;
    r := PlanLive(live, snapshot, target);
    selected := r;
    if r.Err? { return; }
    SelectedCovers(live, snapshot, target, r);
    var damaged := FirstDamaged(archive, r.value);
    if damaged.Some? { r := Err(damaged.value); }
  }

  method FirstDamaged(archive: map<nat, WalObject>, plan: seq<WalArchiveIndex>) returns (e: Option<PlanError>)
    ensures e.None? <==> AllIntact(archive, plan)
    ensures e.Some? ==> Reports(archive, plan, e.value)
  {
    for i := 0 to |plan|
      invariant forall j :: 0 <= j < i ==> Intact(archive, plan[j])
    {
      var fetched := Fetch(archive, plan[i]);
      if fetched.Err? { return Some(fetched.error); }
    }
    e := None;
  }

  /** The bytes of a planned segment, as loaded for replay. */
  datatype Loaded = Loaded(id: nat, stored: WalObject)

  function RecordsOf(loaded: seq<Loaded>): (r: seq<seq<WalRecord>>)
    ensures |r| == |loaded| && forall i :: 0 <= i < |r| ==> r[i] == loaded[i].stored.records
  {
    seq(|loaded|, i requires 0 <= i < |loaded| => loaded[i].stored.records)
  }

  lemma NoneLive(xs: seq<WalArchiveIndex>, timeline: string, floor: nat)
    ensures Live(xs[..0], timeline, floor) == []
  {
  }

  lemma LiveNext(xs: seq<WalArchiveIndex>, i: nat, timeline: string, floor: nat)
    requires i < |xs|
    ensures Live(xs[..i + 1], timeline, floor) ==
              Live(xs[..i], timeline, floor) + if xs[i].id >= floor && xs[i].timeline == timeline && xs[i].uploaded then [xs[i]] else []
    ensures Supported(xs[..i]) && xs[i].indexVersion == INDEX_VERSION ==> Supported(xs[..i + 1])
    ensures xs[i].indexVersion != INDEX_VERSION ==> !Supported(xs)
  {
    assert xs[..i + 1][..i] == xs[..i];
  }

  /** The planning of the indexes a restore considers. */
  method PlanLive(live: seq<WalArchiveIndex>, snapshot: Timestamp, target: Timestamp)
    returns (r: Result<seq<WalArchiveIndex>, PlanError>)
    ensures Selects(live, snapshot, target, r)
  {
    var txns := NeededTxns(live, snapshot, target);
    var byId, needed, duplicate := Collect(live, txns, snapshot, target);
    if duplicate.Some? { return Err(DuplicateIndex(duplicate.value)); }
    if needed == {} { return Ok([]); }
    var walk := WalkLineage(byId, MaxOf(needed), MinOf(needed));
    if walk.Err? { return Err(walk.error); }
    var selected := walk.value;
    var off := FirstOffLineage(needed, selected);
    if off.Some? { return Err(OffLineage(off.value)); }
    var out := ListAscending(selected);
    var ids := Ascending(selected.Keys);
    assert Listed(ById(live), ids, out) by {
      AscendingMeaning(selected.Keys);
      assert forall i :: 0 <= i < |ids| ==> ids[i] in selected.Keys;
    }
    r := Ok(out);
  }

  /** A needed segment the walk did not reach, if there is one. */
  method FirstOffLineage(needed: set<nat>, selected: map<nat, WalArchiveIndex>) returns (off: Option<nat>)
    ensures off.None? <==> needed <= selected.Keys
    ensures off.Some? ==> off.value in needed - selected.Keys
  {
    var todo := needed;
    while todo != {}
      invariant todo <= needed && needed - todo <= selected.Keys
    {
      var id :| id in todo;
      if id !in selected { return Some(id); }
      todo := todo - {id};
    }
    off := None;
  }

  /** The selected indexes in ascending order of segment. */
  method ListAscending(selected: map<nat, WalArchiveIndex>) returns (out: seq<WalArchiveIndex>)
    ensures Listed(selected, Ascending(selected.Keys), out)
  {
    var ids := Ascending(selected.Keys);
    AscendingMeaning(selected.Keys);
    out := [];
    for i := 0 to |ids|
      invariant |out| == i && forall j :: 0 <= j < i ==> ids[j] in selected && out[j] == selected[ids[j]]
    {
      assert ids[i] in ids;
      out := out + [selected[ids[i]]];
    }
  }

  /** The ids of the transactions that commit inside the window. */
  method NeededTxns(xs: seq<WalArchiveIndex>, snapshot: Timestamp, target: Timestamp) returns (r: set<TxnId>)
    ensures forall t :: t in r <==> NeededTxn(xs, t, snapshot, target)
  {
    r := {};
    for i := 0 to |xs|
      invariant forall t :: t in r <==> NeededTxn(xs[..i], t, snapshot, target)
    {
      assert xs[..i + 1] == xs[..i] + [xs[i]];
      var cs := xs[i].committed;
      ghost var before := r;
      for j := 0 to |cs|
        invariant forall t :: t in r <==> t in before || exists ts :: (t, ts) in cs[..j] && InWindow(ts, snapshot, target)
      {
        assert cs[..j + 1] == cs[..j] + [cs[j]];
        if InWindow(cs[j].1, snapshot, target) { r := r + {cs[j].0}; }
      }
      assert cs[..|cs|] == cs;
      assert forall t :: t in r <==> t in before || CommitsInWindow(xs[i], t, snapshot, target);
    }
    assert xs[..|xs|] == xs;
  }

  /** The indexes by id and the ids a window needs, refusing a segment indexed twice. */
  method Collect(xs: seq<WalArchiveIndex>, txns: set<TxnId>, snapshot: Timestamp, target: Timestamp)
    returns (byId: map<nat, WalArchiveIndex>, needed: set<nat>, duplicate: Option<nat>)
    requires forall t :: t in txns <==> NeededTxn(xs, t, snapshot, target)
    ensures duplicate.Some? <==> !DistinctIds(xs)
    ensures duplicate.None? ==> byId == ById(xs) && needed == NeededIds(xs, snapshot, target)
  {
    hide Needed, NeededTxn, ById, DistinctIds, NeededBelow, NeededIds;
    byId, needed, duplicate := map[], {}, None;
    NothingCollected(xs, snapshot, target);
    for i := 0 to |xs|
      invariant duplicate.None? && byId == ById(xs[..i]) && DistinctIds(xs[..i])
      invariant NeededBelow(xs, i, needed, snapshot, target)
    {
      var x := xs[i];
      var hit := SegmentNeeded(x, txns, xs, snapshot, target);
      NeededNext(xs, i, needed, snapshot, target);
      if hit { needed := needed + {x.id}; }
      OneMoreId(xs, i);
      if x.id in byId { return byId, needed, Some(x.id); }
      byId := byId[x.id := x];
    }
    assert xs[..|xs|] == xs;
    NeededIdsByIndex(xs, needed, snapshot, target);
  }

  /** The ids needed among the first `n` indexes. */
  ghost predicate NeededBelow(xs: seq<WalArchiveIndex>, n: nat, needed: set<nat>, snapshot: Timestamp, target: Timestamp) {
    forall id :: id in needed <==> exists j :: 0 <= j < n && j < |xs| && xs[j].id == id && Needed(xs, xs[j], snapshot, target)
  }

  lemma NothingCollected(xs: seq<WalArchiveIndex>, snapshot: Timestamp, target: Timestamp)
    ensures ById(xs[..0]) == map[] && DistinctIds(xs[..0]) && NeededBelow(xs, 0, {}, snapshot, target)
  {
  }

  lemma NeededNext(xs: seq<WalArchiveIndex>, i: nat, needed: set<nat>, snapshot: Timestamp, target: Timestamp)
    requires i < |xs| && NeededBelow(xs, i, needed, snapshot, target)
    ensures NeededBelow(xs, i + 1, if Needed(xs, xs[i], snapshot, target) then needed + {xs[i].id} else needed, snapshot, target)
  {
    hide Needed;
  }

  // One more index either repeats an id or extends the map.
  lemma OneMoreId(xs: seq<WalArchiveIndex>, i: nat)
    requires i < |xs| && DistinctIds(xs[..i])
    ensures ById(xs[..i + 1]) == ById(xs[..i])[xs[i].id := xs[i]]
    ensures xs[i].id in ById(xs[..i]) ==> !DistinctIds(xs)
    ensures xs[i].id !in ById(xs[..i]) ==> DistinctIds(xs[..i + 1])
  {
    assert xs[..i + 1][..i] == xs[..i] && xs[..i + 1] == xs[..i] + [xs[i]];
    ByIdMeaning(xs[..i]);
    if xs[i].id in ById(xs[..i]) {
      var j :| 0 <= j < i && xs[..i][j] == ById(xs[..i])[xs[i].id] && xs[..i][j].id == xs[i].id;
      assert xs[j].id == xs[i].id;
    } else {
      assert forall j :: 0 <= j < i ==> xs[..i][j].id in ById(xs[..i]);
    }
  }

  lemma NeededIdsByIndex(xs: seq<WalArchiveIndex>, needed: set<nat>, snapshot: Timestamp, target: Timestamp)
    requires NeededBelow(xs, |xs|, needed, snapshot, target)
    ensures needed == NeededIds(xs, snapshot, target)
  {
    forall id | id in NeededIds(xs, snapshot, target) ensures id in needed {
      var x := NeededIdFrom(xs, id, snapshot, target);
      var j :| 0 <= j < |xs| && xs[j] == x;
    }
    forall id | id in needed ensures id in NeededIds(xs, snapshot, target) {
      var j :| 0 <= j < |xs| && xs[j].id == id && Needed(xs, xs[j], snapshot, target);
      NeededIdIn(xs, xs[j], snapshot, target);
    }
  }

  method SegmentNeeded(x: WalArchiveIndex, txns: set<TxnId>, ghost xs: seq<WalArchiveIndex>, snapshot: Timestamp, target: Timestamp)
    returns (hit: bool)
    requires forall t :: t in txns <==> NeededTxn(xs, t, snapshot, target)
    ensures hit <==> Needed(xs, x, snapshot, target)
  {
    hit := false;
    for i := 0 to |x.committed|
      invariant !hit && forall j :: 0 <= j < i ==> !InWindow(x.committed[j].1, snapshot, target)
    {
      if InWindow(x.committed[i].1, snapshot, target) {
        assert (x.committed[i].0, x.committed[i].1) in x.committed;
        assert CommitsInWindow(x, x.committed[i].0, snapshot, target);
        return true;
      }
    }
    for i := 0 to |x.recordTxns|
      invariant !hit && forall j :: 0 <= j < i ==> x.recordTxns[j] !in txns
    {
      if x.recordTxns[i] in txns { return true; }
    }
  }

  /** The loop of the walk, draining the map as it goes. */
  method WalkLineage(all: map<nat, WalArchiveIndex>, last: nat, first: nat)
    returns (r: Result<map<nat, WalArchiveIndex>, PlanError>)
    requires first <= last
    ensures match Walk(all, last, first)
            case Err(e) => r == Err(e)
            case Ok(ids) => r.Ok? && r.value.Keys == ids && forall i :: i in ids ==> r.value[i] == all[i]
  {
    var byId := all;
    var selected: map<nat, WalArchiveIndex> := map[];
    var current := last;
    while true
      invariant forall i :: i in selected ==> i in all && selected[i] == all[i]
      invariant forall i :: i in byId ==> i in all && byId[i] == all[i]
      invariant var walk, rest := Walk(all, last, first), Walk(byId, current, first);
                if rest.Err? then walk == rest else walk.Ok? && walk.value == selected.Keys + rest.value
      decreases byId.Keys
    {
      if current !in byId { return Err(MissingSegment(current)); }
      var index := byId[current];
      byId := byId - {current};
      selected := selected[current := index];
      if current == first { break; }
      if index.predecessor.Some? && index.predecessor.value >= first {
        current := index.predecessor.value;
      } else {
        break;
      }
    }
    r := Ok(selected);
  }
}

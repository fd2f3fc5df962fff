/**
 Replaying a planned WAL window onto a store (crates/nodus_backup/src/lib.rs,
 `replay_pitr_wal_segments`): when it succeeds, and the versions it adds.
 */
module Pitr {
  import opened Wrappers
  import opened BackupKeys
  import opened Mvcc
  import opened Wal
  import opened WalPlan

  // ------------------------------------------------------------------ replay

  datatype Report = Report(
    segments: nat,
    records: nat,
    writes: nat,
    deletes: nat,
    commitsApplied: nat,
    commitsSkipped: nat,
    aborts: nat,
    pendingAborted: nat)

  /** `ops` replayed up to `target` restores version `v` of `k` at `ts`. */
  ghost predicate Replayed(ops: seq<Op>, target: Timestamp, k: Key, ts: Timestamp, v: Stored) {
    !IsExcluded(k) && ts <= target && Committed(ops, k, ts, v)
  }

  /**
   What replaying `ops` makes of one key: its intent is its outstanding write, its
   new versions are those `ops` commits by the target, and an excluded key is as
   it was.
   */
  ghost predicate KeySimulates(s0: Store, s: Store, ops: seq<Op>, target: Timestamp, k: Key) {
    && (forall t: TxnId, v: Stored :: Intent(ChainOf(s, k)) == Some((t, v)) <==> !IsExcluded(k) && Pending(ops, t, k, v))
    && (forall ts, v :: Version(s, k, ts, v) <==> Version(s0, k, ts, v) || Replayed(ops, target, k, ts, v))
    && (IsExcluded(k) ==> ChainOf(s, k) == ChainOf(s0, k))
  }

  /** The store `s` is `s0` with `ops` replayed onto it. */
  ghost predicate Simulates(s0: Store, s: Store, ops: seq<Op>, target: Timestamp) {
    forall k :: KeySimulates(s0, s, ops, target, k)
  }

  function ActiveAfter(active: set<TxnId>, op: Op): set<TxnId> {
    match op
    case Begin(t) => active + {t}
    case Write(t, k, _) => if IsExcluded(k) then active else active + {t}
    case Commit(t, _) => active - {t}
    case Abort(t) => active - {t}
  }

  /** Transactions with a begin or a restorable write and no resolution since. */
  function ActiveTxns(ops: seq<Op>): set<TxnId> {
    if ops == [] then {} else ActiveAfter(ActiveTxns(ops[..|ops| - 1]), ops[|ops| - 1])
  }

  function CountAfter(n: Report, op: Op, target: Timestamp): Report {
    match op
    case Begin(_) => n
    case Write(_, k, v) =>
      if IsExcluded(k) then n
      else if v.Some? then n.(writes := n.writes + 1) else n.(deletes := n.deletes + 1)
    case Commit(_, ts) =>
      if ts <= target then n.(commitsApplied := n.commitsApplied + 1)
      else n.(commitsSkipped := n.commitsSkipped + 1)
    case Abort(_) => n.(aborts := n.aborts + 1)
  }

  /** The counters a replay of `ops` reports. */
  function Tally(ops: seq<Op>, target: Timestamp): Report {
    if ops == [] then Report(0, 0, 0, 0, 0, 0, 0, 0)
    else CountAfter(Tally(ops[..|ops| - 1], target), ops[|ops| - 1], target)
  }

  function TotalRecords(segments: seq<seq<WalRecord>>): nat {
    if segments == [] then 0 else TotalRecords(segments[..|segments| - 1]) + |segments[|segments| - 1]|
  }

  /** The operations of the segments, one after another. */
  function SegmentOps(segments: seq<seq<WalRecord>>): seq<Op> {
    if segments == [] then [] else SegmentOps(segments[..|segments| - 1]) + Ops(segments[|segments| - 1])
  }

  // Every transaction holding an intent is still active.
  lemma {:induction false} PendingIsActive(ops: seq<Op>, t: TxnId, k: Key, v: Stored)
    requires Pending(ops, t, k, v) && !IsExcluded(k)
    ensures t in ActiveTxns(ops)
  {
    var init, op := ops[..|ops| - 1], ops[|ops| - 1];
    assert ops == init + [op];
    PendingSnoc(init, op, t, k, v);
    if op != Write(t, k, v) { PendingIsActive(init, t, k, v); }
  }

  lemma SimulatesNothing(s: Store, target: Timestamp)
    requires NoIntents(s)
    ensures Simulates(s, s, [], target) && ConflictFree([])
  {
    forall k ensures KeySimulates(s, s, [], target, k) {}
  }

  // An operation that moves neither the key's intent nor its versions.
  lemma KeyUnmoved(s0: Store, s: Store, s': Store, ops: seq<Op>, target: Timestamp, op: Op, k: Key)
    requires KeySimulates(s0, s, ops, target, k)
    requires ChainOf(s', k) == ChainOf(s, k)
    requires op.Write? ==> op.k != k || IsExcluded(k)
    requires op.Commit? || op.Abort? ==> !Holds(s, op.t, k)
    ensures KeySimulates(s0, s', ops + [op], target, k)
  {
    hide IsExcluded;
    forall t: TxnId, v: Stored
      ensures Intent(ChainOf(s', k)) == Some((t, v)) <==> !IsExcluded(k) && Pending(ops + [op], t, k, v)
    {
      PendingSnoc(ops, op, t, k, v);
    }
    forall ts, v ensures Replayed(ops + [op], target, k, ts, v) <==> Replayed(ops, target, k, ts, v) {
      CommittedSnoc(ops, op, k, ts, v);
      if op.Commit? && Pending(ops, op.t, k, v) && !IsExcluded(k) {
        assert Intent(ChainOf(s, k)) == Some((op.t, v));
      }
    }
    forall ts, v ensures Version(s', k, ts, v) <==> Version(s, k, ts, v) {}
  }

  lemma KeyWritten(s0: Store, s: Store, s': Store, ops: seq<Op>, target: Timestamp, t: TxnId, k: Key, v: Stored)
    requires KeySimulates(s0, s, ops, target, k)
    requires !IsExcluded(k) && WriteStep(s, s', t, k, v)
    requires !exists u :: u != t && Holds(s, u, k)
    ensures KeySimulates(s0, s', ops + [Write(t, k, v)], target, k)
  {
    hide IsExcluded;
    var op := Write(t, k, v);
    forall u: TxnId, x: Stored
      ensures Intent(ChainOf(s', k)) == Some((u, x)) <==> !IsExcluded(k) && Pending(ops + [op], u, k, x)
    {
      PendingSnoc(ops, op, u, k, x);
      if u != t { assert !Holds(s, u, k); }
    }
    forall ts, x
      ensures Version(s', k, ts, x) <==> Version(s0, k, ts, x) || Replayed(ops + [op], target, k, ts, x)
    {
      CommittedSnoc(ops, op, k, ts, x);
      assert Version(s', k, ts, x) <==> Version(s, k, ts, x);
    }
  }

  lemma KeyResolved(s0: Store, s: Store, s': Store, ops: seq<Op>, target: Timestamp, op: Op, k: Key)
    requires KeySimulates(s0, s, ops, target, k)
    requires op.Commit? || op.Abort?
    requires if op.Commit? && op.ts <= target then CommitStep(s, s', op.t, op.ts) else AbortStep(s, s', op.t)
    requires Holds(s, op.t, k)
    ensures KeySimulates(s0, s', ops + [op], target, k)
  {
    hide IsExcluded;
    var y := Intent(ChainOf(s, k)).value.1;
    assert Intent(ChainOf(s, k)) == Some((op.t, y));
    forall u: TxnId, x: Stored
      ensures Intent(ChainOf(s', k)) == Some((u, x)) <==> !IsExcluded(k) && Pending(ops + [op], u, k, x)
    {
      PendingSnoc(ops, op, u, k, x);
      if Pending(ops, u, k, x) { assert Intent(ChainOf(s, k)) == Some((u, x)); }
    }
    forall ts, x
      ensures Version(s', k, ts, x) <==> Version(s0, k, ts, x) || Replayed(ops + [op], target, k, ts, x)
    {
      CommittedSnoc(ops, op, k, ts, x);
      assert Intent(ChainOf(s, k)) == Some((op.t, x)) <==> Pending(ops, op.t, k, x);
    }
  }

  lemma IntentIsPending(s0: Store, s: Store, ops: seq<Op>, target: Timestamp, k: Key, t: TxnId, v: Stored)
    requires Simulates(s0, s, ops, target) && !IsExcluded(k)
    ensures Intent(ChainOf(s, k)) == Some((t, v)) <==> Pending(ops, t, k, v)
  {
    assert KeySimulates(s0, s, ops, target, k);
  }

  lemma SimulatesBegin(s0: Store, s: Store, ops: seq<Op>, target: Timestamp, op: Op)
    requires Simulates(s0, s, ops, target)
    requires op.Begin? || (op.Write? && IsExcluded(op.k))
    ensures Simulates(s0, s, ops + [op], target)
  {
    hide IsExcluded, KeySimulates;
    forall k ensures KeySimulates(s0, s, ops + [op], target, k) {
      KeyUnmoved(s0, s, s, ops, target, op, k);
    }
  }

  lemma SimulatesWrite(s0: Store, s: Store, s': Store, ops: seq<Op>, target: Timestamp, t: TxnId, k: Key, v: Stored)
    requires Simulates(s0, s, ops, target)
    requires !IsExcluded(k) && WriteStep(s, s', t, k, v)
    requires !exists u :: u != t && Holds(s, u, k)
    ensures Simulates(s0, s', ops + [Write(t, k, v)], target)
  {
    hide IsExcluded, KeySimulates;
    forall k' ensures KeySimulates(s0, s', ops + [Write(t, k, v)], target, k') {
      if k' == k { KeyWritten(s0, s, s', ops, target, t, k, v); }
      else { KeyUnmoved(s0, s, s', ops, target, Write(t, k, v), k'); }
    }
  }

  lemma SimulatesResolve(s0: Store, s: Store, s': Store, ops: seq<Op>, target: Timestamp, op: Op)
    requires Simulates(s0, s, ops, target)
    requires op.Commit? || op.Abort?
    requires if op.Commit? && op.ts <= target then CommitStep(s, s', op.t, op.ts) else AbortStep(s, s', op.t)
    ensures Simulates(s0, s', ops + [op], target)
  {
    hide IsExcluded, KeySimulates;
    assert Released(s, s', op.t);
    forall k ensures KeySimulates(s0, s', ops + [op], target, k) {
      if Holds(s, op.t, k) { KeyResolved(s0, s, s', ops, target, op, k); }
      else { KeyUnmoved(s0, s, s', ops, target, op, k); }
    }
  }

  lemma ReportSnoc(ops: seq<Op>, op: Op, target: Timestamp)
    ensures ActiveTxns(ops + [op]) == ActiveAfter(ActiveTxns(ops), op)
    ensures Tally(ops + [op], target) == CountAfter(Tally(ops, target), op, target)
  {
    assert (ops + [op])[..|ops|] == ops;
  }

  /** The progress of a replay: the store, the active transactions and the counters after `ops`. */
  ghost predicate Progress(s0: Store, kv: MemKvEngine, ops: seq<Op>, target: Timestamp, active: set<TxnId>, n: Report)
    reads kv
  {
    && kv.Valid()
    && Simulates(s0, kv.store, ops, target)
    && ConflictFree(ops)
    && active == ActiveTxns(ops)
    && n.(segments := 0, records := 0) == Tally(ops, target)
  }

  lemma NoOps()
    ensures Ops([]) == []
  {
  }

  /** One resolution: the transaction is committed at or before the target, dropped otherwise. */
  method Resolve(kv: MemKvEngine, op: Op, target: Timestamp, active: set<TxnId>, n: Report,
                 ghost s0: Store, ghost ops: seq<Op>)
    returns (active': set<TxnId>, n': Report)
    requires op.Commit? || op.Abort?
    requires Progress(s0, kv, ops, target, active, n)
    modifies kv
    ensures Progress(s0, kv, ops + [op], target, active', n')
    ensures n'.segments == n.segments && n'.records == n.records
  {
    hide IsExcluded, Simulates;
    ghost var before := kv.store;
    n' := n;
    if op.Commit? && op.ts <= target {
      kv.Commit(op.t, op.ts);
      n' := n'.(commitsApplied := n.commitsApplied + 1);
    } else {
      kv.Abort(op.t);
      n' := if op.Commit? then n'.(commitsSkipped := n.commitsSkipped + 1) else n'.(aborts := n.aborts + 1);
    }
    active' := active - {op.t};
    SimulatesResolve(s0, before, kv.store, ops, target, op);
    ConflictFreeSnoc(ops, op);
    ReportSnoc(ops, op, target);
  }

  /** One write or delete; an error when another transaction's intent is in the way. */
  method ReplayWrite(kv: MemKvEngine, t: TxnId, k: Key, v: Stored, target: Timestamp, active: set<TxnId>, n: Report,
                     ghost s0: Store, ghost ops: seq<Op>)
    returns (r: Result<(set<TxnId>, Report), KvError>)
    requires Progress(s0, kv, ops, target, active, n)
    modifies kv
    ensures kv.Valid()
    ensures r.Ok? ==> Progress(s0, kv, ops + [Write(t, k, v)], target, r.value.0, r.value.1)
    ensures r.Ok? ==> r.value.1.segments == n.segments && r.value.1.records == n.records
    ensures r.Err? ==> !ConflictFree(ops + [Write(t, k, v)])
  {
    hide IsExcluded, Simulates;
    ghost var op := Write(t, k, v);
    ConflictFreeSnoc(ops, op);
    ReportSnoc(ops, op, target);
    if IsExcluded(k) {
      SimulatesBegin(s0, kv.store, ops, target, op);
      return Ok((active, n));
    }
    ghost var before := kv.store;
    var w := kv.WriteIntent(t, k, v);
    if w.Err? {
      ghost var u :| u != t && Holds(before, u, k);
      IntentIsPending(s0, before, ops, target, k, u, Intent(ChainOf(before, k)).value.1);
      return Err(w.error);
    }
    forall u: TxnId, x: Stored | u != t ensures !Pending(ops, u, k, x) {
      IntentIsPending(s0, before, ops, target, k, u, x);
      assert !Holds(before, u, k);
    }
    SimulatesWrite(s0, before, kv.store, ops, target, t, k, v);
    var n' := if v.Some? then n.(writes := n.writes + 1) else n.(deletes := n.deletes + 1);
    r := Ok((active + {t}, n'));
  }

  /** One record of a segment. */
  method ReplayRecord(kv: MemKvEngine, record: WalRecord, target: Timestamp, active: set<TxnId>, n: Report,
                      ghost s0: Store, ghost ops: seq<Op>)
    returns (r: Result<(set<TxnId>, Report), KvError>)
    requires Progress(s0, kv, ops, target, active, n)
    modifies kv
    ensures kv.Valid()
    ensures r.Ok? ==> Progress(s0, kv, ops + OpsOf(record), target, r.value.0, r.value.1)
    ensures r.Ok? ==> r.value.1.segments == n.segments && r.value.1.records == n.records + 1
    ensures r.Err? ==> !ConflictFree(ops + OpsOf(record))
  {
    hide IsExcluded, Simulates, ConflictFree;
    var n' := n.(records := n.records + 1);
    match record {
      case BeginTxn(t) =>
        SimulatesBegin(s0, kv.store, ops, target, Begin(t));
        ConflictFreeSnoc(ops, Begin(t));
        ReportSnoc(ops, Begin(t), target);
        r := Ok((active + {t}, n'));
      case WriteIntent(t, k, v) =>
        r := ReplayWrite(kv, t, k, Some(v), target, active, n', s0, ops);
      case DeleteIntent(t, k) =>
        r := ReplayWrite(kv, t, k, None, target, active, n', s0, ops);
      case CommitTxn(t, ts) =>
        var active', n'' := Resolve(kv, Commit(t, ts), target, active, n', s0, ops);
        r := Ok((active', n''));
      case CommitTxnBatch(commits) =>
        var active' := active;
        ghost var all := CommitOps(commits);
        assert ops + all[..0] == ops;
        for i := 0 to |commits|
          invariant Progress(s0, kv, ops + all[..i], target, active', n')
          invariant n'.segments == n.segments && n'.records == n.records + 1
        {
          active', n' := Resolve(kv, Commit(commits[i].0, commits[i].1), target, active', n', s0, ops + all[..i]);
          assert ops + all[..i] + [all[i]] == ops + all[..i + 1];
        }
        assert all[..|commits|] == all;
        r := Ok((active', n'));
      case AbortTxn(t) =>
        var active', n'' := Resolve(kv, Abort(t), target, active, n', s0, ops);
        r := Ok((active', n''));
      case SegmentHeader(_) =>
        assert ops + [] == ops;
        r := Ok((active, n'));
      case Checkpoint(_) =>
        assert ops + [] == ops;
        r := Ok((active, n'));
    }
  }

  /** The records of one segment, in order. */
  method ReplaySegment(kv: MemKvEngine, records: seq<WalRecord>, target: Timestamp, active: set<TxnId>, n: Report,
                       ghost s0: Store, ghost ops: seq<Op>)
    returns (r: Result<(set<TxnId>, Report), KvError>)
    requires Progress(s0, kv, ops, target, active, n)
    modifies kv
    ensures kv.Valid()
    ensures r.Ok? ==> Progress(s0, kv, ops + Ops(records), target, r.value.0, r.value.1)
    ensures r.Ok? ==> r.value.1.segments == n.segments + 1 && r.value.1.records == n.records + |records|
    ensures r.Err? ==> !ConflictFree(ops + Ops(records))
  {
    hide Simulates, ConflictFree, ActiveTxns, Tally, Ops, OpsOf, IsExcluded;
    var active', n' := active, n.(segments := n.segments + 1);
    NoOps();
    assert ops + Ops(records[..0]) == ops;
    for j := 0 to |records|
      invariant Progress(s0, kv, ops + Ops(records[..j]), target, active', n')
      invariant n'.segments == n.segments + 1 && n'.records == n.records + j
    {
      assert records[..j + 1] == records[..j] + [records[j]];
      OpsSnoc(records[..j], records[j]);
      ghost var sofar := ops + Ops(records[..j]);
      assert sofar + OpsOf(records[j]) == ops + Ops(records[..j + 1]);
      var step := ReplayRecord(kv, records[j], target, active', n', s0, sofar);
      if step.Err? {
        OpsConcat(records[..j + 1], records[j + 1..]);
        assert records == records[..j + 1] + records[j + 1..];
        assert ops + Ops(records) == (ops + Ops(records[..j + 1])) + Ops(records[j + 1..]);
        if ConflictFree(ops + Ops(records)) { ConflictFreePrefix(ops + Ops(records[..j + 1]), Ops(records[j + 1..])); }
        return Err(step.error);
      }
      active', n' := step.value.0, step.value.1;
    }
    assert records[..|records|] == records;
    r := Ok((active', n'));
  }

  datatype ReplayError =
    | CountMismatch
    | OrderMismatch(expected: nat, got: nat)
    | SizeMismatchIn(id: nat)
    | ChecksumMismatchIn(id: nat)
    | Refused(error: KvError)

  /** The loaded segment is the planned one. */
  predicate IsPlanned(planned: WalArchiveIndex, loaded: Loaded) {
    planned.id == loaded.id && loaded.stored.size == planned.size && loaded.stored == planned.checksum
  }

  predicate MatchesPlan(plan: seq<WalArchiveIndex>, loaded: seq<Loaded>) {
    |loaded| == |plan| && forall i :: 0 <= i < |plan| ==> IsPlanned(plan[i], loaded[i])
  }

  function CompareWithPlan(planned: WalArchiveIndex, loaded: Loaded): (e: Option<ReplayError>)
    ensures e.None? <==> IsPlanned(planned, loaded)
  {
    if planned.id != loaded.id then Some(OrderMismatch(planned.id, loaded.id))
    else if loaded.stored.size != planned.size then Some(SizeMismatchIn(loaded.id))
    else if loaded.stored != planned.checksum then Some(ChecksumMismatchIn(loaded.id))
    else None
  }

  /**
   `replay_pitr_wal_segments`. Replaying onto a store without intents succeeds exactly when the
   loaded segments are the planned ones and no write in the window meets another transaction's
   outstanding write; it then leaves no intent, adds exactly the versions of restorable keys
   the window commits by the target, and changes no excluded key.
   */
  method ReplayPitrWalSegments(kv: MemKvEngine, plan: seq<WalArchiveIndex>, loaded: seq<Loaded>, target: Timestamp)
    returns (r: Result<Report, ReplayError>)
    requires kv.Valid() && NoIntents(kv.store)
    modifies kv
    ensures kv.Valid()
    ensures var window := SegmentOps(RecordsOf(loaded));
            && (r.Ok? <==> MatchesPlan(plan, loaded) && ConflictFree(window))
            && (r.Ok? ==> forall k, ts, v ::
                  Version(kv.store, k, ts, v) <==> Version(old(kv.store), k, ts, v) || Replayed(window, target, k, ts, v))
            && (r.Ok? ==> r.value == Tally(window, target).(
                                       segments := |loaded|,
                                       records := TotalRecords(RecordsOf(loaded)),
                                       pendingAborted := |ActiveTxns(window)|))
    ensures r.Ok? ==> NoIntents(kv.store)
    ensures r.Ok? ==> forall k :: IsExcluded(k) ==> ChainOf(kv.store, k) == ChainOf(old(kv.store), k)
  {
    hide IsExcluded, Simulates, ConflictFree, Ops, IsPlanned;
    if |loaded| != |plan| { return Err(CountMismatch); }
    ghost var s0 := kv.store;
    var segments := RecordsOf(loaded);
    var n := Report(0, 0, 0, 0, 0, 0, 0, 0);
    var active: set<TxnId> := {};
    SimulatesNothing(s0, target);
    for i := 0 to |segments|
      invariant Progress(s0, kv, SegmentOps(segments[..i]), target, active, n)
      invariant n.segments == i && n.records == TotalRecords(segments[..i])
      invariant forall j :: 0 <= j < i ==> IsPlanned(plan[j], loaded[j])
    {
      assert segments[..i + 1][..i] == segments[..i];
      var mismatch := CompareWithPlan(plan[i], loaded[i]);
      if mismatch.Some? { return Err(mismatch.value); }
      var step := ReplaySegment(kv, segments[i], target, active, n, s0, SegmentOps(segments[..i]));
      if step.Err? {
        ConflictInPrefix(segments, i);
        return Err(Refused(step.error));
      }
      active, n := step.value.0, step.value.1;
    }
    assert segments[..|segments|] == segments;
    n := n.(pendingAborted := |active|);
    ghost var replayed := kv.store;
    AbortAll(kv, active);
    Settled(s0, replayed, kv.store, SegmentOps(segments), target, active);
    r := Ok(n);
  }

  // Once the active transactions are aborted, what is left is what was committed.
  lemma Settled(s0: Store, s: Store, s': Store, ops: seq<Op>, target: Timestamp, active: set<TxnId>)
    requires Simulates(s0, s, ops, target)
    requires active == ActiveTxns(ops)
    requires SameVersions(s, s') && AllReleased(s, s', active)
    ensures NoIntents(s')
    ensures forall k, ts, v :: Version(s', k, ts, v) <==> Version(s0, k, ts, v) || Replayed(ops, target, k, ts, v)
    ensures forall k :: IsExcluded(k) ==> ChainOf(s', k) == ChainOf(s0, k)
  {
    hide IsExcluded;
    forall k ensures Intent(ChainOf(s', k)) == None && (IsExcluded(k) ==> ChainOf(s', k) == ChainOf(s0, k)) {
      assert KeySimulates(s0, s, ops, target, k);
      var i := Intent(ChainOf(s, k));
      if i.Some? {
        PendingIsActive(ops, i.value.0, k, i.value.1);
        assert Holds(s, i.value.0, k);
      }
    }
    forall k, ts, v ensures Version(s', k, ts, v) <==> Version(s0, k, ts, v) || Replayed(ops, target, k, ts, v) {
      assert KeySimulates(s0, s, ops, target, k);
    }
  }

  // A conflict met in one segment is a conflict of the whole window.
  lemma ConflictInPrefix(segments: seq<seq<WalRecord>>, i: nat)
    requires i < |segments|
    requires !ConflictFree(SegmentOps(segments[..i]) + Ops(segments[i]))
    ensures !ConflictFree(SegmentOps(segments))
  {
    hide ConflictFree, Ops;
    assert segments[..i + 1][..i] == segments[..i];
    SegmentOpsPrefix(segments, i + 1);
    var more :| SegmentOps(segments) == SegmentOps(segments[..i + 1]) + more;
    if ConflictFree(SegmentOps(segments)) { ConflictFreePrefix(SegmentOps(segments[..i + 1]), more); }
  }

  lemma {:induction false} SegmentOpsPrefix(segments: seq<seq<WalRecord>>, i: nat)
    requires i <= |segments|
    ensures exists more :: SegmentOps(segments) == SegmentOps(segments[..i]) + more
    decreases |segments|
  {
    hide SegmentOps, Ops;
    if i == |segments| {
      assert segments[..i] == segments;
      assert SegmentOps(segments) == SegmentOps(segments[..i]) + [];
    } else {
      var init, last := segments[..|segments| - 1], segments[|segments| - 1];
      SegmentOpsPrefix(init, i);
      assert init[..i] == segments[..i];
      var more :| SegmentOps(init) == SegmentOps(init[..i]) + more;
      SegmentOpsLast(segments);
      var start, ops := SegmentOps(segments[..i]), Ops(last);
      assert start + more + ops == start + (more + ops);
    }
  }

  lemma SegmentOpsLast(segments: seq<seq<WalRecord>>)
    requires segments != []
    ensures SegmentOps(segments) == SegmentOps(segments[..|segments| - 1]) + Ops(segments[|segments| - 1])
  {
  }

  ghost predicate HeldByAny(s: Store, txns: set<TxnId>, k: Key) {
    exists t :: t in txns && Holds(s, t, k)
  }

  ghost predicate AllReleased(s: Store, s': Store, txns: set<TxnId>) {
    forall k :: if HeldByAny(s, txns, k) then Intent(ChainOf(s', k)) == None else ChainOf(s', k) == ChainOf(s, k)
  }

  lemma ReleasedOneMore(s: Store, s1: Store, s2: Store, done: set<TxnId>, t: TxnId)
    requires AllReleased(s, s1, done) && Released(s1, s2, t)
    ensures AllReleased(s, s2, done + {t})
  {
    forall k
      ensures if HeldByAny(s, done + {t}, k) then Intent(ChainOf(s2, k)) == None else ChainOf(s2, k) == ChainOf(s, k)
    {
      if HeldByAny(s, done, k) {
        assert !Holds(s1, t, k);
      } else if HeldByAny(s, done + {t}, k) {
        assert Holds(s, t, k) && Holds(s1, t, k);
      } else {
        assert !Holds(s, t, k) && !Holds(s1, t, k);
      }
    }
  }

  /** Aborts the transactions left over, in any order. */
  method AbortAll(kv: MemKvEngine, active: set<TxnId>)
    requires kv.Valid()
    modifies kv
    ensures kv.Valid()
    ensures SameVersions(old(kv.store), kv.store)
    ensures AllReleased(old(kv.store), kv.store, active)
  {
    var todo := active;
    while todo != {}
      invariant todo <= active && kv.Valid()
      invariant SameVersions(old(kv.store), kv.store)
      invariant AllReleased(old(kv.store), kv.store, active - todo)
    {
      var t :| t in todo;
      ghost var s1 := kv.store;
      kv.Abort(t);
      ReleasedOneMore(old(kv.store), s1, kv.store, active - todo, t);
      assert active - todo + {t} == active - (todo - {t});
      todo := todo - {t};
    }
    assert active - todo == active;
  }
}

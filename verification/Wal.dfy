/**
 What a write-ahead log means: its records, the transaction operations they
 carry, and the versions those operations commit. Nothing here mentions a store,
 so the restore can be proved against it.
 */
module Wal {
  import opened Wrappers
  import opened Mvcc
  import opened BackupKeys

  /** `WalRecordV1` (crates/nodus_storage_wal/src/lib.rs). */
  datatype WalRecord =
    | SegmentHeader(predecessor: Option<nat>)
    | BeginTxn(txn: TxnId)
    | WriteIntent(txn: TxnId, key: Key, value: Bytes)
    | DeleteIntent(txn: TxnId, key: Key)
    | CommitTxn(txn: TxnId, commitTs: Timestamp)
    | CommitTxnBatch(commits: seq<(TxnId, Timestamp)>)
    | AbortTxn(txn: TxnId)
    | Checkpoint(ts: Timestamp)

  /** One transaction operation; a delete writes a tombstone. */
  datatype Op =
    | Begin(t: TxnId)
    | Write(t: TxnId, k: Key, v: Stored)
    | Commit(t: TxnId, ts: Timestamp)
    | Abort(t: TxnId)

  function CommitOps(commits: seq<(TxnId, Timestamp)>): seq<Op> {
    seq(|commits|, i requires 0 <= i < |commits| => Commit(commits[i].0, commits[i].1))
  }

  function OpsOf(r: WalRecord): seq<Op> {
    match r
    case BeginTxn(t) => [Begin(t)]
    case WriteIntent(t, k, v) => [Write(t, k, Some(v))]
    case DeleteIntent(t, k) => [Write(t, k, None)]
    case CommitTxn(t, ts) => [Commit(t, ts)]
    case CommitTxnBatch(cs) => CommitOps(cs)
    case AbortTxn(t) => [Abort(t)]
    case SegmentHeader(_) => []
    case Checkpoint(_) => []
  }

  function Ops(rs: seq<WalRecord>): seq<Op> {
    if rs == [] then [] else Ops(rs[..|rs| - 1]) + OpsOf(rs[|rs| - 1])
  }

  lemma {:induction false} OpsConcat(a: seq<WalRecord>, b: seq<WalRecord>)
    ensures Ops(a + b) == Ops(a) + Ops(b)
  {
    hide Ops, OpsOf;
    if b == [] {
      assert a + b == a;
      OpsSnocs([], []);
    } else {
      var init, last := b[..|b| - 1], b[|b| - 1];
      OpsConcat(a, init);
      OpsSnocs(a + init, [last]);
      OpsSnocs(init, [last]);
      assert a + init + [last] == a + b && init + [last] == b;
      assert Ops(a) + Ops(init) + OpsOf(last) == Ops(a) + (Ops(init) + OpsOf(last));
    }
  }

  // At most one more record.
  lemma OpsSnocs(rs: seq<WalRecord>, more: seq<WalRecord>)
    requires |more| <= 1
    ensures Ops([]) == []
    ensures more != [] ==> Ops(rs + more) == Ops(rs) + OpsOf(more[0])
  {
    if more != [] { assert (rs + more)[..|rs|] == rs; }
  }

  lemma OpsSnoc(rs: seq<WalRecord>, r: WalRecord)
    ensures Ops(rs + [r]) == Ops(rs) + OpsOf(r)
  {
    assert (rs + [r])[..|rs|] == rs;
  }

  // ---------------------------------------------------------------- meaning

  predicate Resolves(op: Op, t: TxnId) {
    (op.Commit? || op.Abort?) && op.t == t
  }

  /** The operation ends the effect of `t`'s earlier write to `k`. */
  predicate Touches(op: Op, t: TxnId, k: Key) {
    Resolves(op, t) || (op.Write? && op.t == t && op.k == k)
  }

  /** `t`'s write of `v` to `k` is outstanding after `ops`. */
  ghost predicate Pending(ops: seq<Op>, t: TxnId, k: Key, v: Stored) {
    exists i :: 0 <= i < |ops| && ops[i] == Write(t, k, v) && Untouched(ops, i + 1, |ops|, t, k)
  }

  ghost predicate Untouched(ops: seq<Op>, lo: nat, hi: nat, t: TxnId, k: Key)
    requires hi <= |ops|
  {
    forall m :: lo <= m < hi ==> !Touches(ops[m], t, k)
  }

  /** `ops` commits version `v` of `k` at `ts`. */
  ghost predicate Committed(ops: seq<Op>, k: Key, ts: Timestamp, v: Stored) {
    exists j, t :: CommitsAt(ops, j, t, k, ts, v)
  }

  ghost predicate CommitsAt(ops: seq<Op>, j: int, t: TxnId, k: Key, ts: Timestamp, v: Stored) {
    0 <= j < |ops| && ops[j] == Commit(t, ts) && Pending(ops[..j], t, k, v)
  }

  /** No write to a restorable key meets another transaction's outstanding write. */
  ghost predicate ConflictFree(ops: seq<Op>) {
    forall j :: 0 <= j < |ops| ==> !ConflictAt(ops, j)
  }

  ghost predicate ConflictAt(ops: seq<Op>, j: int)
    requires 0 <= j < |ops|
  {
    && ops[j].Write?
    && !IsExcluded(ops[j].k)
    && exists u, x :: u != ops[j].t && Pending(ops[..j], u, ops[j].k, x)
  }

  // ------------------------------------------------------- one more operation

  lemma PendingSnoc(ops: seq<Op>, op: Op, t: TxnId, k: Key, v: Stored)
    ensures Pending(ops + [op], t, k, v) <==>
              op == Write(t, k, v) || (Pending(ops, t, k, v) && !Touches(op, t, k))
  {
    var all := ops + [op];
    if Pending(all, t, k, v) {
      var i :| 0 <= i < |all| && all[i] == Write(t, k, v) && Untouched(all, i + 1, |all|, t, k);
      if i < |ops| {
        assert all[|ops|] == op;
        assert Untouched(ops, i + 1, |ops|, t, k) by {
          forall m | i + 1 <= m < |ops| ensures !Touches(ops[m], t, k) { assert all[m] == ops[m]; }
        }
        assert ops[i] == Write(t, k, v);
      }
    }
    if op == Write(t, k, v) {
      assert all[|ops|] == Write(t, k, v) && Untouched(all, |ops| + 1, |all|, t, k);
    }
    if Pending(ops, t, k, v) && !Touches(op, t, k) {
      var i :| 0 <= i < |ops| && ops[i] == Write(t, k, v) && Untouched(ops, i + 1, |ops|, t, k);
      assert all[i] == Write(t, k, v);
      assert Untouched(all, i + 1, |all|, t, k);
    }
  }

  lemma CommittedSnoc(ops: seq<Op>, op: Op, k: Key, ts: Timestamp, v: Stored)
    ensures Committed(ops + [op], k, ts, v) <==>
              Committed(ops, k, ts, v) || (op.Commit? && op.ts == ts && Pending(ops, op.t, k, v))
  {
    var all := ops + [op];
    assert forall j :: 0 <= j <= |ops| ==> all[..j] == ops[..j];
    assert ops[..|ops|] == ops;
    if Committed(all, k, ts, v) {
      var j, t :| CommitsAt(all, j, t, k, ts, v);
      if j < |ops| { assert CommitsAt(ops, j, t, k, ts, v); }
    }
    if Committed(ops, k, ts, v) {
      var j, t :| CommitsAt(ops, j, t, k, ts, v);
      assert CommitsAt(all, j, t, k, ts, v);
    }
    if op.Commit? && op.ts == ts && Pending(ops, op.t, k, v) {
      assert CommitsAt(all, |ops|, op.t, k, ts, v);
    }
  }

  lemma ConflictFreeSnoc(ops: seq<Op>, op: Op)
    ensures ConflictFree(ops + [op]) <==>
              ConflictFree(ops) &&
              (op.Write? && !IsExcluded(op.k) ==> !exists u, x :: u != op.t && Pending(ops, u, op.k, x))
  {
    var all := ops + [op];
    assert forall j :: 0 <= j < |ops| ==> all[..j] == ops[..j] && all[j] == ops[j];
    assert all[..|ops|] == ops && all[|ops|] == op;
    assert forall j :: 0 <= j < |ops| ==> (ConflictAt(all, j) <==> ConflictAt(ops, j));
    assert ConflictAt(all, |ops|) <==>
      (op.Write? && !IsExcluded(op.k) && exists u, x :: u != op.t && Pending(ops, u, op.k, x));
  }

  lemma {:induction false} ConflictFreePrefix(ops: seq<Op>, more: seq<Op>)
    requires ConflictFree(ops + more)
    ensures ConflictFree(ops)
  {
    var all := ops + more;
    forall j | 0 <= j < |ops| ensures !ConflictAt(ops, j) {
      assert all[..j] == ops[..j] && all[j] == ops[j];
      assert !ConflictAt(all, j);
    }
  }

  // ------------------------------------------------------------------ windows

  // A write outstanding within a window is outstanding in the whole log.
  lemma PendingInWindow(log: seq<Op>, a: nat, b: nat, t: TxnId, k: Key, v: Stored)
    requires a <= b <= |log|
    requires Pending(log[a..b], t, k, v)
    ensures Pending(log[..b], t, k, v)
  {
    var w := log[a..b];
    var i :| 0 <= i < |w| && w[i] == Write(t, k, v) && Untouched(w, i + 1, |w|, t, k);
    forall m | a + i + 1 <= m < b ensures !Touches(log[..b][m], t, k) {
      assert w[m - a] == log[m];
    }
    assert log[..b][a + i] == Write(t, k, v) && Untouched(log[..b], a + i + 1, |log[..b]|, t, k);
  }

  // And the other way round when the window holds every write of the transaction.
  lemma PendingReachesWindow(log: seq<Op>, a: nat, b: nat, t: TxnId, k: Key, v: Stored)
    requires a <= b <= |log|
    requires Pending(log[..b], t, k, v)
    requires forall i :: 0 <= i < a ==> !(log[i].Write? && log[i].t == t)
    ensures Pending(log[a..b], t, k, v)
  {
    var p, w := log[..b], log[a..b];
    var i :| 0 <= i < |p| && p[i] == Write(t, k, v) && Untouched(p, i + 1, |p|, t, k);
    assert i >= a;
    forall m | i - a + 1 <= m < |w| ensures !Touches(w[m], t, k) { assert w[m] == p[m + a]; }
    assert w[i - a] == Write(t, k, v) && Untouched(w, i - a + 1, |w|, t, k);
  }

  /** A window of a conflict-free log is conflict-free, however transactions straddle its edges. */
  lemma WindowConflictFree(log: seq<Op>, a: nat, b: nat)
    requires a <= b <= |log|
    requires ConflictFree(log)
    ensures ConflictFree(log[a..b])
  {
    var w := log[a..b];
    forall j | 0 <= j < |w| ensures !ConflictAt(w, j) {
      assert w[..j] == log[a..a + j] && w[j] == log[a + j];
      assert !ConflictAt(log, a + j);
      if ConflictAt(w, j) {
        var u, x :| u != w[j].t && Pending(w[..j], u, w[j].k, x);
        PendingInWindow(log, a, a + j, u, w[j].k, x);
      }
    }
  }

  /** A window commits only versions the whole log commits. */
  lemma WindowCommitsOnlyTruth(log: seq<Op>, a: nat, b: nat, k: Key, ts: Timestamp, v: Stored)
    requires a <= b <= |log|
    requires Committed(log[a..b], k, ts, v)
    ensures Committed(log, k, ts, v)
  {
    var w := log[a..b];
    var j, t :| CommitsAt(w, j, t, k, ts, v);
    assert w[..j] == log[a..a + j];
    PendingInWindow(log, a, a + j, t, k, v);
    assert CommitsAt(log, a + j, t, k, ts, v);
  }

  /** A window that holds a transaction's writes and its commit commits its versions. */
  lemma WindowCommitsWholeTxns(log: seq<Op>, a: nat, b: nat, j: nat, t: TxnId, k: Key, ts: Timestamp, v: Stored)
    requires a <= j < b <= |log|
    requires CommitsAt(log, j, t, k, ts, v)
    requires forall i :: 0 <= i < a ==> !(log[i].Write? && log[i].t == t)
    ensures Committed(log[a..b], k, ts, v)
  {
    PendingReachesWindow(log, a, j, t, k, v);
    var w := log[a..b];
    assert w[..j - a] == log[a..j];
    assert CommitsAt(w, j - a, t, k, ts, v);
  }
}

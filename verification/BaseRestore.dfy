/**
 Loading a base backup's row dumps into a store (crates/nodus_backup/src/lib.rs,
 `restore_backup_objects_to_kv`).
 */
module BaseRestore {
  import opened Wrappers
  import opened BackupKeys
  import opened Mvcc

  /** A dumped row: the fields the restore reads, absent where the dump has none it can read. */
  datatype Row = Row(key: Option<Key>, version: Option<Timestamp>, deleted: bool, value: Option<Bytes>)

  /** A backed-up object; `rows` is None when its bytes are not a row dump. */
  datatype BackupObject = BackupObject(name: string, rows: Option<seq<Row>>)

  datatype RestoreError = MalformedDump(name: string) | Conflict(error: KvError)

  /** The object's name marks it as a row dump. */
  predicate HoldsRows(o: BackupObject) {
    || o.name == "kv_data.json"
    || o.name == "meta.json"
    || ("shard-" <= o.name && EndsWith(o.name, ".json"))
  }

  /** The version a row restores, if it restores one. */
  function RowVersion(row: Row): Option<(Key, Timestamp, Stored)> {
    if row.key.None? || IsExcluded(row.key.value) || row.version.None? then None
    else if row.deleted then Some((row.key.value, row.version.value, None))
    else if row.value.Some? then Some((row.key.value, row.version.value, row.value))
    else None
  }

  ghost predicate RowsHold(rows: seq<Row>, k: Key, ts: Timestamp, v: Stored) {
    exists i :: 0 <= i < |rows| && RowVersion(rows[i]) == Some((k, ts, v))
  }

  function RowCount(rows: seq<Row>): nat {
    if rows == [] then 0
    else RowCount(rows[..|rows| - 1]) + if RowVersion(rows[|rows| - 1]).Some? then 1 else 0
  }

  function VersionCount(objects: seq<BackupObject>): nat {
    if objects == [] then 0
    else
      var o := objects[|objects| - 1];
      VersionCount(objects[..|objects| - 1]) + if HoldsRows(o) && o.rows.Some? then RowCount(o.rows.value) else 0
  }

  ghost predicate ObjectHolds(o: BackupObject, k: Key, ts: Timestamp, v: Stored) {
    HoldsRows(o) && o.rows.Some? && RowsHold(o.rows.value, k, ts, v)
  }

  /** Some row dump of the backup restores version `v` of `k` at `ts`. */
  ghost predicate BaseVersion(objects: seq<BackupObject>, k: Key, ts: Timestamp, v: Stored) {
    exists i :: 0 <= i < |objects| && ObjectHolds(objects[i], k, ts, v)
  }

  predicate WellFormed(objects: seq<BackupObject>) {
    forall i :: 0 <= i < |objects| ==> HoldsRows(objects[i]) ==> objects[i].rows.Some?
  }

  ghost predicate ExcludedKept(s: Store, s': Store) {
    forall k :: IsExcluded(k) ==> ChainOf(s', k) == ChainOf(s, k)
  }

  // A write of `v` committed at once, by a transaction that holds nothing else.
  lemma WrittenAndCommitted(s: Store, s1: Store, s2: Store, t: TxnId, k: Key, ts: Timestamp, v: Stored)
    requires NoIntents(s) && WriteStep(s, s1, t, k, v) && CommitStep(s1, s2, t, ts)
    ensures NoIntents(s2)
    ensures forall k', ts', x :: Version(s2, k', ts', x) <==> Version(s, k', ts', x) || (k' == k && ts' == ts && x == v)
    ensures forall k' :: k' != k ==> ChainOf(s2, k') == ChainOf(s, k')
  {
    hide Intent, HasVersion;
    forall k' ensures Intent(ChainOf(s2, k')) == None && (k' != k ==> ChainOf(s2, k') == ChainOf(s, k')) {
      if k' == k { assert Holds(s1, t, k); } else { assert Intent(ChainOf(s1, k')) == None && !Holds(s1, t, k'); }
    }
    forall k', ts', x
      ensures Version(s2, k', ts', x) <==> Version(s, k', ts', x) || (k' == k && ts' == ts && x == v)
    {
      assert Version(s1, k', ts', x) <==> Version(s, k', ts', x);
    }
  }

  /** One row: skipped, or written and committed at its own version. */
  method RestoreRow(kv: MemKvEngine, row: Row) returns (r: Result<nat, RestoreError>)
    requires kv.Valid() && NoIntents(kv.store)
    modifies kv
    ensures kv.Valid() && NoIntents(kv.store)
    ensures r == Ok(if RowVersion(row).Some? then 1 else 0)
    ensures forall k: Key, ts: Timestamp, v: Stored :: Version(kv.store, k, ts, v) <==>
              Version(old(kv.store), k, ts, v) || RowVersion(row) == Some((k, ts, v))
    ensures ExcludedKept(old(kv.store), kv.store)
  {
    hide IsExcluded, Intent, HasVersion;
    if row.key.None? { return Ok(0); }
    var key := row.key.value;
    if IsExcluded(key) { return Ok(0); }
    if row.version.None? { return Ok(0); }
    var t: TxnId := *;
    var v: Stored := None;
    if !row.deleted {
      if row.value.None? { return Ok(0); }
      v := row.value;
    }
    ghost var s := kv.store;
    assert !exists u :: u != t && Holds(s, u, key);
    var w := kv.WriteIntent(t, key, v);
    ghost var s1 := kv.store;
    kv.Commit(t, row.version.value);
    WrittenAndCommitted(s, s1, kv.store, t, key, row.version.value, v);
    assert RowVersion(row) == Some((key, row.version.value, v));
    r := Ok(1);
  }

  /** The rows of one dump, in order. */
  method RestoreRows(kv: MemKvEngine, rows: seq<Row>) returns (count: nat)
    requires kv.Valid() && NoIntents(kv.store)
    modifies kv
    ensures kv.Valid() && NoIntents(kv.store)
    ensures count == RowCount(rows)
    ensures forall k, ts, v :: Version(kv.store, k, ts, v) <==> Version(old(kv.store), k, ts, v) || RowsHold(rows, k, ts, v)
    ensures ExcludedKept(old(kv.store), kv.store)
  {
    hide IsExcluded, NoIntents, RowVersion;
    count := 0;
    for i := 0 to |rows|
      invariant kv.Valid() && NoIntents(kv.store) && count == RowCount(rows[..i])
      invariant forall k, ts, v :: Version(kv.store, k, ts, v) <==> Version(old(kv.store), k, ts, v) || RowsHold(rows[..i], k, ts, v)
      invariant ExcludedKept(old(kv.store), kv.store)
    {
      assert rows[..i + 1][..i] == rows[..i];
      var step := RestoreRow(kv, rows[i]);
      count := count + step.value;
      forall k: Key, ts: Timestamp, v: Stored
        ensures RowsHold(rows[..i + 1], k, ts, v) <==> RowsHold(rows[..i], k, ts, v) || RowVersion(rows[i]) == Some((k, ts, v))
      {
        RowsHoldSnoc(rows, i, k, ts, v);
      }
    }
    assert rows[..|rows|] == rows;
  }

  lemma RowsHoldSnoc(rows: seq<Row>, i: nat, k: Key, ts: Timestamp, v: Stored)
    requires i < |rows|
    ensures RowsHold(rows[..i + 1], k, ts, v) <==> RowsHold(rows[..i], k, ts, v) || RowVersion(rows[i]) == Some((k, ts, v))
  {
    hide RowVersion;
    if RowsHold(rows[..i], k, ts, v) {
      var j :| 0 <= j < i && RowVersion(rows[..i][j]) == Some((k, ts, v));
      assert rows[..i + 1][j] == rows[..i][j];
    }
    if RowVersion(rows[i]) == Some((k, ts, v)) { assert rows[..i + 1][i] == rows[i]; }
    if RowsHold(rows[..i + 1], k, ts, v) {
      var j :| 0 <= j < i + 1 && RowVersion(rows[..i + 1][j]) == Some((k, ts, v));
      if j < i { assert rows[..i][j] == rows[..i + 1][j]; }
    }
  }

  lemma BaseVersionSnoc(objects: seq<BackupObject>, i: nat, k: Key, ts: Timestamp, v: Stored)
    requires i < |objects|
    ensures BaseVersion(objects[..i + 1], k, ts, v) <==> BaseVersion(objects[..i], k, ts, v) || ObjectHolds(objects[i], k, ts, v)
  {
    hide ObjectHolds;
    if BaseVersion(objects[..i], k, ts, v) {
      var j :| 0 <= j < i && ObjectHolds(objects[..i][j], k, ts, v);
      assert objects[..i + 1][j] == objects[..i][j];
    }
    if ObjectHolds(objects[i], k, ts, v) { assert objects[..i + 1][i] == objects[i]; }
    if BaseVersion(objects[..i + 1], k, ts, v) {
      var j :| 0 <= j < i + 1 && ObjectHolds(objects[..i + 1][j], k, ts, v);
      if j < i { assert objects[..i][j] == objects[..i + 1][j]; }
    }
  }

  /**
   `restore_backup_objects_to_kv`: into a store without intents it adds exactly the
   versions the dumps hold of restorable keys, and leaves every excluded key as the
   destination had it.
   */
  method RestoreBackupObjects(kv: MemKvEngine, objects: seq<BackupObject>) returns (r: Result<nat, RestoreError>)
    requires kv.Valid() && NoIntents(kv.store)
    modifies kv
    ensures kv.Valid() && NoIntents(kv.store)
    ensures r.Ok? <==> WellFormed(objects)
    ensures r.Ok? ==> r.value == VersionCount(objects)
    ensures r.Ok? ==> forall k, ts, v ::
              Version(kv.store, k, ts, v) <==> Version(old(kv.store), k, ts, v) || BaseVersion(objects, k, ts, v)
    ensures ExcludedKept(old(kv.store), kv.store)
  {
    hide IsExcluded, NoIntents, RowsHold, HoldsRows;
    var count := 0;
    for i := 0 to |objects|
      invariant kv.Valid() && NoIntents(kv.store)
      invariant WellFormed(objects[..i]) && count == VersionCount(objects[..i])
      invariant forall k, ts, v :: Version(kv.store, k, ts, v) <==> Version(old(kv.store), k, ts, v) || BaseVersion(objects[..i], k, ts, v)
      invariant ExcludedKept(old(kv.store), kv.store)
    {
      var o := objects[i];
      assert objects[..i + 1][..i] == objects[..i];
      forall k, ts, v
        ensures BaseVersion(objects[..i + 1], k, ts, v) <==> BaseVersion(objects[..i], k, ts, v) || ObjectHolds(o, k, ts, v)
      {
        BaseVersionSnoc(objects, i, k, ts, v);
      }
      if !HoldsRows(o) { continue; }
      if o.rows.None? { return Err(MalformedDump(o.name)); }
      var n := RestoreRows(kv, o.rows.value);
      count := count + n;
    }
    assert objects[..|objects|] == objects;
    r := Ok(count);
  }
}

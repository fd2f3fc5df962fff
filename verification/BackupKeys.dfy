/**
 Keys that never round-trip through a backup (crates/nodus_backup/src/lib.rs,
 `is_backup_excluded_key`): node-local and control records, wherever a shard
 namespace puts them.
 */
module BackupKeys {
  import opened Wrappers

  /** The bytes of an ASCII literal. */
  function Ascii(s: string): Bytes
    requires forall i :: 0 <= i < |s| ==> s[i] as int < 256
  {
    seq(|s|, i requires 0 <= i < |s| => s[i] as int)
  }

  predicate StartsWith(b: Bytes, prefix: Bytes) {
    |prefix| <= |b| && b[..|prefix|] == prefix
  }

  /** Position of the first zero byte, or the length. */
  function FirstZero(b: Bytes): (i: nat)
    ensures i <= |b|
    ensures forall j :: 0 <= j < i ==> b[j] != 0
    ensures i < |b| ==> b[i] == 0
  {
    if b == [] || b[0] == 0 then 0 else 1 + FirstZero(b[1..])
  }

  /** The key inside a `shard-{id}\0` namespace; other keys are their own. */
  function Inner(key: Bytes): Bytes {
    if StartsWith(key, Ascii("shard-")) then
      var rest := key[|Ascii("shard-")|..];
      var pos := FirstZero(rest);
      if pos < |rest| then rest[pos + 1..] else key
    else key
  }

  predicate IsTransactionControl(inner: Bytes) {
    || StartsWith(inner, [1] + Ascii("txn-authority/"))
    || StartsWith(inner, [1] + Ascii("txn-participant/"))
    || StartsWith(inner, [1] + Ascii("txn-resolution/"))
  }

  /** The excluded namespaces, of a key already stripped of its shard prefix. */
  predicate IsControl(inner: Bytes) {
    || StartsWith(inner, [0] + Ascii("raft") + [0])
    || inner == [0] + Ascii("recovery") + [0] + Ascii("generation")
    || StartsWith(inner, [1] + Ascii("upgrade/"))
    || StartsWith(inner, [1] + Ascii("migration/"))
    || StartsWith(inner, [1] + Ascii("backup/"))
    || IsTransactionControl(inner)
  }

  predicate IsExcluded(key: Bytes) {
    IsControl(Inner(key))
  }

  /**
   A control record is excluded wherever a group's namespace puts it, and a data
   key is excluded in no namespace: for a group id free of zero bytes, the
   namespaced key is excluded exactly when the bare record is a control record.
   */
  lemma ExclusionFollowsTheNamespace(id: Bytes, key: Bytes)
    requires 0 !in id
    ensures IsExcluded(Ascii("shard-") + id + [0] + key) <==> IsControl(key)
  {
    var p := Ascii("shard-");
    var full := p + id + [0] + key;
    assert full[..|p|] == p;
    assert full[|p|..] == id + [0] + key;
    var rest := full[|p|..];
    assert rest[|id|] == 0;
    assert forall z :: 0 <= z < |id| ==> rest[z] == id[z];
    assert FirstZero(rest) == |id|;
    assert rest[|id| + 1..] == key;
  }
}

/**
 The multi-version store a restore writes into: version chains
 (crates/nodus_mvcc/src/lib.rs) and the in-memory engine that keeps one chain
 per key and, per transaction, the keys it holds intents on
 (crates/nodus_storage_mem/src/lib.rs).

 The chain operations are pure and become functions; the engine changes its maps
 in place and becomes a class, each of whose methods is proved against what it
 does to two observations: the committed versions of a key (`HasVersion`) and the
 key's intent (`Intent`).
 */
module Mvcc {
  import opened Wrappers

  type Key = Bytes
  type TxnId = nat
  type Timestamp = nat

  /** A stored value; `None` is a tombstone. */
  type Stored = Option<Bytes>

  datatype MvccValue = MvccValue(value: Stored, version: Timestamp, txn: TxnId, isIntent: bool)

  /** One key's versions and at most one intent, in the order they were appended. */
  type Chain = seq<MvccValue>

  /** u64::MAX, the version an intent carries until it commits. */
  const INTENT_VERSION: Timestamp := 0xFFFF_FFFF_FFFF_FFFF

  datatype KvError = WriteConflict(holder: TxnId)

  // ---------------------------------------------------------------- chains

  /** Position of the last element satisfying the intent test, or -1. */
  function LastIntent(c: Chain): (i: int)
    ensures -1 <= i < |c|
    ensures i >= 0 ==> c[i].isIntent
    ensures forall j :: i < j < |c| ==> !c[j].isIntent
  {
    if c == [] then -1
    else if c[|c| - 1].isIntent then |c| - 1
    else LastIntent(c[..|c| - 1])
  }

  /** The chain without the transaction's intents (`Vec::retain`). */
  function DropIntents(c: Chain, t: TxnId): (r: Chain)
  {
    if c == [] then []
    else
      var rest := DropIntents(c[..|c| - 1], t);
      var v := c[|c| - 1];
      if v.isIntent && v.txn == t then rest else rest + [v]
  }

  function WriteChain(c: Chain, t: TxnId, v: Stored): Result<Chain, KvError>
  {
    var i := LastIntent(c);
    if i >= 0 && c[i].txn != t then Err(WriteConflict(c[i].txn))
    else
      var base := if i >= 0 then DropIntents(c, t) else c;
      Ok(base + [MvccValue(v, INTENT_VERSION, t, true)])
  }

  /** Position of the transaction's last intent, or -1 (`Iterator::rposition`). */
  function LastIntentOf(c: Chain, t: TxnId): (i: int)
    ensures -1 <= i < |c|
    ensures i >= 0 ==> c[i].isIntent && c[i].txn == t
    ensures forall j :: i < j < |c| ==> !(c[j].isIntent && c[j].txn == t)
  {
    if c == [] then -1
    else if c[|c| - 1].isIntent && c[|c| - 1].txn == t then |c| - 1
    else LastIntentOf(c[..|c| - 1], t)
  }

  /** Commits the transaction's intent in place; a chain without one is unchanged. */
  function CommitChain(c: Chain, t: TxnId, ts: Timestamp): Chain
  {
    var i := LastIntentOf(c, t);
    if i < 0 then c else c[i := c[i].(isIntent := false, version := ts)]
  }

  // ---------------------------------------------------- observations of a chain

  /** The chain holds the committed version `v` at `ts`. */
  ghost predicate HasVersion(c: Chain, ts: Timestamp, v: Stored) {
    exists i :: 0 <= i < |c| && !c[i].isIntent && c[i].version == ts && c[i].value == v
  }

  /** The key's uncommitted write: its transaction and value. */
  ghost function Intent(c: Chain): Option<(TxnId, Stored)> {
    var i := LastIntent(c);
    if i < 0 then None else Some((c[i].txn, c[i].value))
  }

  ghost predicate OneIntent(c: Chain) {
    forall i, j :: 0 <= i < j < |c| ==> !(c[i].isIntent && c[j].isIntent)
  }

  // Every element of the filtered chain comes from the chain, and every element
  // that is not one of the transaction's intents survives.
  lemma {:induction false} DropIntentsKeeps(c: Chain, t: TxnId)
    ensures var r := DropIntents(c, t);
            && |r| <= |c|
            && (forall i :: 0 <= i < |r| ==> r[i] in c && !(r[i].isIntent && r[i].txn == t))
            && (forall i :: 0 <= i < |c| && !(c[i].isIntent && c[i].txn == t) ==> c[i] in r)
  {
    if c != [] {
      DropIntentsKeeps(c[..|c| - 1], t);
      assert c == c[..|c| - 1] + [c[|c| - 1]];
      var r, r' := DropIntents(c, t), DropIntents(c[..|c| - 1], t);
      forall i | 0 <= i < |c| && !(c[i].isIntent && c[i].txn == t)
        ensures c[i] in r
      {
        if i < |c| - 1 { assert c[..|c| - 1][i] in r'; }
      }
    }
  }

  // Dropping the only intent leaves a chain with no intents at all.
  lemma DropClears(c: Chain, t: TxnId)
    requires OneIntent(c)
    requires LastIntent(c) >= 0 && c[LastIntent(c)].txn == t
    ensures LastIntent(DropIntents(c, t)) == -1
    ensures forall ts, v :: HasVersion(DropIntents(c, t), ts, v) <==> HasVersion(c, ts, v)
  {
    var r := DropIntents(c, t);
    DropIntentsKeeps(c, t);
    forall i | 0 <= i < |r| ensures !r[i].isIntent {
      var j :| 0 <= j < |c| && c[j] == r[i];
      assert j != LastIntent(c);
    }
    forall ts, v ensures HasVersion(r, ts, v) <==> HasVersion(c, ts, v) {
      if HasVersion(r, ts, v) {
        var i :| 0 <= i < |r| && !r[i].isIntent && r[i].version == ts && r[i].value == v;
        var j :| 0 <= j < |c| && c[j] == r[i];
      }
      if HasVersion(c, ts, v) {
        var i :| 0 <= i < |c| && !c[i].isIntent && c[i].version == ts && c[i].value == v;
        assert c[i] in r;
      }
    }
  }

  /**
   A write is refused exactly when another transaction's intent is on the key;
   otherwise it becomes the key's one intent and no committed version changes.
   */
  lemma WriteChainMeaning(c: Chain, t: TxnId, v: Stored)
    requires OneIntent(c)
    ensures WriteChain(c, t, v).Err? <==> Intent(c).Some? && Intent(c).value.0 != t
    ensures WriteChain(c, t, v).Ok? ==>
              var r := WriteChain(c, t, v).value;
              && OneIntent(r)
              && Intent(r) == Some((t, v))
              && forall ts, x :: HasVersion(r, ts, x) <==> HasVersion(c, ts, x)
  {
    if WriteChain(c, t, v).Ok? {
      var r := WriteChain(c, t, v).value;
      var i := LastIntent(c);
      var base := if i >= 0 then DropIntents(c, t) else c;
      if i >= 0 { DropClears(c, t); }
      assert LastIntent(base) == -1;
      assert LastIntent(r) == |r| - 1;
      forall ts, x ensures HasVersion(r, ts, x) <==> HasVersion(c, ts, x) {
        if HasVersion(base, ts, x) {
          var j :| 0 <= j < |base| && !base[j].isIntent && base[j].version == ts && base[j].value == x;
          assert r[j] == base[j];
        }
      }
    }
  }

  /** Committing turns the transaction's intent into a version and touches nothing else. */
  lemma CommitChainMeaning(c: Chain, t: TxnId, ts: Timestamp)
    requires OneIntent(c)
    ensures var r := CommitChain(c, t, ts);
            var mine := Intent(c).Some? && Intent(c).value.0 == t;
            && OneIntent(r)
            && (mine ==> Intent(r) == None)
            && (!mine ==> r == c)
            && forall ts', x :: HasVersion(r, ts', x) <==>
                 HasVersion(c, ts', x) || (mine && ts' == ts && x == Intent(c).value.1)
  {
    var i := LastIntentOf(c, t);
    var r := CommitChain(c, t, ts);
    var k := LastIntent(c);
    if i >= 0 {
      assert i == k;
      assert LastIntent(r) == -1;
      forall ts', x
        ensures HasVersion(r, ts', x) <==> HasVersion(c, ts', x) || (ts' == ts && x == c[i].value)
      {
        if HasVersion(c, ts', x) {
          var j :| 0 <= j < |c| && !c[j].isIntent && c[j].version == ts' && c[j].value == x;
          assert r[j] == c[j];
        }
        if ts' == ts && x == c[i].value { assert !r[i].isIntent; }
        if HasVersion(r, ts', x) {
          var j :| 0 <= j < |r| && !r[j].isIntent && r[j].version == ts' && r[j].value == x;
          if j != i { assert c[j] == r[j]; }
        }
      }
    }
  }

  /** Aborting removes the transaction's intent and touches nothing else. */
  lemma AbortChainMeaning(c: Chain, t: TxnId)
    requires OneIntent(c)
    ensures var r := DropIntents(c, t);
            var mine := Intent(c).Some? && Intent(c).value.0 == t;
            && OneIntent(r)
            && (mine ==> Intent(r) == None)
            && (!mine ==> r == c)
            && forall ts, x :: HasVersion(r, ts, x) <==> HasVersion(c, ts, x)
  {
    var k := LastIntent(c);
    if k >= 0 && c[k].txn == t { DropClears(c, t); } else { DropNothing(c, t); }
  }

  lemma {:induction false} DropNothing(c: Chain, t: TxnId)
    requires forall i :: 0 <= i < |c| ==> !(c[i].isIntent && c[i].txn == t)
    ensures DropIntents(c, t) == c
  {
    if c != [] { DropNothing(c[..|c| - 1], t); }
  }

  // ------------------------------------------------------------------- reads

  /** Position of the newest version visible at `ts`, the last of equals, or -1. */
  function NewestVisible(c: Chain, ts: Timestamp): (i: int)
    ensures -1 <= i < |c|
    ensures i >= 0 ==> !c[i].isIntent && c[i].version <= ts
    ensures forall j :: 0 <= j < |c| && !c[j].isIntent && c[j].version <= ts ==>
              i >= 0 && c[j].version <= c[i].version
  {
    if c == [] then -1
    else
      var i := NewestVisible(c[..|c| - 1], ts);
      var v := c[|c| - 1];
      assert forall j :: 0 <= j < |c| - 1 ==> c[..|c| - 1][j] == c[j];
      if !v.isIntent && v.version <= ts && (i < 0 || c[i].version <= v.version) then |c| - 1 else i
  }

  /** `VersionChain::read`: the newest visible value, absent behind a tombstone. */
  function Read(c: Chain, ts: Timestamp): Option<Bytes>
  {
    var i := NewestVisible(c, ts);
    if i < 0 then None else c[i].value
  }

  // ------------------------------------------------------------------ engine

  type Store = map<Key, Chain>

  /** The chain of a key; a key never written has the empty one. */
  function ChainOf(s: Store, k: Key): Chain {
    if k in s then s[k] else []
  }

  ghost predicate Holds(s: Store, t: TxnId, k: Key) {
    var i := Intent(ChainOf(s, k));
    i.Some? && i.value.0 == t
  }

  ghost predicate Version(s: Store, k: Key, ts: Timestamp, v: Stored) {
    HasVersion(ChainOf(s, k), ts, v)
  }

  ghost predicate NoIntents(s: Store) {
    forall k :: Intent(ChainOf(s, k)) == None
  }

  /** Each chain has at most one intent, and `intents` lists exactly the keys held. */
  ghost predicate Consistent(s: Store, intents: map<TxnId, seq<Key>>) {
    && (forall k :: k in s ==> OneIntent(s[k]))
    && (forall t, k :: Holds(s, t, k) <==> t in intents && k in intents[t])
  }

  ghost predicate SameVersions(s: Store, s': Store) {
    forall k, ts, x :: Version(s', k, ts, x) <==> Version(s, k, ts, x)
  }

  /** Only `k` changed, and its intent is now `t`'s write of `v`. */
  ghost predicate WriteStep(s: Store, s': Store, t: TxnId, k: Key, v: Stored) {
    && (forall k' :: k' != k ==> ChainOf(s', k') == ChainOf(s, k'))
    && Intent(ChainOf(s', k)) == Some((t, v))
    && SameVersions(s, s')
  }

  /** Exactly `t`'s keys changed, and they lost their intent. */
  ghost predicate Released(s: Store, s': Store, t: TxnId) {
    forall k :: if Holds(s, t, k) then Intent(ChainOf(s', k)) == None else ChainOf(s', k) == ChainOf(s, k)
  }

  /** Exactly `t`'s intents became versions at `ts`. */
  ghost predicate CommitStep(s: Store, s': Store, t: TxnId, ts: Timestamp) {
    && Released(s, s', t)
    && forall k, ts', x :: Version(s', k, ts', x) <==>
         Version(s, k, ts', x) || (ts' == ts && Intent(ChainOf(s, k)) == Some((t, x)))
  }

  /** Exactly `t`'s intents were dropped. */
  ghost predicate AbortStep(s: Store, s': Store, t: TxnId) {
    Released(s, s', t) && SameVersions(s, s')
  }

  function CommitKeys(s: Store, keys: seq<Key>, t: TxnId, ts: Timestamp): Store {
    map k | k in s :: if k in keys then CommitChain(s[k], t, ts) else s[k]
  }

  function AbortKeys(s: Store, keys: seq<Key>, t: TxnId): Store {
    map k | k in s :: if k in keys then DropIntents(s[k], t) else s[k]
  }

  lemma CommitKeysMeaning(s: Store, keys: seq<Key>, t: TxnId, ts: Timestamp)
    requires forall k :: k in s ==> OneIntent(s[k])
    requires forall k :: Holds(s, t, k) <==> k in keys
    ensures CommitStep(s, CommitKeys(s, keys, t, ts), t, ts)
    ensures forall k :: k in s ==> OneIntent(CommitKeys(s, keys, t, ts)[k])
  {
    var s' := CommitKeys(s, keys, t, ts);
    forall k | k in s { CommitChainMeaning(s[k], t, ts); }
    forall k, ts', x
      ensures Version(s', k, ts', x) <==>
        Version(s, k, ts', x) || (ts' == ts && Intent(ChainOf(s, k)) == Some((t, x)))
    {
      if k in s {
        CommitChainMeaning(s[k], t, ts);
        assert Holds(s, t, k) <==> k in keys;
      }
    }
    forall k
      ensures if Holds(s, t, k) then Intent(ChainOf(s', k)) == None else ChainOf(s', k) == ChainOf(s, k)
    {
      if k in s { CommitChainMeaning(s[k], t, ts); }
    }
  }

  lemma AbortKeysMeaning(s: Store, keys: seq<Key>, t: TxnId)
    requires forall k :: k in s ==> OneIntent(s[k])
    requires forall k :: Holds(s, t, k) <==> k in keys
    ensures AbortStep(s, AbortKeys(s, keys, t), t)
    ensures forall k :: k in s ==> OneIntent(AbortKeys(s, keys, t)[k])
  {
    var s' := AbortKeys(s, keys, t);
    forall k | k in s { AbortChainMeaning(s[k], t); }
    forall k, ts, x ensures Version(s', k, ts, x) <==> Version(s, k, ts, x) {
      if k in s { AbortChainMeaning(s[k], t); }
    }
    forall k
      ensures if Holds(s, t, k) then Intent(ChainOf(s', k)) == None else ChainOf(s', k) == ChainOf(s, k)
    {
      if k in s { AbortChainMeaning(s[k], t); }
    }
  }

  // A key listed twice is finished by its first visit.
  lemma CommitTwice(c: Chain, t: TxnId, ts: Timestamp)
    requires OneIntent(c)
    ensures CommitChain(CommitChain(c, t, ts), t, ts) == CommitChain(c, t, ts)
  {
    CommitChainMeaning(c, t, ts);
  }

  lemma DropTwice(c: Chain, t: TxnId)
    ensures DropIntents(DropIntents(c, t), t) == DropIntents(c, t)
  {
    DropIntentsKeeps(c, t);
    DropNothing(DropIntents(c, t), t);
  }

  lemma TouchNone(s: Store, t: TxnId, ts: Timestamp)
    ensures CommitKeys(s, [], t, ts) == s && AbortKeys(s, [], t) == s
  {
  }

  lemma CommitOneMore(s: Store, keys: seq<Key>, k: Key, t: TxnId, ts: Timestamp)
    requires forall k :: k in s ==> OneIntent(s[k])
    ensures var done := CommitKeys(s, keys, t, ts);
            CommitKeys(s, keys + [k], t, ts) == if k in s then done[k := CommitChain(done[k], t, ts)] else done
  {
    hide CommitChain, OneIntent;
    if k in s { CommitTwice(s[k], t, ts); }
  }

  lemma AbortOneMore(s: Store, keys: seq<Key>, k: Key, t: TxnId)
    ensures var done := AbortKeys(s, keys, t);
            AbortKeys(s, keys + [k], t) == if k in s then done[k := DropIntents(done[k], t)] else done
  {
    hide DropIntents;
    if k in s { DropTwice(s[k], t); }
  }

  class MemKvEngine {
    var store: Store
    var intents: map<TxnId, seq<Key>>

    ghost predicate Valid()
      reads this
    {
      Consistent(store, intents)
    }

    constructor ()
      ensures Valid() && NoIntents(store) && store == map[]
    {
      store := map[];
      intents := map[];
    }

    /** `KvEngine::get`. */
    method Get(k: Key, ts: Timestamp) returns (r: Option<Bytes>)
      ensures r == Read(ChainOf(store, k), ts)
    {
      r := None;
      if k in store { r := Read(store[k], ts); }
    }

    /** `write_intent` (`v` a value) and `delete_intent` (`v` a tombstone). */
    method WriteIntent(t: TxnId, k: Key, v: Stored) returns (r: Result<(), KvError>)
      requires Valid()
      modifies this
      ensures Valid()
      ensures r.Err? <==> exists u :: u != t && Holds(old(store), u, k)
      ensures r.Ok? ==> WriteStep(old(store), store, t, k, v)
      ensures r.Err? ==> forall k' :: ChainOf(store, k') == ChainOf(old(store), k')
    {
      hide OneIntent, Intent, WriteChain, HasVersion;
      if k !in store { store := store[k := []]; }
      var w := WriteChain(store[k], t, v);
      if w.Err? {
        WriteRefused(old(store), intents, t, k, v);
        assert store == old(store)[k := ChainOf(old(store), k)];
        return Err(w.error);
      }
      store := store[k := w.value];
      intents := intents[t := (if t in intents then intents[t] else []) + [k]];
      Written(old(store), old(intents), t, k, v);
      assert store == old(store)[k := w.value];
      r := Ok(());
    }

    /** `commit`: every intent of the transaction becomes a version at `ts`. */
    method Commit(t: TxnId, ts: Timestamp)
      requires Valid()
      modifies this
      ensures Valid()
      ensures CommitStep(old(store), store, t, ts)
    {
      hide OneIntent, CommitChain, CommitStep, CommitKeys;
      if t in intents {
        var keys := intents[t];
        intents := intents - {t};
        ghost var before := store;
        TouchNone(before, t, ts);
        for n := 0 to |keys|
          invariant intents == old(intents) - {t}
          invariant store.Keys == before.Keys
          invariant store == CommitKeys(before, keys[..n], t, ts)
        {
          var k := keys[n];
          CommitOneMore(before, keys[..n], k, t, ts);
          assert keys[..n + 1] == keys[..n] + [k];
          if k in store {
            store := store[k := CommitChain(store[k], t, ts)];
          }
        }
        assert keys[..|keys|] == keys;
        CommittedAll(before, old(intents), t, ts);
      } else {
        NothingHeld(store, intents, t);
      }
    }

    /** `abort`: every intent of the transaction is dropped. */
    method Abort(t: TxnId)
      requires Valid()
      modifies this
      ensures Valid()
      ensures AbortStep(old(store), store, t)
    {
      hide Consistent, DropIntents, AbortStep, AbortKeys;
      if t in intents {
        var keys := intents[t];
        intents := intents - {t};
        ghost var before := store;
        TouchNone(before, t, 0);
        for n := 0 to |keys|
          invariant intents == old(intents) - {t}
          invariant store.Keys == before.Keys
          invariant store == AbortKeys(before, keys[..n], t)
        {
          var k := keys[n];
          AbortOneMore(before, keys[..n], k, t);
          assert keys[..n + 1] == keys[..n] + [k];
          if k in store {
            store := store[k := DropIntents(store[k], t)];
          }
        }
        assert keys[..|keys|] == keys;
        AbortedAll(before, old(intents), t);
      } else {
        NothingHeld(store, intents, t);
      }
    }
  }

  lemma WriteRefused(s: Store, intents: map<TxnId, seq<Key>>, t: TxnId, k: Key, v: Stored)
    requires Consistent(s, intents) && WriteChain(ChainOf(s, k), t, v).Err?
    ensures var s' := s[k := ChainOf(s, k)];
            && Consistent(s', intents)
            && forall k' :: ChainOf(s', k') == ChainOf(s, k')
    ensures exists u :: u != t && Holds(s, u, k)
  {
    var s' := s[k := ChainOf(s, k)];
    WriteChainMeaning(ChainOf(s, k), t, v);
    assert Holds(s, Intent(ChainOf(s, k)).value.0, k);
    forall u, k' ensures Holds(s', u, k') <==> Holds(s, u, k') {}
  }

  lemma Written(s: Store, intents: map<TxnId, seq<Key>>, t: TxnId, k: Key, v: Stored)
    requires Consistent(s, intents) && WriteChain(ChainOf(s, k), t, v).Ok?
    ensures var s' := s[k := WriteChain(ChainOf(s, k), t, v).value];
            && Consistent(s', intents[t := (if t in intents then intents[t] else []) + [k]])
            && WriteStep(s, s', t, k, v)
    ensures !exists u :: u != t && Holds(s, u, k)
  {
    var c := ChainOf(s, k);
    WriteChainMeaning(c, t, v);
    var s' := s[k := WriteChain(c, t, v).value];
    var intents' := intents[t := (if t in intents then intents[t] else []) + [k]];
    forall u, k' ensures Holds(s', u, k') <==> u in intents' && k' in intents'[u] {
      assert Holds(s, u, k') <==> u in intents && k' in intents[u];
      if k' != k { assert ChainOf(s', k') == ChainOf(s, k'); }
    }
    forall k', ts, x ensures Version(s', k', ts, x) <==> Version(s, k', ts, x) {
      if k' != k { assert ChainOf(s', k') == ChainOf(s, k'); }
    }
  }

  lemma CommittedAll(s: Store, intents: map<TxnId, seq<Key>>, t: TxnId, ts: Timestamp)
    requires Consistent(s, intents) && t in intents
    ensures CommitStep(s, CommitKeys(s, intents[t], t, ts), t, ts)
    ensures Consistent(CommitKeys(s, intents[t], t, ts), intents - {t})
  {
    CommitKeysMeaning(s, intents[t], t, ts);
    ReleasedConsistent(s, CommitKeys(s, intents[t], t, ts), t, intents);
  }

  lemma AbortedAll(s: Store, intents: map<TxnId, seq<Key>>, t: TxnId)
    requires Consistent(s, intents) && t in intents
    ensures AbortStep(s, AbortKeys(s, intents[t], t), t)
    ensures Consistent(AbortKeys(s, intents[t], t), intents - {t})
  {
    AbortKeysMeaning(s, intents[t], t);
    ReleasedConsistent(s, AbortKeys(s, intents[t], t), t, intents);
  }

  lemma NothingHeld(s: Store, intents: map<TxnId, seq<Key>>, t: TxnId)
    requires Consistent(s, intents) && t !in intents
    ensures AbortStep(s, s, t) && forall ts :: CommitStep(s, s, t, ts)
  {
    forall k ensures !Holds(s, t, k) {}
    forall k, x: Stored ensures Intent(ChainOf(s, k)) != Some((t, x)) { assert !Holds(s, t, k); }
  }

  lemma ReleasedConsistent(s: Store, s': Store, t: TxnId, intents: map<TxnId, seq<Key>>)
    requires Consistent(s, intents) && Released(s, s', t)
    requires forall k :: k in s' ==> OneIntent(s'[k])
    ensures Consistent(s', intents - {t})
  {
    forall u, k ensures Holds(s', u, k) <==> u in intents - {t} && k in (intents - {t})[u] {
      assert Holds(s, u, k) <==> u in intents && k in intents[u];
    }
  }
}

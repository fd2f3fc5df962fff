/**
 What retained backups protect: which archived WAL segments may lose their local copy, and how
 far version garbage collection may go (crates/nodus_backup/src/lib.rs,
 `RetentionView`; crates/nodus_mvcc/src/lib.rs, `VersionChain::garbage_collect`).
 */
module Retention {
  import opened Wrappers
  import opened Mvcc
  import opened WalPlan
  import Wal

  /** A completed backup as retention sees it. */
  datatype Retained = Retained(snapshot: Timestamp, isProtected: bool)

  /** One repository scan: completed backups, unreadable manifests, archived indexes. */
  datatype View = View(completed: seq<Retained>, unreadable: nat, indexes: seq<WalArchiveIndex>)

  datatype RetentionError = NoProtectedTimestamps

  /** The oldest protected snapshot. */
  function Oldest(cs: seq<Retained>): (o: Option<Timestamp>)
    ensures o.None? <==> forall i :: 0 <= i < |cs| ==> !cs[i].isProtected
    ensures o.Some? ==> exists i :: 0 <= i < |cs| && cs[i].isProtected && cs[i].snapshot == o.value
    ensures o.Some? ==> forall i :: 0 <= i < |cs| && cs[i].isProtected ==> o.value <= cs[i].snapshot
  {
    if cs == [] then None
    else
      var n := |cs| - 1;
      var rest := Oldest(cs[..n]);
      assert forall i :: 0 <= i < n ==> cs[..n][i] == cs[i];
      if !cs[n].isProtected then rest
      else if rest.None? || cs[n].snapshot <= rest.value then Some(cs[n].snapshot)
      else rest
  }

  /** `protected_gc_watermark`: the least protected snapshot, or zero while a manifest is unreadable. */
  function GcWatermark(view: View): (w: Option<Timestamp>)
    ensures w.Some? ==> forall i :: 0 <= i < |view.completed| && view.completed[i].isProtected ==> w.value <= view.completed[i].snapshot
    ensures w.Some? && view.unreadable == 0 ==>
              exists i :: 0 <= i < |view.completed| && view.completed[i].isProtected && view.completed[i].snapshot == w.value
    ensures w.None? <==> view.unreadable == 0 && forall i :: 0 <= i < |view.completed| ==> !view.completed[i].isProtected
    ensures view.unreadable > 0 ==> w == Some(0)
  {
    if view.unreadable > 0 then Some(0) else Oldest(view.completed)
  }

  /** Position of the segment's index, or the length. */
  function Find(xs: seq<WalArchiveIndex>, id: nat): (i: nat)
    ensures i <= |xs|
    ensures i < |xs| ==> xs[i].id == id
    ensures forall j :: 0 <= j < i ==> xs[j].id != id
  {
    if xs == [] || xs[0].id == id then 0 else 1 + Find(xs[1..], id)
  }

  /** Some archived segment commits `t` at or after `oldest`. */
  ghost predicate CommittedSince(xs: seq<WalArchiveIndex>, oldest: Timestamp, t: TxnId) {
    exists i, j :: 0 <= i < |xs| && 0 <= j < |xs[i].committed| && xs[i].committed[j].0 == t && xs[i].committed[j].1 >= oldest
  }

  /** The segment is completely uploaded, and its index proves that nothing since `oldest` needs it. */
  ghost predicate Spent(xs: seq<WalArchiveIndex>, x: WalArchiveIndex, oldest: Timestamp) {
    && x.uploaded
    && (x.lastCommitTs.Some? ==> x.lastCommitTs.value < oldest)
    && forall t :: t in x.recordTxns ==> !CommittedSince(xs, oldest, t)
  }

  ghost function Allowed(view: View, id: nat): Result<bool, RetentionError> {
    if view.unreadable > 0 then Ok(false)
    else if view.completed == [] then Ok(true)
    else if Oldest(view.completed).None? then Err(NoProtectedTimestamps)
    else
      var i := Find(view.indexes, id);
      Ok(i < |view.indexes| && Spent(view.indexes, view.indexes[i], Oldest(view.completed).value))
  }

  /** `wal_segment_cleanup_allowed`. */
  method WalSegmentCleanupAllowed(view: View, id: nat) returns (r: Result<bool, RetentionError>)
    ensures r == Allowed(view, id)
  {
    if view.unreadable > 0 { return Ok(false); }
    if view.completed == [] { return Ok(true); }
    var oldest := Oldest(view.completed);
    if oldest.None? { return Err(NoProtectedTimestamps); }
    var at := Find(view.indexes, id);
    if at == |view.indexes| { return Ok(false); }
    var index := view.indexes[at];
    if !index.uploaded { return Ok(false); }
    if index.lastCommitTs.Some? && index.lastCommitTs.value >= oldest.value { return Ok(false); }
    var since: set<TxnId> := {};
    var xs := view.indexes;
    for i := 0 to |xs|
      invariant forall t :: t in since <==> CommittedSince(xs[..i], oldest.value, t)
    {
      var cs := xs[i].committed;
      ghost var before := since;
      for j := 0 to |cs|
        invariant forall t :: t in since <==> t in before || exists m :: 0 <= m < j && cs[m].0 == t && cs[m].1 >= oldest.value
      {
        if cs[j].1 >= oldest.value { since := since + {cs[j].0}; }
      }
      forall t ensures t in since <==> CommittedSince(xs[..i + 1], oldest.value, t) { SinceSnoc(xs, i, oldest.value, t); }
    }
    assert xs[..|xs|] == xs;
    for i := 0 to |index.recordTxns|
      invariant forall j :: 0 <= j < i ==> index.recordTxns[j] !in since
    {
      if index.recordTxns[i] in since {
        assert CommittedSince(xs, oldest.value, index.recordTxns[i]);
        return Ok(false);
      }
    }
    r := Ok(true);
  }

  lemma SinceSnoc(xs: seq<WalArchiveIndex>, i: nat, oldest: Timestamp, t: TxnId)
    requires i < |xs|
    ensures CommittedSince(xs[..i + 1], oldest, t) <==>
              CommittedSince(xs[..i], oldest, t) ||
              exists m :: 0 <= m < |xs[i].committed| && xs[i].committed[m].0 == t && xs[i].committed[m].1 >= oldest
  {
    if CommittedSince(xs[..i], oldest, t) {
      var a, b :| 0 <= a < i && 0 <= b < |xs[..i][a].committed| && xs[..i][a].committed[b].0 == t && xs[..i][a].committed[b].1 >= oldest;
      assert xs[..i + 1][a] == xs[a];
    }
    if m :| 0 <= m < |xs[i].committed| && xs[i].committed[m].0 == t && xs[i].committed[m].1 >= oldest {
      assert xs[..i + 1][i] == xs[i];
    }
    if CommittedSince(xs[..i + 1], oldest, t) {
      var a, b :| 0 <= a < i + 1 && 0 <= b < |xs[..i + 1][a].committed| && xs[..i + 1][a].committed[b].0 == t && xs[..i + 1][a].committed[b].1 >= oldest;
      if a < i { assert xs[..i][a] == xs[a]; }
    }
  }

  /** Indexes as `archive_wal_indexed` writes them: the last commit is the greatest. */
  ghost predicate Faithful(xs: seq<WalArchiveIndex>) {
    forall i :: 0 <= i < |xs| ==> xs[i].lastCommitTs == MaxTs(xs[i].committed)
  }

  /**
   A segment that cleanup allows while backups are retained is in the needed set of no
   point-in-time plan from a protected one, to any target, on any timeline and above any floor.
   */
  lemma CleanupNeverTakesANeededSegment(view: View, x: WalArchiveIndex, backup: Retained, target: Timestamp, timeline: string, floor: nat)
    requires Faithful(view.indexes) && DistinctIds(view.indexes) && x in view.indexes
    requires backup in view.completed && backup.isProtected
    requires Allowed(view, x.id) == Ok(true)
    ensures !Needed(Live(view.indexes, timeline, floor), x, backup.snapshot, target)
  {
    var xs, oldest := view.indexes, Oldest(view.completed).value;
    var bi :| 0 <= bi < |view.completed| && view.completed[bi] == backup;
    assert oldest <= backup.snapshot;
    var i := Find(xs, x.id);
    var j :| 0 <= j < |xs| && xs[j] == x;
    assert i == j;
    assert Spent(xs, x, oldest);
    forall t: TxnId ensures !CommitsInWindow(x, t, backup.snapshot, target) {
      if CommitsInWindow(x, t, backup.snapshot, target) { WindowCommitIsRecent(x, t, backup.snapshot, target); }
    }
    forall t | t in x.recordTxns ensures !NeededTxn(Live(xs, timeline, floor), t, backup.snapshot, target) {
      if NeededTxn(Live(xs, timeline, floor), t, backup.snapshot, target) {
        NeededTxnIsRecent(xs, timeline, floor, t, backup.snapshot, target, oldest);
      }
    }
  }

  lemma WindowCommitIsRecent(x: WalArchiveIndex, t: TxnId, snapshot: Timestamp, target: Timestamp)
    requires CommitsInWindow(x, t, snapshot, target) && x.lastCommitTs == MaxTs(x.committed)
    ensures x.lastCommitTs.Some? && x.lastCommitTs.value > snapshot
  {
    var ts: Timestamp :| (t, ts) in x.committed && InWindow(ts, snapshot, target);
    var m :| 0 <= m < |x.committed| && x.committed[m] == (t, ts);
  }

  lemma NeededTxnIsRecent(xs: seq<WalArchiveIndex>, timeline: string, floor: nat, t: TxnId,
                          snapshot: Timestamp, target: Timestamp, oldest: Timestamp)
    requires NeededTxn(Live(xs, timeline, floor), t, snapshot, target) && oldest <= snapshot
    ensures CommittedSince(xs, oldest, t)
  {
    LiveMeaning(xs, timeline, floor);
    var y :| y in Live(xs, timeline, floor) && CommitsInWindow(y, t, snapshot, target);
    var ts: Timestamp :| (t, ts) in y.committed && InWindow(ts, snapshot, target);
    SinceFrom(xs, y, t, ts, oldest);
  }

  lemma SinceFrom(xs: seq<WalArchiveIndex>, y: WalArchiveIndex, t: TxnId, ts: Timestamp, oldest: Timestamp)
    requires y in xs && (t, ts) in y.committed && ts >= oldest
    ensures CommittedSince(xs, oldest, t)
  {
    var i :| 0 <= i < |xs| && xs[i] == y;
    var m :| 0 <= m < |y.committed| && y.committed[m] == (t, ts);
  }

  /**
   Deleting backups never turns a permission into a denial. It turns it into an error
   exactly when backups remain and none of them is protected.
   */
  lemma DeletingKeepsPermission(view: View, kept: seq<Retained>, id: nat)
    requires forall b :: b in kept ==> b in view.completed
    requires Allowed(view, id) == Ok(true)
    ensures var r := Allowed(view.(completed := kept), id);
            if kept != [] && forall b :: b in kept ==> !b.isProtected then r == Err(NoProtectedTimestamps) else r == Ok(true)
  {
    var view' := view.(completed := kept);
    if kept != [] {
      assert Oldest(kept).None? <==> forall b :: b in kept ==> !b.isProtected;
      if Oldest(kept).Some? {
        var i :| 0 <= i < |kept| && kept[i].isProtected && kept[i].snapshot == Oldest(kept).value;
        assert kept[i] in view.completed;
        var j :| 0 <= j < |view.completed| && view.completed[j] == kept[i];
        assert Oldest(view.completed).value <= Oldest(kept).value;
        SpentForLonger(view.indexes, view.indexes[Find(view.indexes, id)], Oldest(view.completed).value, Oldest(kept).value);
      }
    }
  }

  /**
   A protected and an unprotected backup: with the protected one deleted, a segment that could be
   reclaimed can no longer be asked about.
   */
  lemma LastProtectedDeleted()
    ensures var index := WalArchiveIndex(1, "t", 1, Some(3), Some(3), [7], [(7, 3)], None, 9, WalObject(9, [Wal.BeginTxn(7), Wal.CommitTxn(7, 3)]), true);
            var view := View([Retained(5, true), Retained(9, false)], 0, [index]);
            && Allowed(view, 1) == Ok(true)
            && Allowed(view.(completed := [Retained(9, false)]), 1) == Err(NoProtectedTimestamps)
  {
    var index := WalArchiveIndex(1, "t", 1, Some(3), Some(3), [7], [(7, 3)], None, 9, WalObject(9, [Wal.BeginTxn(7), Wal.CommitTxn(7, 3)]), true);
    var completed := [Retained(5, true), Retained(9, false)];
    var view := View(completed, 0, [index]);
    assert completed[0].isProtected && Oldest(completed) == Some(5);
    assert Find([index], 1) == 0;
    assert Spent([index], index, 5);
    DeletingKeepsPermission(view, [Retained(9, false)], 1);
  }

  lemma SpentForLonger(xs: seq<WalArchiveIndex>, x: WalArchiveIndex, oldest: Timestamp, later: Timestamp)
    requires Spent(xs, x, oldest) && oldest <= later
    ensures Spent(xs, x, later)
  {
    forall t | t in x.recordTxns ensures !CommittedSince(xs, later, t) {
      assert !CommittedSince(xs, oldest, t);
    }
  }

  // ------------------------------------------------------- garbage collection

  /** Whether a collected chain sits above older sources or is the key's whole history. */
  datatype GcMode = Layered | Complete

  function Retain(c: Chain, keep: MvccValue -> bool): (r: Chain) {
    if c == [] then []
    else Retain(c[..|c| - 1], keep) + if keep(c[|c| - 1]) then [c[|c| - 1]] else []
  }

  /** The greatest version in the chain, intents included; 0 when it is empty. */
  function MaxVersion(c: Chain): (m: Timestamp)
    ensures forall i :: 0 <= i < |c| ==> c[i].version <= m
    ensures c != [] ==> exists i :: 0 <= i < |c| && c[i].version == m
  {
    if c == [] then 0
    else
      var n := |c| - 1;
      var rest := MaxVersion(c[..n]);
      assert forall i :: 0 <= i < n ==> c[..n][i] == c[i];
      if n == 0 || c[n].version >= rest then c[n].version else rest
  }

  /** Position of the first element with that version. */
  function FirstAt(c: Chain, version: Timestamp): (i: nat)
    requires exists j :: 0 <= j < |c| && c[j].version == version
    ensures i < |c| && c[i].version == version
  {
    if c[0].version == version then 0
    else
      assert exists j :: 0 <= j < |c[1..]| && c[1..][j].version == version by {
        var j :| 0 <= j < |c| && c[j].version == version;
        assert c[1..][j - 1] == c[j];
      }
      1 + FirstAt(c[1..], version)
  }

  /** Committed versions other than the one kept, at or below it: what the sorted list holds past it. */
  function Superseded(c: Chain, kept: int): nat
    requires 0 <= kept < |c|
  {
    var same := Retain(c, (v: MvccValue) => !v.isIntent && v.version <= c[kept].version);
    if |same| > 0 then |same| - 1 else 0
  }

  /** The first cut: everything committed before the version visible at the watermark. */
  function Trimmed(c: Chain, kept: int): Chain
    requires 0 <= kept < |c|
  {
    Retain(c, (v: MvccValue) => v.isIntent || v.version >= c[kept].version)
  }

  /** `VersionChain::garbage_collect`, as what is left of the chain. */
  function Collect(c: Chain, watermark: Timestamp, mode: GcMode): Chain {
    var kept := NewestVisible(c, watermark);
    if kept < 0 || Superseded(c, kept) == 0 then c
    else
      var trimmed := Trimmed(c, kept);
      if mode.Layered? || trimmed == [] then trimmed
      else
        var newest := MaxVersion(trimmed);
        var at := FirstAt(trimmed, newest);
        if newest <= watermark && trimmed[at].value.None? && !trimmed[at].isIntent
        then Retain(trimmed, (v: MvccValue) => v.version != newest)
        else trimmed
  }

  lemma {:induction false} RetainKeeps(c: Chain, keep: MvccValue -> bool)
    ensures forall v :: v in Retain(c, keep) <==> v in c && keep(v)
  {
    if c != [] {
      RetainKeeps(c[..|c| - 1], keep);
      assert forall v :: v in c <==> v in c[..|c| - 1] || v == c[|c| - 1];
    }
  }

  lemma {:induction false} RetainNone(c: Chain, keep: MvccValue -> bool)
    requires forall v :: v in c ==> !keep(v)
    ensures Retain(c, keep) == []
  {
    if c != [] { RetainNone(c[..|c| - 1], keep); }
  }

  lemma NewestSnoc(c: Chain, v: MvccValue, ts: Timestamp)
    ensures var i := NewestVisible(c, ts);
            NewestVisible(c + [v], ts) ==
              if !v.isIntent && v.version <= ts && (i < 0 || c[i].version <= v.version) then |c| else i
  {
    assert (c + [v])[..|c|] == c;
  }

  // A filter that keeps every committed version from `bound` up does not move a read
  // that finds one of those.
  lemma {:induction false} RetainReads(c: Chain, keep: MvccValue -> bool, ts: Timestamp, bound: Timestamp)
    requires forall v: MvccValue :: !v.isIntent && v.version >= bound ==> keep(v)
    ensures var r := Retain(c, keep);
            var i, j := NewestVisible(c, ts), NewestVisible(r, ts);
            if i >= 0 && c[i].version >= bound then j >= 0 && r[j].version == c[i].version && r[j].value == c[i].value
            else j < 0 || r[j].version < bound
  {
    hide NewestVisible;
    if c != [] {
      var init, v := c[..|c| - 1], c[|c| - 1];
      RetainReads(init, keep, ts, bound);
      var r := Retain(init, keep);
      assert c == init + [v];
      NewestSnoc(init, v, ts);
      assert Retain(c, keep) == if keep(v) then r + [v] else r;
      NewestSnoc(r, v, ts);
    }
  }

  /** The chain of a key whose intents are unversioned and whose versions are unambiguous. */
  ghost predicate Sound(c: Chain) {
    && (forall i :: 0 <= i < |c| && c[i].isIntent ==> c[i].version == INTENT_VERSION)
    && (forall i, j :: 0 <= i < |c| && 0 <= j < |c| && !c[i].isIntent && !c[j].isIntent && c[i].version == c[j].version ==> c[i].value == c[j].value)
  }

  lemma TrimmedReads(c: Chain, kept: int, watermark: Timestamp, ts: Timestamp)
    requires kept == NewestVisible(c, watermark) && kept >= 0 && watermark <= ts
    ensures var r := Trimmed(c, kept);
            && Read(r, ts) == Read(c, ts)
            && NewestVisible(r, ts) >= 0
  {
    var keep := (v: MvccValue) => v.isIntent || v.version >= c[kept].version;
    RetainReads(c, keep, ts, c[kept].version);
  }

  // When the newest version of all is at or below the watermark, only that version is left.
  lemma OnlyTheNewestLeft(c: Chain, kept: int, watermark: Timestamp)
    requires Sound(c) && watermark < INTENT_VERSION
    requires kept == NewestVisible(c, watermark) && kept >= 0
    requires MaxVersion(Trimmed(c, kept)) <= watermark
    ensures forall v :: v in Trimmed(c, kept) ==> v in c && !v.isIntent && v.version == MaxVersion(Trimmed(c, kept))
  {
    hide NewestVisible;
    var r := Trimmed(c, kept);
    RetainKeeps(c, (v: MvccValue) => v.isIntent || v.version >= c[kept].version);
    forall v | v in r ensures v in c && !v.isIntent && v.version == c[kept].version {
      var i :| 0 <= i < |c| && c[i] == v;
      var j :| 0 <= j < |r| && r[j] == v;
      assert v.version <= watermark;
    }
    assert c[kept] in r;
    var k :| 0 <= k < |r| && r[k].version == MaxVersion(r);
    assert r[k] in r;
  }

  /**
   Collection is invisible: every read at or after the watermark sees what it saw before,
   and a layered chain still hides older sources behind its tombstone.
   */
  lemma CollectPreservesReads(c: Chain, watermark: Timestamp, mode: GcMode, ts: Timestamp)
    requires Sound(c) && watermark < INTENT_VERSION && watermark <= ts
    ensures Read(Collect(c, watermark, mode), ts) == Read(c, ts)
    ensures mode.Layered? ==> (NewestVisible(Collect(c, watermark, mode), ts) >= 0 <==> NewestVisible(c, ts) >= 0)
  {
    var kept := NewestVisible(c, watermark);
    if kept >= 0 && Superseded(c, kept) > 0 {
      var r := Trimmed(c, kept);
      TrimmedReads(c, kept, watermark, ts);
      if mode.Complete? && r != [] && Collect(c, watermark, mode) != r {
        var newest := MaxVersion(r);
        var drop := (v: MvccValue) => v.version != newest;
        OnlyTheNewestLeft(c, kept, watermark);
        RetainNone(r, drop);
        TombstoneRead(c, r, FirstAt(r, newest), ts);
      }
    }
  }

  // A chain whose committed versions are one tombstone reads as absent.
  lemma TombstoneRead(c: Chain, r: Chain, at: nat, ts: Timestamp)
    requires Sound(c) && at < |r| && r[at].value.None? && !r[at].isIntent
    requires forall v :: v in r ==> v in c
    requires forall v :: v in r && !v.isIntent ==> v.version == r[at].version
    ensures Read(r, ts) == None
  {
    var i := NewestVisible(r, ts);
    if i >= 0 {
      assert r[i] in r && r[at] in r;
      var a :| 0 <= a < |c| && c[a] == r[i];
      var b :| 0 <= b < |c| && c[b] == r[at];
    }
  }

  /** Collection keeps every version above the watermark, so an incremental from there loses nothing. */
  lemma CollectKeepsNewer(c: Chain, watermark: Timestamp, mode: GcMode, ts: Timestamp, v: Stored)
    requires watermark < ts
    ensures HasVersion(Collect(c, watermark, mode), ts, v) <==> HasVersion(c, ts, v)
  {
    hide HasVersion, Superseded, MaxVersion, FirstAt;
    var kept := NewestVisible(c, watermark);
    if kept >= 0 && Superseded(c, kept) > 0 {
      var keep := (x: MvccValue) => x.isIntent || x.version >= c[kept].version;
      var r := Trimmed(c, kept);
      RetainKeeps(c, keep);
      SameVersionsAt(c, r, ts, v);
      if mode.Complete? && r != [] && Collect(c, watermark, mode) != r {
        var newest := MaxVersion(r);
        var drop := (x: MvccValue) => x.version != newest;
        RetainKeeps(r, drop);
        SameVersionsAt(r, Retain(r, drop), ts, v);
      }
    }
  }

  lemma SameVersionsAt(c: Chain, r: Chain, ts: Timestamp, v: Stored)
    requires forall x :: x in r ==> x in c
    requires forall x :: x in c && !x.isIntent && x.version == ts ==> x in r
    ensures HasVersion(r, ts, v) <==> HasVersion(c, ts, v)
  {
    if HasVersion(r, ts, v) {
      var i :| 0 <= i < |r| && !r[i].isIntent && r[i].version == ts && r[i].value == v;
      assert r[i] in c;
    }
    if HasVersion(c, ts, v) {
      var i :| 0 <= i < |c| && !c[i].isIntent && c[i].version == ts && c[i].value == v;
      assert c[i] in r;
    }
  }

  /**
   While a backup is protected, collecting at the watermark retention computes keeps every
   version an incremental on top of it has to export.
   */
  lemma ProtectedHistorySurvives(view: View, backup: Retained, c: Chain, mode: GcMode, ts: Timestamp, v: Stored)
    requires backup in view.completed && backup.isProtected && backup.snapshot < ts
    ensures GcWatermark(view).Some?
    ensures HasVersion(Collect(c, GcWatermark(view).value, mode), ts, v) <==> HasVersion(c, ts, v)
  {
    var i :| 0 <= i < |view.completed| && view.completed[i] == backup;
    CollectKeepsNewer(c, GcWatermark(view).value, mode, ts, v);
  }
}

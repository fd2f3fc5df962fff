/**
 Advisory locks (crates/nodus_executor/src/advisory.rs): counted locks on keys that
 mean what the application wants, in two modes and for a session or a transaction. Every method
 runs under one mutex, so a run is an interleaving of whole calls.
 */
module Advisory {

  type Session = string

  /** A number and which of the two key spaces it belongs to. */
  type LockKey = (bool, int)

  /** A key in one of the two modes. */
  datatype Hold = Hold(key: LockKey, exclusive: bool)

  type Holders = map<Session, nat>

  datatype LockState = LockState(exclusive: Holders, shared: Holders) {
    predicate IsFree() {
      exclusive == map[] && shared == map[]
    }

    function Of(x: bool): Holders {
      if x then exclusive else shared
    }

    function With(x: bool, h: Holders): LockState {
      if x then this.(exclusive := h) else this.(shared := h)
    }
  }

  type Locks = map<LockKey, LockState>

  // ------------------------------------------------------------------- the table

  function Get(h: Holders, s: Session): nat {
    if s in h then h[s] else 0
  }

  /** How often a session has a hold. */
  function Count(locks: Locks, s: Session, h: Hold): nat {
    if h.key in locks then Get(locks[h.key].Of(h.exclusive), s) else 0
  }

  ghost predicate Counted(h: Holders) {
    forall s :: s in h ==> h[s] >= 1
  }

  /** An exclusive holder is alone, in both modes. */
  ghost predicate Excludes(lock: LockState) {
    forall s, t :: s in lock.exclusive && (t in lock.exclusive || t in lock.shared) ==> s == t
  }

  /** What is stored for one key: no zero counts, not free, and exclusive holders alone. */
  ghost predicate Sound(lock: LockState) {
    Counted(lock.exclusive) && Counted(lock.shared) && !lock.IsFree() && Excludes(lock)
  }

  ghost predicate AllSound(locks: Locks) {
    forall k :: k in locks ==> Sound(locks[k])
  }

  /** In a sound table an exclusive hold leaves nothing to other sessions. */
  lemma ExclusiveIsAlone(locks: Locks, s: Session, t: Session, k: LockKey, x: bool)
    requires AllSound(locks) && Count(locks, s, Hold(k, true)) > 0 && t != s
    ensures Count(locks, t, Hold(k, x)) == 0
  {
    assert Sound(locks[k]);
  }

  predicate Others(h: Holders, s: Session) {
    exists t :: t in h && t != s
  }

  /** No other session holds the lock in a conflicting mode. */
  predicate Open(lock: LockState, s: Session, x: bool) {
    !Others(lock.exclusive, s) && (x ==> !Others(lock.shared, s))
  }

  function Entry(locks: Locks, k: LockKey): LockState {
    if k in locks then locks[k] else LockState(map[], map[])
  }

  /** A lock is open exactly when no other session's count conflicts. */
  lemma OpenByCounts(locks: Locks, s: Session, h: Hold)
    requires AllSound(locks)
    ensures Open(Entry(locks, h.key), s, h.exclusive) <==>
            forall t, x :: t != s && (x || h.exclusive) ==> Count(locks, t, Hold(h.key, x)) == 0
  {
    var lock := Entry(locks, h.key);
    if h.key in locks { assert Sound(lock); }
    forall t, x ensures Count(locks, t, Hold(h.key, x)) == 0 <==> t !in lock.Of(x) {
    }
    if forall t, x :: t != s && (x || h.exclusive) ==> Count(locks, t, Hold(h.key, x)) == 0 {
      forall t | t != s ensures t !in lock.exclusive && (h.exclusive ==> t !in lock.shared) {
        assert Count(locks, t, Hold(h.key, true)) == 0;
        assert h.exclusive ==> Count(locks, t, Hold(h.key, false)) == 0;
      }
    }
  }

  function Taken(locks: Locks, s: Session, h: Hold): Locks {
    var lock := Entry(locks, h.key);
    var holders := lock.Of(h.exclusive);
    locks[h.key := lock.With(h.exclusive, holders[s := Get(holders, s) + 1])]
  }

  /** One hold fewer, and no entry for a session without one. */
  function Dropped(h: Holders, s: Session): Holders {
    if s !in h then h else if h[s] <= 1 then h - {s} else h[s := h[s] - 1]
  }

  function Stored(locks: Locks, k: LockKey, lock: LockState): Locks {
    if lock.IsFree() then locks - {k} else locks[k := lock]
  }

  function Released(locks: Locks, s: Session, h: Hold): Locks {
    if h.key !in locks then locks
    else Stored(locks, h.key, locks[h.key].With(h.exclusive, Dropped(locks[h.key].Of(h.exclusive), s)))
  }

  /** What is left without a session. */
  function Retained(locks: Locks, s: Session): Locks {
    map k | k in locks && !Without(locks[k], s).IsFree() :: Without(locks[k], s)
  }

  function Without(lock: LockState, s: Session): LockState {
    LockState(lock.exclusive - {s}, lock.shared - {s})
  }

  // ---------------------------------------------------------- what calls do to counts

  function Less(a: nat, b: nat): nat {
    if a >= b then a - b else 0
  }

  /** Exactly one more hold. */
  ghost predicate Took(before: Locks, after: Locks, s: Session, h: Hold) {
    forall t, g :: Count(after, t, g) == Count(before, t, g) + if t == s && g == h then 1 else 0
  }

  /** One hold fewer, if there was one. */
  ghost predicate Gave(before: Locks, after: Locks, s: Session, h: Hold) {
    forall t, g :: Count(after, t, g) == Less(Count(before, t, g), if t == s && g == h then 1 else 0)
  }

  /** As many holds fewer as were recorded, as far as there were any. */
  ghost predicate GaveAll(before: Locks, after: Locks, s: Session, held: seq<Hold>) {
    forall t, g :: Count(after, t, g) == Less(Count(before, t, g), if t == s then Recorded(held, g) else 0)
  }

  ghost predicate Cleared(before: Locks, after: Locks, s: Session) {
    forall t, g :: Count(after, t, g) == if t == s then 0 else Count(before, t, g)
  }

  // One more hold of an open lock.
  lemma TakenSound(lock: LockState, s: Session, x: bool, after: LockState)
    requires Counted(lock.exclusive) && Counted(lock.shared) && Excludes(lock) && Open(lock, s, x)
    requires after == lock.With(x, lock.Of(x)[s := Get(lock.Of(x), s) + 1])
    ensures Sound(after)
  {
    assert s in after.Of(x);
    forall a, b | a in after.exclusive && (b in after.exclusive || b in after.shared) ensures a == b {
      assert a in lock.exclusive || a == s;
      assert b in lock.exclusive || b in lock.shared || b == s;
    }
  }

  lemma TakenMeaning(locks: Locks, s: Session, h: Hold)
    requires AllSound(locks) && Open(Entry(locks, h.key), s, h.exclusive)
    ensures AllSound(Taken(locks, s, h)) && Took(locks, Taken(locks, s, h), s, h)
  {
    hide Open, Excludes, Counted;
    var lock, x := Entry(locks, h.key), h.exclusive;
    if h.key in locks { assert Sound(lock); } else { NothingHeld(lock); }
    TakenSound(lock, s, x, lock.With(x, lock.Of(x)[s := Get(lock.Of(x), s) + 1]));
  }

  lemma NothingHeld(lock: LockState)
    requires lock == LockState(map[], map[])
    ensures Counted(lock.exclusive) && Counted(lock.shared) && Excludes(lock)
  {
  }

  lemma DroppedMeaning(h: Holders, s: Session, t: Session)
    requires Counted(h)
    ensures Counted(Dropped(h, s)) && Dropped(h, s).Keys <= h.Keys
    ensures Get(Dropped(h, s), t) == Less(Get(h, t), if t == s then 1 else 0)
  {
  }

  lemma ReleasedSound(locks: Locks, s: Session, h: Hold)
    requires AllSound(locks)
    ensures AllSound(Released(locks, s, h))
  {
    if h.key in locks {
      var lock := locks[h.key];
      var after := lock.With(h.exclusive, Dropped(lock.Of(h.exclusive), s));
      assert Sound(lock);
      DroppedMeaning(lock.Of(h.exclusive), s, s);
      assert Counted(after.exclusive) && Counted(after.shared) && Excludes(after);
    }
  }

  lemma ReleasedGave(locks: Locks, s: Session, h: Hold)
    requires AllSound(locks)
    ensures Gave(locks, Released(locks, s, h), s, h)
  {
    hide Dropped;
    if h.key in locks {
      var lock := locks[h.key];
      assert Sound(lock);
      var after := lock.With(h.exclusive, Dropped(lock.Of(h.exclusive), s));
      forall t, g ensures Count(Released(locks, s, h), t, g) == Less(Count(locks, t, g), if t == s && g == h then 1 else 0) {
        DroppedMeaning(lock.Of(h.exclusive), s, t);
        if g.key == h.key { StoredCount(locks, h.key, after, t, g); }
      }
    }
  }

  lemma StoredCount(locks: Locks, k: LockKey, lock: LockState, t: Session, g: Hold)
    requires g.key == k
    ensures Count(Stored(locks, k, lock), t, g) == Get(lock.Of(g.exclusive), t)
  {
  }

  lemma RetainedMeaning(locks: Locks, s: Session)
    requires AllSound(locks)
    ensures AllSound(Retained(locks, s)) && Cleared(locks, Retained(locks, s), s)
  {
    var after := Retained(locks, s);
    forall k | k in after ensures Sound(after[k]) {
      assert Sound(locks[k]);
    }
    forall t, g ensures Count(after, t, g) == if t == s then 0 else Count(locks, t, g) {
      if g.key in locks {
        var lock := Without(locks[g.key], s);
        assert Get(lock.Of(g.exclusive), t) == if t == s then 0 else Get(locks[g.key].Of(g.exclusive), t);
        assert lock.IsFree() ==> t !in lock.Of(g.exclusive);
      }
    }
  }

  // ------------------------------------------------------------ the recorded holds

  type Recordings = map<Session, seq<Hold>>

  /** How often a transaction recorded a hold. */
  function Recorded(held: seq<Hold>, h: Hold): nat {
    if held == [] then 0 else Recorded(held[..|held| - 1], h) + if held[|held| - 1] == h then 1 else 0
  }

  lemma RecordedSnoc(held: seq<Hold>, h: Hold)
    ensures forall g :: Recorded(held + [h], g) == Recorded(held, g) + if h == g then 1 else 0
  {
    assert (held + [h])[..|held|] == held;
  }

  function HeldBy(recorded: Recordings, s: Session): seq<Hold> {
    if s in recorded then recorded[s] else []
  }

  /** The session-level holds taken and not yet given back. */
  type SessionHolds = map<(Session, Hold), nat>

  function Own(holds: SessionHolds, s: Session, h: Hold): nat {
    if (s, h) in holds then holds[(s, h)] else 0
  }

  /** Every count is the session's own holds plus those of its transaction. */
  ghost predicate Balanced(locks: Locks, holds: SessionHolds, recorded: Recordings) {
    forall s, h :: Count(locks, s, h) == Own(holds, s, h) + Recorded(HeldBy(recorded, s), h)
  }

  lemma BalancedTake(before: Locks, after: Locks, holds: SessionHolds, recorded: Recordings, s: Session, h: Hold)
    requires Balanced(before, holds, recorded) && Took(before, after, s, h)
    ensures Balanced(after, holds[(s, h) := Own(holds, s, h) + 1], recorded)
    ensures Balanced(after, holds, recorded[s := HeldBy(recorded, s) + [h]])
  {
    RecordedSnoc(HeldBy(recorded, s), h);
  }

  /** Giving back a hold keeps the balance exactly when the session has one of its own. */
  lemma BalancedGive(before: Locks, after: Locks, holds: SessionHolds, recorded: Recordings, s: Session, h: Hold)
    requires Balanced(before, holds, recorded) && Gave(before, after, s, h) && Count(before, s, h) > 0
    ensures Balanced(after, holds[(s, h) := Less(Own(holds, s, h), 1)], recorded) <==> Own(holds, s, h) > 0
  {
    var fewer := holds[(s, h) := Less(Own(holds, s, h), 1)];
    if Own(holds, s, h) > 0 {
      forall t, g ensures Count(after, t, g) == Own(fewer, t, g) + Recorded(HeldBy(recorded, t), g) {
        assert Count(before, t, g) == Own(holds, t, g) + Recorded(HeldBy(recorded, t), g);
      }
    } else {
      assert Count(after, s, h) == Count(before, s, h) - 1;
      assert Count(before, s, h) == Own(holds, s, h) + Recorded(HeldBy(recorded, s), h);
    }
  }

  /** Giving back what was recorded leaves exactly the session's own holds. */
  lemma BalancedEnd(before: Locks, after: Locks, holds: SessionHolds, recorded: Recordings, s: Session)
    requires Balanced(before, holds, recorded) && GaveAll(before, after, s, HeldBy(recorded, s))
    ensures Balanced(after, holds, recorded - {s})
    ensures forall h :: Count(after, s, h) == Own(holds, s, h)
  {
    forall t, g ensures Count(after, t, g) == Own(holds, t, g) + Recorded(HeldBy(recorded - {s}, t), g) {
      assert Count(before, t, g) == Own(holds, t, g) + Recorded(HeldBy(recorded, t), g);
    }
  }

  lemma BalancedClear(before: Locks, after: Locks, holds: SessionHolds, recorded: Recordings, s: Session)
    requires Balanced(before, holds, recorded) && Cleared(before, after, s)
    ensures Balanced(after, map h | h in holds && h.0 != s :: holds[h], recorded - {s})
  {
    var rest := map h | h in holds && h.0 != s :: holds[h];
    forall t, g ensures Count(after, t, g) == Own(rest, t, g) + Recorded(HeldBy(recorded - {s}, t), g) {
      assert Count(before, t, g) == Own(holds, t, g) + Recorded(HeldBy(recorded, t), g);
    }
  }

  lemma GaveAllSnoc(before: Locks, mid: Locks, after: Locks, s: Session, held: seq<Hold>, h: Hold)
    requires GaveAll(before, mid, s, held) && Gave(mid, after, s, h)
    ensures GaveAll(before, after, s, held + [h])
  {
    RecordedSnoc(held, h);
    forall t, g ensures Count(after, t, g) == Less(Count(before, t, g), if t == s then Recorded(held + [h], g) else 0) {
      assert Count(mid, t, g) == Less(Count(before, t, g), if t == s then Recorded(held, g) else 0);
      assert Count(after, t, g) == Less(Count(mid, t, g), if t == s && g == h then 1 else 0);
    }
  }

  // ------------------------------------------------------------------------- calls

  datatype Call =
    | TryLock(taker: Session, wanted: Hold, transaction: bool)
    | Unlock(giver: Session, given: Hold)
    | UnlockAll(leaver: Session)
    | EndTransaction(ender: Session)

  /** The lock table, what the transactions recorded, and the session-level holds outstanding. */
  datatype Table = Table(locks: Locks, recorded: Recordings, holds: SessionHolds)

  function HoldsWithout(holds: SessionHolds, s: Session): SessionHolds {
    map h | h in holds && h.0 != s :: holds[h]
  }

  function ReleasedAll(locks: Locks, s: Session, held: seq<Hold>): Locks {
    if held == [] then locks else Released(ReleasedAll(locks, s, held[..|held| - 1]), s, held[|held| - 1])
  }

  /** What a call makes of the table. */
  function After(t: Table, call: Call): Table {
    match call
    case TryLock(s, h, transaction) =>
      if !Open(Entry(t.locks, h.key), s, h.exclusive) then t
      else if transaction then t.(locks := Taken(t.locks, s, h), recorded := t.recorded[s := HeldBy(t.recorded, s) + [h]])
      else t.(locks := Taken(t.locks, s, h), holds := t.holds[(s, h) := Own(t.holds, s, h) + 1])
    case Unlock(s, h) =>
      if Count(t.locks, s, h) == 0 then t
      else t.(locks := Released(t.locks, s, h), holds := t.holds[(s, h) := Less(Own(t.holds, s, h), 1)])
    case UnlockAll(s) => Table(Retained(t.locks, s), t.recorded - {s}, HoldsWithout(t.holds, s))
    case EndTransaction(s) => t.(locks := ReleasedAll(t.locks, s, HeldBy(t.recorded, s)), recorded := t.recorded - {s})
  }

  function AfterFrom(t: Table, calls: seq<Call>): Table {
    if calls == [] then t else After(AfterFrom(t, calls[..|calls| - 1]), calls[|calls| - 1])
  }

  /** The table after a run of calls, from the start. */
  function AfterAll(calls: seq<Call>): Table {
    AfterFrom(Table(map[], map[], map[]), calls)
  }

  /** A session unlocks only what it holds for itself (or nothing). */
  predicate Disciplined(t: Table, call: Call) {
    call.Unlock? && Count(t.locks, call.giver, call.given) > 0 ==> Own(t.holds, call.giver, call.given) > 0
  }

  predicate DisciplinedRun(calls: seq<Call>) {
    forall i :: 0 <= i < |calls| ==> Disciplined(AfterAll(calls[..i]), calls[i])
  }

  ghost predicate InBalance(t: Table) {
    Balanced(t.locks, t.holds, t.recorded)
  }

  /** Counted per session and mode, what a call does. */
  ghost predicate Does(t: Table, call: Call, t': Table) {
    match call
    case TryLock(s, h, _) => if Open(Entry(t.locks, h.key), s, h.exclusive) then Took(t.locks, t'.locks, s, h) else t' == t
    case Unlock(s, h) => Gave(t.locks, t'.locks, s, h)
    case UnlockAll(s) => Cleared(t.locks, t'.locks, s)
    case EndTransaction(s) => GaveAll(t.locks, t'.locks, s, HeldBy(t.recorded, s))
  }

  lemma {:induction false} ReleasedAllMeaning(locks: Locks, s: Session, held: seq<Hold>)
    requires AllSound(locks)
    ensures AllSound(ReleasedAll(locks, s, held)) && GaveAll(locks, ReleasedAll(locks, s, held), s, held)
  {
    hide Released, Gave, AllSound, GaveAll, Count;
    if held == [] {
      GaveNothing(locks, s);
    } else {
      var n := |held| - 1;
      ReleasedAllMeaning(locks, s, held[..n]);
      var mid := ReleasedAll(locks, s, held[..n]);
      ReleasedSound(mid, s, held[n]);
      ReleasedGave(mid, s, held[n]);
      GaveAllSnoc(locks, mid, Released(mid, s, held[n]), s, held[..n], held[n]);
      assert held == held[..n] + [held[n]];
    }
  }

  /** Every call keeps exclusion and moves the counts as it should. */
  lemma CallMeaning(t: Table, call: Call)
    requires AllSound(t.locks)
    ensures AllSound(After(t, call).locks) && Does(t, call, After(t, call))
  {
    hide AllSound, Open, Taken, Took, Gave, GaveAll, Cleared, Released, ReleasedAll, Retained, Count;
    match call
    case TryLock(s, h, _) =>
      if Open(Entry(t.locks, h.key), s, h.exclusive) { TakenMeaning(t.locks, s, h); }
    case Unlock(s, h) =>
      ReleasedSound(t.locks, s, h);
      ReleasedGave(t.locks, s, h);
      NothingToGive(t.locks, s, h);
    case UnlockAll(s) => RetainedMeaning(t.locks, s);
    case EndTransaction(s) => ReleasedAllMeaning(t.locks, s, HeldBy(t.recorded, s));
  }

  /** A call keeps the balance exactly when it is disciplined. */
  lemma BalancedExactly(t: Table, call: Call)
    requires AllSound(t.locks) && InBalance(t)
    ensures InBalance(After(t, call)) <==> Disciplined(t, call)
  {
    hide AllSound, Open, Taken, Took, Gave, GaveAll, Cleared, Released, ReleasedAll, Retained, Count, Balanced;
    CallMeaning(t, call);
    match call
    case TryLock(s, h, _) =>
      if Open(Entry(t.locks, h.key), s, h.exclusive) {
        BalancedTake(t.locks, Taken(t.locks, s, h), t.holds, t.recorded, s, h);
      }
    case Unlock(s, h) =>
      if Count(t.locks, s, h) > 0 {
        BalancedGive(t.locks, Released(t.locks, s, h), t.holds, t.recorded, s, h);
      }
    case UnlockAll(s) => BalancedClear(t.locks, Retained(t.locks, s), t.holds, t.recorded, s);
    case EndTransaction(s) =>
      BalancedEnd(t.locks, ReleasedAll(t.locks, s, HeldBy(t.recorded, s)), t.holds, t.recorded, s);
  }

  lemma {:induction false} RunSound(calls: seq<Call>)
    ensures AllSound(AfterAll(calls).locks)
  {
    hide After;
    if calls != [] {
      var n := |calls| - 1;
      RunSound(calls[..n]);
      CallMeaning(AfterAll(calls[..n]), calls[n]);
    }
  }

  lemma RunSnoc(calls: seq<Call>, i: nat)
    requires i < |calls|
    ensures AfterAll(calls[..i + 1]) == After(AfterAll(calls[..i]), calls[i])
  {
    assert calls[..i + 1][..i] == calls[..i];
  }

  ghost predicate AlwaysBalanced(calls: seq<Call>) {
    forall i :: 0 <= i <= |calls| ==> InBalance(AfterAll(calls[..i]))
  }

  lemma {:induction false} BalancedUpTo(calls: seq<Call>, n: nat)
    requires DisciplinedRun(calls) && n <= |calls|
    ensures InBalance(AfterAll(calls[..n]))
  {
    hide After, InBalance, Disciplined;
    if n == 0 {
      StartsBalanced();
    } else {
      BalancedUpTo(calls, n - 1);
      RunSound(calls[..n - 1]);
      RunSnoc(calls, n - 1);
      BalancedExactly(AfterAll(calls[..n - 1]), calls[n - 1]);
    }
  }

  lemma StartsBalanced()
    ensures InBalance(AfterAll([]))
  {
  }

  /**
   Throughout a run every count is the session's own holds plus what its transaction recorded,
   exactly when sessions only ever unlock holds of their own.
   */
  lemma RunBalancedExactly(calls: seq<Call>)
    ensures AlwaysBalanced(calls) <==> DisciplinedRun(calls)
  {
    hide After, InBalance, Disciplined, AfterAll;
    if DisciplinedRun(calls) {
      forall i | 0 <= i <= |calls| ensures InBalance(AfterAll(calls[..i])) { BalancedUpTo(calls, i); }
    }
    if AlwaysBalanced(calls) {
      forall i | 0 <= i < |calls| ensures Disciplined(AfterAll(calls[..i]), calls[i]) {
        RunSound(calls[..i]);
        RunSnoc(calls, i);
        assert InBalance(AfterAll(calls[..i])) && InBalance(AfterAll(calls[..i + 1]));
        BalancedExactly(AfterAll(calls[..i]), calls[i]);
      }
    }
  }

  /** An unlock that gives back what the transaction took leaves a recording without a hold. */
  lemma UnlockTakesTransactionHold()
    ensures var h := Hold((false, 1), true);
            var calls := [TryLock("a", h, true), Unlock("a", h)];
            && !DisciplinedRun(calls) && !InBalance(AfterAll(calls))
            && Count(AfterAll(calls).locks, "a", h) == 0 && HeldBy(AfterAll(calls).recorded, "a") == [h]
  {
    var h := Hold((false, 1), true);
    var calls := [TryLock("a", h, true), Unlock("a", h)];
    var start := AfterAll([]);
    assert start == Table(map[], map[], map[]) && calls[..0] == [] && calls[..2] == calls;
    RunSnoc(calls, 0);
    RunSnoc(calls, 1);
    assert Open(Entry(start.locks, h.key), "a", true);
    var one := AfterAll(calls[..1]);
    assert HeldBy(start.recorded, "a") + [h] == [h];
    assert one == After(start, TryLock("a", h, true));
    assert HeldBy(one.recorded, "a") == [h] && Own(one.holds, "a", h) == 0;
    RunSound([]);
    CallMeaning(start, calls[0]);
    assert Count(one.locks, "a", h) == 1;
    RunSound(calls[..1]);
    CallMeaning(one, calls[1]);
    assert Recorded([h], h) == 1;
    assert !Disciplined(AfterAll(calls[..1]), calls[1]);
  }

  lemma NothingToGive(locks: Locks, s: Session, h: Hold)
    ensures Count(locks, s, h) == 0 ==> Gave(locks, locks, s, h)
  {
  }

  lemma HeldIsCounted(locks: Locks, s: Session, h: Hold)
    requires AllSound(locks)
    ensures Count(locks, s, h) > 0 <==> h.key in locks && s in locks[h.key].Of(h.exclusive)
  {
    if h.key in locks { assert Sound(locks[h.key]); }
  }

  lemma GaveNothing(locks: Locks, s: Session)
    ensures GaveAll(locks, locks, s, [])
  {
  }

  // ------------------------------------------------------------------------- the class

  class AdvisoryLocks {
    var locks: Locks
    var transactionLocks: Recordings
    ghost var holds: SessionHolds

    ghost function View(): Table
      reads this
    {
      Table(locks, transactionLocks, holds)
    }

    ghost predicate Valid()
      reads this
    {
      AllSound(locks)
    }

    constructor ()
      ensures Valid() && View() == AfterAll([])
    {
      locks, transactionLocks, holds := map[], map[], map[];
    }

    /** Takes the lock if it is open to the session. */
    method TryLock(session: Session, h: Hold, transaction: bool) returns (ok: bool)
      requires Valid()
      modifies this
      ensures Valid()
      ensures ok <==> Open(Entry(old(locks), h.key), session, h.exclusive)
      ensures !ok ==> View() == old(View())
      ensures ok ==> Took(old(locks), locks, session, h)
      ensures ok && transaction ==>
                transactionLocks == old(transactionLocks)[session := HeldBy(old(transactionLocks), session) + [h]] && holds == old(holds)
      ensures ok && !transaction ==>
                transactionLocks == old(transactionLocks) && holds == old(holds)[(session, h) := Own(old(holds), session, h) + 1]
      ensures View() == After(old(View()), Call.TryLock(session, h, transaction))
    {
      hide Taken, Took, AllSound, Open;
      ok := Open(Entry(locks, h.key), session, h.exclusive);
      if !ok { return; }
      TakenMeaning(locks, session, h);
      locks := Taken(locks, session, h);
      if transaction {
        transactionLocks := transactionLocks[session := HeldBy(transactionLocks, session) + [h]];
      } else {
        holds := holds[(session, h) := Own(holds, session, h) + 1];
      }
    }

    /** Releases one hold, be it the session's own or, when it has none, its transaction's. */
    method Unlock(session: Session, h: Hold) returns (ok: bool)
      requires Valid()
      modifies this
      ensures Valid()
      ensures ok <==> Count(old(locks), session, h) > 0
      ensures !ok ==> View() == old(View())
      ensures Gave(old(locks), locks, session, h) && transactionLocks == old(transactionLocks)
      ensures ok ==> holds == old(holds)[(session, h) := Less(Own(old(holds), session, h), 1)]
      ensures View() == After(old(View()), Call.Unlock(session, h))
    {
      hide Released, Gave, AllSound;
      ReleasedSound(locks, session, h);
      ReleasedGave(locks, session, h);
      NothingToGive(locks, session, h);
      HeldIsCounted(locks, session, h);
      ok := h.key in locks && session in locks[h.key].Of(h.exclusive);
      if !ok { return; }
      locks := Released(locks, session, h);
      holds := holds[(session, h) := Less(Own(holds, session, h), 1)];
    }

    /** The session gives up all it holds. */
    method UnlockAll(session: Session)
      requires Valid()
      modifies this
      ensures Valid()
      ensures Cleared(old(locks), locks, session)
      ensures transactionLocks == old(transactionLocks) - {session} && holds == HoldsWithout(old(holds), session)
      ensures View() == After(old(View()), Call.UnlockAll(session))
    {
      hide Retained, Cleared, AllSound;
      RetainedMeaning(locks, session);
      locks := Retained(locks, session);
      transactionLocks := transactionLocks - {session};
      holds := HoldsWithout(holds, session);
    }

    /** Gives back what the transaction took: from a balanced table, exactly that. */
    method EndTransaction(session: Session)
      requires Valid()
      modifies this
      ensures Valid()
      ensures GaveAll(old(locks), locks, session, HeldBy(old(transactionLocks), session))
      ensures transactionLocks == old(transactionLocks) - {session} && holds == old(holds)
      ensures View() == After(old(View()), Call.EndTransaction(session))
      ensures InBalance(old(View())) ==> forall h :: Count(locks, session, h) == Own(holds, session, h)
    {
      hide Released, AllSound, Balanced, GaveAll, Count, Own;
      var held := HeldBy(transactionLocks, session);
      ReleasedAllMeaning(locks, session, held);
      if session in transactionLocks {
        transactionLocks := transactionLocks - {session};
        for i := 0 to |held|
          invariant transactionLocks == old(transactionLocks) - {session} && holds == old(holds)
          invariant locks == ReleasedAll(old(locks), session, held[..i])
        {
          assert held[..i + 1][..i] == held[..i];
          locks := Released(locks, session, held[i]);
        }
        assert held[..|held|] == held;
      } else {
        assert transactionLocks - {session} == transactionLocks;
      }
      if InBalance(old(View())) { BalancedEnd(old(locks), locks, holds, old(transactionLocks), session); }
    }
  }

  /** One call on behalf of its session. */
  method Perform(a: AdvisoryLocks, call: Call)
    requires a.Valid()
    modifies a
    ensures a.Valid() && a.View() == After(old(a.View()), call)
  {
    match call
    case TryLock(s, h, transaction) => var _ := a.TryLock(s, h, transaction);
    case Unlock(s, h) => var _ := a.Unlock(s, h);
    case UnlockAll(s) => a.UnlockAll(s);
    case EndTransaction(s) => a.EndTransaction(s);
  }

  /**
   Any interleaving of calls ends in the table of its calls: sound, and balanced when sessions only
   unlocked holds of their own.
   */
  method Run(calls: seq<Call>) returns (a: AdvisoryLocks)
    ensures a.Valid() && a.View() == AfterAll(calls)
    ensures DisciplinedRun(calls) ==>
              forall s, h :: Count(a.locks, s, h) == Own(a.holds, s, h) + Recorded(HeldBy(a.transactionLocks, s), h)
  {
    hide After, Disciplined;
    a := new AdvisoryLocks();
    for i := 0 to |calls|
      invariant fresh(a) && a.Valid() && a.View() == AfterAll(calls[..i])
    {
      RunSnoc(calls, i);
      Perform(a, calls[i]);
    }
    assert calls[..|calls|] == calls;
    if DisciplinedRun(calls) { BalancedUpTo(calls, |calls|); }
  }

  // ------------------------------------------------------------------------- waiting

  /** The calls that run during the waits, in order. */
  function Meanwhile(waits: seq<seq<Call>>): seq<Call> {
    if waits == [] then [] else Meanwhile(waits[..|waits| - 1]) + waits[|waits| - 1]
  }

  lemma {:induction false} AfterConcat(t: Table, a: seq<Call>, b: seq<Call>)
    ensures AfterFrom(t, a + b) == AfterFrom(AfterFrom(t, a), b)
  {
    hide After;
    if b == [] {
      assert a + b == a;
    } else {
      var n := |b| - 1;
      AfterConcat(t, a, b[..n]);
      assert (a + b)[..|a| + n] == a + b[..n];
    }
  }

  method PerformAll(a: AdvisoryLocks, calls: seq<Call>)
    requires a.Valid()
    modifies a
    ensures a.Valid() && a.View() == AfterFrom(old(a.View()), calls)
  {
    hide After;
    for j := 0 to |calls|
      invariant a.Valid() && a.View() == AfterFrom(old(a.View()), calls[..j])
    {
      assert calls[..j + 1][..j] == calls[..j];
      Perform(a, calls[j]);
    }
    assert calls[..|calls|] == calls;
  }

  ghost predicate OpenFor(t: Table, session: Session, h: Hold) {
    Open(Entry(t.locks, h.key), session, h.exclusive)
  }

  /**
   `lock`: tries again after each wait, during which other calls run; `false` once the waits are used
   up. It takes exactly one hold, on the first try that finds the lock open.
   */
  method Lock(a: AdvisoryLocks, session: Session, h: Hold, transaction: bool, waits: seq<seq<Call>>)
    returns (ok: bool, tries: nat)
    requires a.Valid()
    modifies a
    ensures a.Valid() && tries <= |waits|
    ensures forall k :: 0 <= k < tries ==> !OpenFor(AfterFrom(old(a.View()), Meanwhile(waits[..k])), session, h)
    ensures var last := AfterFrom(old(a.View()), Meanwhile(waits[..tries]));
            && (ok <==> OpenFor(last, session, h)) && (!ok ==> tries == |waits| && a.View() == last)
            && (ok ==> Took(last.locks, a.locks, session, h))
            && a.View() == After(last, TryLock(session, h, transaction))
  {
    hide After, Open, Took;
    tries := 0;
    while true
      invariant tries <= |waits| && a.Valid() && a.View() == AfterFrom(old(a.View()), Meanwhile(waits[..tries]))
      invariant forall k :: 0 <= k < tries ==> !OpenFor(AfterFrom(old(a.View()), Meanwhile(waits[..k])), session, h)
      decreases |waits| - tries
    {
      ok := a.TryLock(session, h, transaction);
      if ok || tries == |waits| { return; }
      AfterConcat(old(a.View()), Meanwhile(waits[..tries]), waits[tries]);
      assert waits[..tries + 1][..tries] == waits[..tries];
      PerformAll(a, waits[tries]);
      tries := tries + 1;
    }
  }
}

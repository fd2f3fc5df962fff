/**
 The durable audit trail (crates/nodus_audit/src/lib.rs, `FileAuditSink`): one line for each
 event, rotated by size, queried across the live file and the retained segments. Files are
 modelled by the events on their lines; file 0 is the live one, file n is segment `.n`.
 */
module Audit {
  import opened Wrappers
  import Words

  /** An event, and the length of its line. */
  datatype Event = Event(id: nat, actor: nat, action: string, outcome: string, time: int, length: nat)

  type Files = map<nat, seq<Event>>

  // ------------------------------------------------------------------------ files

  /** The size of a file: every line ends in a line break. */
  function Size(events: seq<Event>): nat {
    if events == [] then 0 else Size(events[..|events| - 1]) + events[|events| - 1].length + 1
  }

  function Lines(files: Files, i: nat): seq<Event> {
    if i in files then files[i] else []
  }

  /** The lines of files `n` down to 0: oldest first. */
  function Trail(files: Files, n: nat): seq<Event> {
    Lines(files, n) + if n == 0 then [] else Trail(files, n - 1)
  }

  /** Segments 1 to `top` exist, none above, and no file is empty. */
  ghost predicate Contiguous(files: Files, top: nat) {
    && (forall i :: i in files ==> i <= top)
    && (forall i :: 1 <= i <= top ==> i in files)
    && (forall i :: i in files ==> files[i] != [])
  }

  /** Slot `i` holds what the slot below held. */
  ghost predicate MovedUp(files: Files, after: Files, keep: nat, i: nat) {
    && (i in after <==> 1 <= i <= keep && i - 1 in files)
    && (i in after ==> after[i] == files[i - 1])
  }

  /** Everything one slot up; the last slot's file is gone and the live file is free. */
  ghost predicate IsShifted(files: Files, after: Files, keep: nat) {
    forall i: nat :: MovedUp(files, after, keep, i)
  }

  /** Slot `j` once the files above `i` have moved up. */
  ghost predicate Moving(files: Files, r: Files, i: nat, keep: nat, j: nat) {
    if j <= i then (j in r <==> j in files) && (j in r ==> r[j] == files[j])
    else if j == i + 1 then j !in r
    else MovedUp(files, r, keep, j)
  }

  ghost predicate AllMoving(files: Files, r: Files, i: nat, keep: nat) {
    forall j: nat :: Moving(files, r, i, keep, j)
  }

  /** The renames of `rotate`, oldest first. */
  method Rotate(files: Files, keep: nat) returns (r: Files)
    requires keep >= 1 && forall i :: i in files ==> i <= keep
    ensures IsShifted(files, r, keep)
  {
    r := files - {keep};
    var i := keep - 1;
    forall j: nat ensures Moving(files, r, i, keep, j) { assert j in files ==> j <= keep; }
    while i >= 1
      invariant 0 <= i <= keep - 1
      invariant AllMoving(files, r, i, keep)
    {
      ghost var before := r;
      if i in r { r := r[i + 1 := r[i]] - {i}; }
      OneUp(files, before, r, i, keep);
      i := i - 1;
    }
    ghost var before := r;
    if 0 in r { r := r[1 := r[0]] - {0}; }
    forall j: nat ensures MovedUp(files, r, keep, j) {
      assert Moving(files, before, 0, keep, j) && Moving(files, before, 0, keep, 0);
    }
  }

  lemma OneUp(files: Files, before: Files, after: Files, i: nat, keep: nat)
    requires 1 <= i < keep && AllMoving(files, before, i, keep)
    requires after == if i in before then before[i + 1 := before[i]] - {i} else before
    ensures AllMoving(files, after, i - 1, keep)
  {
    var below: nat := i - 1;
    forall j: nat ensures Moving(files, after, below, keep, j) {
      assert Moving(files, before, i, keep, j) && Moving(files, before, i, keep, i);
    }
  }

  // Shifting moves the whole trail one slot up.
  lemma {:induction false} TrailShifted(files: Files, after: Files, keep: nat, n: nat)
    requires n < keep && IsShifted(files, after, keep)
    ensures Trail(after, n + 1) == Trail(files, n)
  {
    assert MovedUp(files, after, keep, n + 1) && MovedUp(files, after, keep, 0);
    if n > 0 { TrailShifted(files, after, keep, n - 1); }
  }

  lemma ShiftedContiguous(files: Files, after: Files, top: nat, keep: nat)
    requires keep >= 1 && top <= keep && Contiguous(files, top) && 0 in files && IsShifted(files, after, keep)
    ensures Contiguous(after, if top < keep then top + 1 else keep)
    ensures 0 !in after
  {
    forall i: nat
      ensures i in after <==> 1 <= i <= keep && i - 1 in files
      ensures i in after ==> after[i] == files[i - 1]
    {
      assert MovedUp(files, after, keep, i);
    }
  }

  /** Rotating loses the last slot's events, and nothing else. */
  lemma ShiftedTrail(files: Files, after: Files, keep: nat)
    requires keep >= 1 && IsShifted(files, after, keep)
    ensures Trail(files, keep) == Lines(files, keep) + Trail(after, keep)
  {
    hide Trail;
    TrailShifted(files, after, keep, keep - 1);
    TrailStep(files, keep, []);
    assert [] + Trail(files, keep) == Trail(files, keep) && [] + Lines(files, keep) == Lines(files, keep);
  }

  lemma {:induction false} LowerTrail(files: Files, top: nat, n: nat)
    requires Contiguous(files, top) && 0 in files && n <= top
    ensures |Trail(files, n)| >= n + 1
  {
    if n > 0 {
      assert n in files && Lines(files, n) != [];
      LowerTrail(files, top, n - 1);
      assert |Trail(files, n)| == |Lines(files, n)| + |Trail(files, n - 1)|;
    }
  }

  // Appending to the live file appends to the trail.
  lemma {:induction false} TrailAppend(files: Files, n: nat, e: Event)
    ensures Trail(files[0 := Lines(files, 0) + [e]], n) == Trail(files, n) + [e]
  {
    var after := files[0 := Lines(files, 0) + [e]];
    if n > 0 {
      TrailAppend(files, n - 1, e);
      assert Lines(after, n) + (Trail(files, n - 1) + [e]) == Lines(files, n) + Trail(files, n - 1) + [e];
    }
  }

  // --------------------------------------------------------------------- queries

  datatype AuditQuery = AuditQuery(
    actor: Option<nat>, action: Option<string>, outcome: Option<string>, since: Option<int>, until: Option<int>, limit: Option<nat>) {

    predicate Matches(e: Event) {
      && (actor.Some? ==> actor.value == e.actor)
      && (action.Some? ==> Words.Lower(action.value) == Words.Lower(e.action))
      && (outcome.Some? ==> Words.Lower(outcome.value) == Words.Lower(e.outcome))
      && (since.Some? ==> e.time >= since.value)
      && (until.Some? ==> e.time <= until.value)
    }
  }

  const UNFILTERED := AuditQuery(None, None, None, None, None, None)

  function Matching(q: AuditQuery, events: seq<Event>): seq<Event> {
    if events == [] then []
    else
      var n := |events| - 1;
      Matching(q, events[..n]) + if q.Matches(events[n]) then [events[n]] else []
  }

  /** The matching events in order, cut at the limit. */
  function Applied(q: AuditQuery, events: seq<Event>): seq<Event> {
    var all := Matching(q, events);
    if q.limit.Some? && q.limit.value < |all| then all[..q.limit.value] else all
  }

  method Apply(q: AuditQuery, events: seq<Event>) returns (r: seq<Event>)
    ensures r == Applied(q, events)
  {
    r := [];
    for i := 0 to |events|
      invariant r == Matching(q, events[..i])
    {
      assert events[..i + 1][..i] == events[..i];
      if q.Matches(events[i]) { r := r + [events[i]]; }
    }
    assert events[..|events|] == events;
    if q.limit.Some? && q.limit.value < |r| { r := r[..q.limit.value]; }
  }

  lemma {:induction false} UnfilteredMatchesAll(events: seq<Event>)
    ensures Applied(UNFILTERED, events) == events
  {
    if events != [] {
      var n := |events| - 1;
      UnfilteredMatchesAll(events[..n]);
      assert events == events[..n] + [events[n]];
    }
  }

  // ------------------------------------------------------------------------ sink

  /** `kept` is the newest part of what was recorded. */
  ghost predicate Newest(recorded: seq<Event>, kept: seq<Event>) {
    |kept| <= |recorded| && recorded[|recorded| - |kept|..] == kept
  }

  lemma NewestAppend(recorded: seq<Event>, kept: seq<Event>, e: Event)
    requires Newest(recorded, kept)
    ensures Newest(recorded + [e], kept + [e])
  {
    var all, n := recorded + [e], |recorded| - |kept|;
    assert all[n..] == recorded[n..] + [e];
  }

  lemma NewestDrop(recorded: seq<Event>, lost: seq<Event>, kept: seq<Event>)
    requires Newest(recorded, lost + kept)
    ensures Newest(recorded, kept)
  {
    var n := |recorded| - |lost + kept|;
    assert recorded[n..][|lost|..] == recorded[n + |lost|..];
  }

  /** Within the cap, or a single line. */
  ghost predicate Capped(maxSize: Option<nat>, live: seq<Event>) {
    maxSize.Some? && maxSize.value > 0 ==> Size(live) <= maxSize.value || |live| == 1
  }

  /**
   The files hold the newest recorded events, in order, and none are lost before every slot
   is taken.
   */
  ghost predicate Holds(files: Files, recorded: seq<Event>, top: nat, keep: nat) {
    && top <= keep && Contiguous(files, top)
    && Newest(recorded, Trail(files, keep))
    && (|Trail(files, keep)| < |recorded| ==> top == keep)
  }

  lemma HoldsRotate(files: Files, after: Files, recorded: seq<Event>, top: nat, keep: nat)
    requires keep >= 1 && Holds(files, recorded, top, keep) && 0 in files && IsShifted(files, after, keep)
    ensures Holds(after, recorded, if top < keep then top + 1 else keep, keep)
    ensures 0 !in after
  {
    hide Trail, Newest, IsShifted;
    ShiftedContiguous(files, after, top, keep);
    ShiftedTrail(files, after, keep);
    NewestDrop(recorded, Lines(files, keep), Trail(after, keep));
    assert top < keep ==> Lines(files, keep) == [];
  }

  lemma HoldsAppend(files: Files, recorded: seq<Event>, top: nat, keep: nat, e: Event)
    requires Holds(files, recorded, top, keep)
    ensures Holds(files[0 := Lines(files, 0) + [e]], recorded + [e], top, keep)
  {
    hide Trail, Newest;
    TrailAppend(files, keep, e);
    NewestAppend(recorded, Trail(files, keep), e);
  }

  /** Every file is within the cap or holds one line. */
  ghost predicate AllCapped(maxSize: Option<nat>, files: Files) {
    forall i :: i in files ==> Capped(maxSize, files[i])
  }

  lemma CappedRotate(maxSize: Option<nat>, files: Files, after: Files, keep: nat)
    requires AllCapped(maxSize, files) && IsShifted(files, after, keep)
    ensures AllCapped(maxSize, after)
  {
    forall i | i in after ensures Capped(maxSize, after[i]) { assert MovedUp(files, after, keep, i); }
  }

  class FileAuditSink {
    const maxSize: Option<nat>
    const maxFiles: nat
    var files: Files

    /** Everything ever recorded, and how many segments there are. */
    ghost var recorded: seq<Event>
    ghost var top: nat

    function Keep(): (k: nat)
      ensures k >= 1
    {
      if maxFiles > 1 then maxFiles else 1
    }

    /** What a query reads. */
    function Retained(): seq<Event>
      reads this
    {
      Trail(files, Keep())
    }

    ghost predicate Valid()
      reads this
    {
      && Holds(files, recorded, top, Keep())
      && (recorded != [] <==> 0 in files)
      && AllCapped(maxSize, files)
    }

    constructor (maxSize: Option<nat>, maxFiles: nat)
      ensures Valid() && recorded == [] && top == 0 && this.maxSize == maxSize && this.maxFiles == maxFiles
    {
      this.maxSize, this.maxFiles := maxSize, maxFiles;
      files, recorded, top := map[], [], 0;
      new;
      EmptyTrail(Keep());
    }

    /** `record_event`: rotates first when the live file has no room for the line. */
    method RecordEvent(e: Event)
      requires Valid()
      modifies this
      ensures Valid()
      ensures recorded == old(recorded) + [e]
      ensures maxSize.None? || maxSize.value == 0 ==> top == old(top)
    {
      hide Holds, Size, IsShifted;
      var live := Lines(files, 0);
      SizeAppend(live, e);
      SizeAppend([], e);
      if maxSize.Some? && maxSize.value > 0 && Size(live) > 0 && Size(live) + e.length + 1 > maxSize.value {
        SlotsBounded(files, recorded, top, Keep());
        var after := Rotate(files, Keep());
        HoldsRotate(files, after, recorded, top, Keep());
        CappedRotate(maxSize, files, after, Keep());
        files := after;
        top := if top < Keep() then top + 1 else Keep();
      }
      HoldsAppend(files, recorded, top, Keep(), e);
      files := files[0 := Lines(files, 0) + [e]];
      recorded := recorded + [e];
      assert [] + [e] == [e];
    }

    /** Reads the segments, oldest first, then the live file. */
    method Query(q: AuditQuery) returns (r: seq<Event>)
      ensures r == Applied(q, Retained())
    {
      hide Applied;
      var events := ReadAll(files, Keep());
      r := Apply(q, events);
    }
  }

  method ReadAll(files: Files, keep: nat) returns (events: seq<Event>)
    ensures events == Trail(files, keep)
  {
    events := [];
    var i := keep;
    while i >= 1
      invariant 0 <= i <= keep
      invariant events + Trail(files, i) == Trail(files, keep)
    {
      TrailStep(files, i, events);
      events := events + Lines(files, i);
      i := i - 1;
    }
    events := events + Lines(files, 0);
  }

  lemma Associates<T>(a: seq<T>, b: seq<T>, c: seq<T>)
    ensures a + (b + c) == a + b + c
  {
  }

  lemma TrailStep(files: Files, i: nat, events: seq<Event>)
    requires i >= 1
    ensures events + Trail(files, i) == events + Lines(files, i) + Trail(files, i - 1)
  {
    Associates(events, Lines(files, i), Trail(files, i - 1));
  }

  lemma SlotsBounded(files: Files, recorded: seq<Event>, top: nat, keep: nat)
    requires Holds(files, recorded, top, keep)
    ensures forall i :: i in files ==> i <= keep
  {
  }

  lemma {:induction false} EmptyTrail(n: nat)
    ensures Trail(map[], n) == []
  {
    if n > 0 { EmptyTrail(n - 1); }
  }

  lemma SizeAppend(events: seq<Event>, e: Event)
    ensures Size(events + [e]) == Size(events) + e.length + 1
    ensures Size(events) == 0 <==> events == []
  {
    assert (events + [e])[..|events|] == events;
  }

  lemma EnoughHeld(files: Files, recorded: seq<Event>, top: nat, keep: nat)
    requires Holds(files, recorded, top, keep) && 0 in files
    ensures |Trail(files, keep)| == |recorded| || |Trail(files, keep)| >= keep + 1
  {
    if |Trail(files, keep)| < |recorded| { LowerTrail(files, top, top); }
  }

  /**
   After any sequence of records, an unfiltered query returns the newest events in order:
   all of them, or at least one for every file kept. The segments run from 1 without a gap,
   and every file is within the cap or holds one line.
   */
  method RecordAll(maxSize: Option<nat>, maxFiles: nat, events: seq<Event>)
    returns (r: seq<Event>, files: Files, ghost top: nat)
    ensures Newest(events, r)
    ensures var keep := if maxFiles > 1 then maxFiles else 1;
            (|r| == |events| || |r| >= keep + 1) && top <= keep
    ensures Contiguous(files, top) && AllCapped(maxSize, files)
    ensures maxSize.None? || maxSize.value == 0 ==> top == 0
  {
    hide Newest, Contiguous, AllCapped, Trail;
    var sink := new FileAuditSink(maxSize, maxFiles);
    for i := 0 to |events|
      invariant fresh(sink) && sink.Valid() && sink.recorded == events[..i]
      invariant sink.maxSize == maxSize && sink.maxFiles == maxFiles
      invariant maxSize.None? || maxSize.value == 0 ==> sink.top == 0
    {
      sink.RecordEvent(events[i]);
      assert events[..i + 1] == events[..i] + [events[i]];
    }
    assert events[..|events|] == events;
    r := sink.Query(UNFILTERED);
    UnfilteredMatchesAll(sink.Retained());
    files, top := sink.files, sink.top;
    if events != [] {
      EnoughHeld(files, events, top, sink.Keep());
    } else {
      NoneHeld(sink.Retained());
    }
  }

  lemma NoneHeld(kept: seq<Event>)
    ensures Newest([], kept) ==> kept == []
  {
  }
}

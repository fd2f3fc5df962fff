/**
 Runs over a backup repository (crates/nodus_backup/src/lib.rs): backups, deletions, checkpoints and
 syncs in any order, each cut off after any number of writes. What a run leaves, and which backups
 come through it.
 */
module RepositoryRuns {
  import opened Wrappers
  import opened Repository

  datatype Step =
    | FullStep(id: BackupId, cluster: string, ts: nat, version: nat, objs: seq<BackupObject>, budget: nat)
    | IncrementalStep(id: BackupId, cluster: string, parent: BackupId, ts: nat, version: nat, objs: seq<BackupObject>, budget: nat)
    | DeleteStep(id: BackupId, budget: nat)
    | CheckpointStep(generation: Generation)
    | SyncStep(budget: nat)

  /** No object is stored under the id. */
  predicate Fresh(repo: Repo, id: BackupId) {
    forall k :: k in repo ==> k.CurrentGenerationKey? || k.id != id
  }

  lemma FreshIsSafe(repo: Repo, id: BackupId, objs: seq<BackupObject>)
    requires Fresh(repo, id)
    ensures SafeToWrite(repo, id, objs) && ManifestKey(id) !in repo
  {
    assert ManifestKey(id) !in repo;
  }

  // ------------------------------------------------------------- what comes through

  /** The backup is there as before, and restores to the same objects. */
  ghost predicate Survives(repo: Repo, repo': Repo, id: BackupId)
    requires Inv(repo) && Inv(repo') && Undamaged(repo, id)
  {
    Kept(repo, repo', id) && Restored(repo', id) == Restored(repo, id)
  }

  /** The backup and everything another backup stands on is kept. */
  ghost predicate KeptWithParents(repo: Repo, repo': Repo, id: BackupId) {
    forall j :: Undamaged(repo, j) && (j == id || HasChild(repo, j)) ==> Kept(repo, repo', j)
  }

  lemma SameOwnObjects(repo: Repo, repo': Repo, id: BackupId)
    requires Inv(repo) && Undamaged(repo, id) && Kept(repo, repo', id)
    ensures var files := ManifestOf(repo, id).files;
            && (forall i :: 0 <= i < |files| ==> files[i].DataKey? && files[i] in repo && repo[files[i]].DataDoc?)
            && (forall i :: 0 <= i < |files| ==> files[i].DataKey? && files[i] in repo' && repo'[files[i]].DataDoc?)
            && OwnObjects(repo', files) == OwnObjects(repo, files)
  {
    var m := ManifestOf(repo, id);
    assert WellFormed(m, id);
    forall i | 0 <= i < |m.files|
      ensures m.files[i] in repo && repo[m.files[i]].DataDoc? && m.files[i] in repo' && repo'[m.files[i]] == repo[m.files[i]]
    {
      assert FileOk(repo, m, m.files[i]) && FileOk(repo', m, m.files[i]);
    }
  }

  /** A backup restores to the same objects once it and every parent is kept. */
  lemma {:induction false} RestoredKept(repo: Repo, repo': Repo, id: BackupId)
    requires Inv(repo) && Inv(repo') && Undamaged(repo, id) && KeptWithParents(repo, repo', id)
    ensures Survives(repo, repo', id)
    decreases ManifestOf(repo, id).snapshot
  {
    hide WellFormed, RecordedGeneration, OwnObjects, FilesOk;
    var m := ManifestOf(repo, id);
    SameOwnObjects(repo, repo', id);
    if m.parent.Some? {
      assert ParentOk(repo, m) && ParentOk(repo', m);
      assert IsChild(repo, id, m.parent.value);
      RestoredKept(repo, repo', m.parent.value);
    }
  }

  /** Whatever keeps every undamaged backup, it keeps what they restore to. */
  lemma AllSurvive(repo: Repo, repo': Repo, id: BackupId)
    requires Inv(repo) && Inv(repo') && KeepsAll(repo, repo') && Undamaged(repo, id)
    ensures Survives(repo, repo', id)
  {
    hide Inv, Undamaged, Kept, Survives;
    RestoredKept(repo, repo', id);
  }

  lemma SameBackupKept(repo: Repo, repo': Repo, j: BackupId)
    requires Inv(repo) && Undamaged(repo, j) && SameBackup(repo, repo', j)
    ensures Kept(repo, repo', j)
  {
    var m := ManifestOf(repo, j);
    assert ManifestKey(j) in repo';
    SameFiles(repo, repo', m, j);
  }

  /** A deletion leaves every other backup, whichever of its objects are gone. */
  lemma OthersSurviveDeletion(repo: Repo, repo': Repo, gone: BackupId, id: BackupId)
    requires Inv(repo) && Inv(repo') && Undamaged(repo, id) && id != gone
    requires repo' == repo || !HasChild(repo, gone)
    requires forall j :: j != gone ==> SameBackup(repo, repo', j)
    ensures Survives(repo, repo', id)
  {
    hide Inv, Undamaged, Kept, Survives, SameBackup, HasChild;
    if repo' == repo {
      Unchanged(repo);
      AllSurvive(repo, repo', id);
    } else {
      forall j | Undamaged(repo, j) && (j == id || HasChild(repo, j)) ensures Kept(repo, repo', j) {
        SameBackupKept(repo, repo', j);
      }
      RestoredKept(repo, repo', id);
    }
  }

  lemma Unchanged(repo: Repo)
    ensures KeepsAll(repo, repo) && forall j :: SameBackup(repo, repo, j)
  {
  }

  lemma SyncKeepsAll(repo: Repo, repo': Repo)
    requires Inv(repo) && SameButGeneration(repo, repo')
    ensures KeepsAll(repo, repo')
  {
    hide Inv, FilesOk, SameButGeneration;
    forall j | Undamaged(repo, j) ensures Kept(repo, repo', j) { KeptThroughSync(repo, repo', j); }
  }

  // ---------------------------------------------------------------- what a step does

  function SourceAfter(source: Option<Option<Generation>>, step: Step): Option<Option<Generation>> {
    if step.CheckpointStep? && source.Some? then Some(Some(step.generation)) else source
  }

  function SourceAt(source: Option<Option<Generation>>, steps: seq<Step>): Option<Option<Generation>> {
    if steps == [] then source else SourceAfter(SourceAt(source, steps[..|steps| - 1]), steps[|steps| - 1])
  }

  ghost predicate NewBackup(repo: Repo, id: BackupId, parent: Option<BackupId>, cluster: string, ts: nat, objs: seq<BackupObject>) {
    && HasManifest(repo, id)
    && var m := ManifestOf(repo, id);
       && Published(repo, id, m, objs) && m.parent == parent && m.cluster == cluster && m.snapshot == ts
       && ParentOk(repo, m)
  }

  /** The verified parent is of the cluster, older, and of the generation of the new objects. */
  ghost predicate Extends(repo: Repo, parent: BackupId, cluster: string, ts: nat, objs: seq<BackupObject>) {
    && objs != [] && Verify(repo, parent).Ok? && HasManifest(repo, parent)
    && ManifestOf(repo, parent).cluster == cluster && ManifestOf(repo, parent).snapshot < ts
    && ManifestGeneration(repo, ManifestOf(repo, parent)) == ObjectGeneration(objs)
  }

  /** What a step makes of the repository, and when it goes through. Backups are created under fresh ids only. */
  ghost predicate Effect(repo: Repo, source: Option<Option<Generation>>, step: Step, repo': Repo, ok: bool) {
    match step
    case FullStep(id, cluster, ts, version, objs, budget) =>
      if !Fresh(repo, id) then repo' == repo && !ok
      else
        && (forall j :: j != id ==> SameBackup(repo, repo', j))
        && GenerationStep(repo, source, repo', ok)
        && (ok ==> NewBackup(repo', id, None, cluster, ts, objs))
        && (budget >= |objs| + 4 ==> (ok <==> ExportMatches(repo, source, objs)))
    case IncrementalStep(id, cluster, parent, ts, version, objs, budget) =>
      if !Fresh(repo, id) then repo' == repo && !ok
      else
        && (forall j :: j != id ==> SameBackup(repo, repo', j))
        && GenerationStep(repo, source, repo', ok)
        && (ok ==> NewBackup(repo', id, Some(parent), cluster, ts, objs))
        && (budget >= |objs| + 4 ==> (ok <==> ExportMatches(repo, source, objs) && Extends(repo, parent, cluster, ts, objs)))
    case DeleteStep(id, budget) =>
      && (forall j :: j != id ==> SameBackup(repo, repo', j))
      && KnownGeneration(repo') == KnownGeneration(repo)
      && (ok ==> Deletable(repo, id) && Fresh(repo', id))
      && (if Deletable(repo, id) then |repo.Keys| <= budget ==> ok else repo' == repo)
    case CheckpointStep(_) => repo' == repo && ok
    case SyncStep(budget) =>
      && SameButGeneration(repo, repo') && GenerationStep(repo, source, repo', ok)
      && (budget > 0 ==> (ok <==> SyncResult(repo, source).Ok?))
  }

  predicate Deletes(step: Step, id: BackupId) {
    step.DeleteStep? && step.id == id
  }

  /** Every undamaged backup comes through the step, unless the step is its deletion. */
  ghost predicate StepSpares(repo: Repo, step: Step, repo': Repo)
    requires Inv(repo) && Inv(repo')
  {
    forall id :: Undamaged(repo, id) && !Deletes(step, id) ==> Survives(repo, repo', id)
  }

  lemma SparesAll(repo: Repo, step: Step, repo': Repo)
    requires Inv(repo) && Inv(repo') && KeepsAll(repo, repo')
    ensures StepSpares(repo, step, repo')
  {
    hide Inv, Undamaged, Survives, KeepsAll;
    forall id | Undamaged(repo, id) && !Deletes(step, id) ensures Survives(repo, repo', id) { AllSurvive(repo, repo', id); }
  }

  lemma SparesOthers(repo: Repo, step: Step, repo': Repo)
    requires Inv(repo) && Inv(repo') && step.DeleteStep? && (repo' == repo || !HasChild(repo, step.id))
    requires forall j :: j != step.id ==> SameBackup(repo, repo', j)
    ensures StepSpares(repo, step, repo')
  {
    hide Inv, Undamaged, Survives, SameBackup, HasChild;
    forall id | Undamaged(repo, id) && !Deletes(step, id) ensures Survives(repo, repo', id) {
      OthersSurviveDeletion(repo, repo', step.id, id);
    }
  }

  lemma DeletedFrame(repo: Repo, repo': Repo, id: BackupId)
    requires repo'.Keys <= repo.Keys && forall k :: k in repo' ==> repo'[k] == repo[k]
    requires forall k :: k in repo && (k.CurrentGenerationKey? || k.id != id) ==> k in repo'
    ensures forall j :: j != id ==> SameBackup(repo, repo', j)
  {
  }

  // ------------------------------------------------------------------------- methods

  method Create(o: Orchestrator, step: Step) returns (ok: bool)
    requires Inv(o.objects) && (step.FullStep? || step.IncrementalStep?) && Fresh(o.objects, step.id)
    modifies o`objects
    ensures Inv(o.objects) && KeepsAll(old(o.objects), o.objects)
    ensures Effect(old(o.objects), o.source, step, o.objects, ok)
  {
    hide Inv, SafeToWrite, KeepsAll, SameBackup, Fresh, ExportMatches, Verify, ManifestGeneration, ObjectGeneration, WellFormed;
    FreshIsSafe(o.objects, step.id, step.objs);
    if step.FullStep? {
      var r := o.CreateFullBackup(step.id, step.cluster, step.ts, step.version, step.objs, step.budget);
      ok := r.Ok?;
      if ok { IncrementalMeansParent(r.value, step.id); }
    } else {
      assert Verify(o.objects, step.parent).Ok? ==> HasManifest(o.objects, step.parent) by {
        if Verify(o.objects, step.parent).Ok? { VerifiedParent(o.objects, step.parent); }
      }
      var r := o.CreateIncrementalBackup(step.id, step.cluster, step.parent, step.ts, step.version, step.objs, step.budget);
      ok := r.Ok?;
    }
  }

  method Delete(o: Orchestrator, step: Step) returns (ok: bool)
    requires Inv(o.objects) && step.DeleteStep?
    modifies o`objects
    ensures Inv(o.objects) && StepSpares(old(o.objects), step, o.objects)
    ensures Effect(old(o.objects), o.source, step, o.objects, ok)
  {
    hide Inv, StepSpares, SameBackup, FilesPresent;
    var r := o.DeleteBackup(step.id, step.budget);
    ok := r.Ok?;
    DeletedFrame(old(o.objects), o.objects, step.id);
    SparesOthers(old(o.objects), step, o.objects);
  }

  method Take(o: Orchestrator, step: Step) returns (ok: bool)
    requires Inv(o.objects)
    modifies o
    ensures Inv(o.objects) && StepSpares(old(o.objects), step, o.objects)
    ensures Effect(old(o.objects), old(o.source), step, o.objects, ok) && o.source == SourceAfter(old(o.source), step)
  {
    hide Inv, StepSpares, KeepsAll, SyncResult, Fresh, SameBackup;
    Unchanged(o.objects);
    match step {
      case DeleteStep(_, _) => ok := Delete(o, step);
      case CheckpointStep(generation) =>
        o.Checkpoint(generation);
        ok := true;
        SparesAll(old(o.objects), step, o.objects);
      case SyncStep(budget) =>
        var r, _ := o.SyncRecoveryGeneration(budget);
        ok := r.Ok?;
        SyncKeepsAll(old(o.objects), o.objects);
        SparesAll(old(o.objects), step, o.objects);
      case _ =>
        ok := Fresh(o.objects, step.id);
        if ok { ok := Create(o, step); }
        SparesAll(old(o.objects), step, o.objects);
    }
  }

  // -------------------------------------------------------------------------- runs

  ghost predicate AllSound(states: seq<Repo>) {
    forall i :: 0 <= i < |states| ==> Inv(states[i])
  }

  ghost predicate Spared(states: seq<Repo>, steps: seq<Step>)
    requires |states| == |steps| + 1 && AllSound(states)
  {
    forall i :: 0 <= i < |steps| ==> StepSpares(states[i], steps[i], states[i + 1])
  }

  /** The states are those the steps lead through. */
  ghost predicate Follows(states: seq<Repo>, source: Option<Option<Generation>>, steps: seq<Step>, results: seq<bool>) {
    && |states| == |steps| + 1 && |results| == |steps|
    && forall i :: 0 <= i < |steps| ==> Effect(states[i], SourceAt(source, steps[..i]), steps[i], states[i + 1], results[i])
  }

  ghost predicate NeverDeleted(steps: seq<Step>, id: BackupId, from: nat, to: nat)
    requires from <= to <= |steps|
  {
    forall i :: from <= i < to ==> !Deletes(steps[i], id)
  }

  lemma SurvivesOn(a: Repo, b: Repo, c: Repo, id: BackupId)
    requires Inv(a) && Inv(b) && Inv(c) && Undamaged(a, id) && Survives(a, b, id) && Survives(b, c, id)
    ensures Survives(a, c, id)
  {
    hide Inv, FilesOk, Restored;
  }

  lemma SurvivesItself(a: Repo, id: BackupId)
    requires Inv(a) && Undamaged(a, id)
    ensures Survives(a, a, id)
  {
    hide Inv, FilesOk, Restored;
  }

  /** A backup undamaged at some point, and not deleted since, is undamaged and restores to the same objects. */
  lemma {:induction false} ComesThrough(states: seq<Repo>, steps: seq<Step>, id: BackupId, from: nat, to: nat)
    requires |states| == |steps| + 1 && AllSound(states) && Spared(states, steps) && from <= to <= |steps|
    requires Undamaged(states[from], id) && NeverDeleted(steps, id, from, to)
    ensures Survives(states[from], states[to], id)
  {
    hide Inv, Undamaged, Survives, Deletes;
    if from == to {
      SurvivesItself(states[from], id);
    } else {
      ComesThrough(states, steps, id, from, to - 1);
      assert Undamaged(states[to - 1], id) by { StillUndamaged(states[from], states[to - 1], id); }
      assert StepSpares(states[to - 1], steps[to - 1], states[to]);
      SurvivesOn(states[from], states[to - 1], states[to], id);
    }
  }

  lemma StillUndamaged(a: Repo, b: Repo, id: BackupId)
    requires Inv(a) && Inv(b) && Undamaged(a, id) && Survives(a, b, id)
    ensures Undamaged(b, id)
  {
    hide Inv, FilesOk, Restored;
  }

  lemma FollowsSnoc(states: seq<Repo>, source: Option<Option<Generation>>, steps: seq<Step>, results: seq<bool>, i: nat, repo: Repo, ok: bool)
    requires i < |steps| && Follows(states, source, steps[..i], results)
    requires Effect(states[i], SourceAt(source, steps[..i]), steps[i], repo, ok)
    ensures Follows(states + [repo], source, steps[..i + 1], results + [ok])
  {
    hide Effect, SourceAt;
    var all, oks, more := states + [repo], results + [ok], steps[..i + 1];
    forall j | 0 <= j < i + 1 ensures Effect(all[j], SourceAt(source, more[..j]), more[j], all[j + 1], oks[j]) {
      assert more[..j] == steps[..j] && more[j] == steps[j] && all[j] == states[j];
      if j < i {
        assert steps[..i][..j] == steps[..j] && all[j + 1] == states[j + 1] && oks[j] == results[j];
        assert Effect(states[j], SourceAt(source, steps[..i][..j]), steps[..i][j], states[j + 1], results[j]);
      } else {
        assert all[j + 1] == repo && oks[j] == ok;
      }
    }
  }

  lemma SparedSnoc(states: seq<Repo>, steps: seq<Step>, i: nat, repo: Repo)
    requires i < |steps| && |states| == i + 1 && AllSound(states) && Inv(repo)
    requires Spared(states, steps[..i]) && StepSpares(states[i], steps[i], repo)
    ensures AllSound(states + [repo]) && Spared(states + [repo], steps[..i + 1])
  {
    hide Inv, StepSpares;
    var all := states + [repo];
    assert AllSound(all);
    forall j | 0 <= j < i + 1 ensures StepSpares(all[j], steps[..i + 1][j], all[j + 1]) {
      if j < i { assert StepSpares(states[j], steps[..i][j], states[j + 1]); }
    }
  }

  // ------------------------------------------------------------- the published generation

  predicate Syncs(step: Step) {
    step.SyncStep? || step.FullStep? || step.IncrementalStep?
  }

  /** A step from `i` on published the generation its source had then, and it is the one published at `k`. */
  ghost predicate PublishedSince(states: seq<Repo>, source: Option<Option<Generation>>, steps: seq<Step>, i: nat, k: nat)
    requires k <= |steps| && |states| == |steps| + 1
  {
    exists j :: i <= j < k && Syncs(steps[j]) && SourceAt(source, steps[..j]) == Some(KnownGeneration(states[k]))
  }

  lemma StepGeneration(repo: Repo, source: Option<Option<Generation>>, step: Step, repo': Repo, ok: bool)
    requires Effect(repo, source, step, repo', ok)
    ensures KnownGeneration(repo') == KnownGeneration(repo) || (Syncs(step) && source == Some(KnownGeneration(repo')))
    ensures ok && Syncs(step) && source.Some? ==> source == Some(KnownGeneration(repo'))
  {
    hide Fresh, SameBackup, NewBackup, ExportMatches, Extends, Deletable, SyncResult, KnownGeneration;
    if step.SyncStep? || step.CheckpointStep? || step.DeleteStep? {
    } else {
      assert Fresh(repo, step.id) || (repo' == repo && !ok);
    }
  }

  /** Once a sync goes through, the repository publishes what the source had at that or a later step that synced. */
  lemma {:induction false} GenerationFollows(states: seq<Repo>, source: Option<Option<Generation>>, steps: seq<Step>, results: seq<bool>, i: nat, k: nat)
    requires Follows(states, source, steps, results) && i < k <= |steps|
    requires results[i] && Syncs(steps[i]) && SourceAt(source, steps[..i]).Some?
    ensures PublishedSince(states, source, steps, i, k)
    decreases k
  {
    hide Effect, KnownGeneration, SourceAt;
    assert Effect(states[k - 1], SourceAt(source, steps[..k - 1]), steps[k - 1], states[k], results[k - 1]);
    StepGeneration(states[k - 1], SourceAt(source, steps[..k - 1]), steps[k - 1], states[k], results[k - 1]);
    if i < k - 1 {
      GenerationFollows(states, source, steps, results, i, k - 1);
      var j :| i <= j < k - 1 && Syncs(steps[j]) && SourceAt(source, steps[..j]) == Some(KnownGeneration(states[k - 1]));
    }
  }

  ghost predicate GenerationIsSourced(states: seq<Repo>, source: Option<Option<Generation>>, steps: seq<Step>, results: seq<bool>)
    requires |states| == |steps| + 1 && |results| == |steps|
  {
    forall i: nat, k: nat :: i < k <= |steps| && results[i] && Syncs(steps[i]) && SourceAt(source, steps[..i]).Some? ==>
      PublishedSince(states, source, steps, i, k)
  }

  lemma AllGenerationsFollow(states: seq<Repo>, source: Option<Option<Generation>>, steps: seq<Step>, results: seq<bool>)
    requires Follows(states, source, steps, results)
    ensures GenerationIsSourced(states, source, steps, results)
  {
    hide Effect, PublishedSince, SourceAt, Follows;
    assert |states| == |steps| + 1 && |results| == |steps| by { Lengths(states, source, steps, results); }
    forall i: nat, k: nat | i < k <= |steps| && results[i] && Syncs(steps[i]) && SourceAt(source, steps[..i]).Some?
      ensures PublishedSince(states, source, steps, i, k)
    {
      GenerationFollows(states, source, steps, results, i, k);
    }
  }

  lemma Lengths(states: seq<Repo>, source: Option<Option<Generation>>, steps: seq<Step>, results: seq<bool>)
    requires Follows(states, source, steps, results)
    ensures |states| == |steps| + 1 && |results| == |steps|
  {
  }

  // -------------------------------------------------------------------- whole runs

  /** Whatever is undamaged comes through until it is deleted. */
  ghost predicate BackupsComeThrough(states: seq<Repo>, steps: seq<Step>)
    requires |states| == |steps| + 1 && AllSound(states)
  {
    forall id, i: nat, k: nat :: i <= k <= |steps| && Undamaged(states[i], id) && NeverDeleted(steps, id, i, k) ==>
      Survives(states[i], states[k], id)
  }

  lemma AllComeThrough(states: seq<Repo>, steps: seq<Step>)
    requires |states| == |steps| + 1 && AllSound(states) && Spared(states, steps)
    ensures BackupsComeThrough(states, steps)
  {
    hide Inv, Undamaged, Survives, Spared, AllSound, NeverDeleted;
    forall id, i: nat, k: nat | i <= k <= |steps| && Undamaged(states[i], id) && NeverDeleted(steps, id, i, k)
      ensures Inv(states[i]) && Inv(states[k]) && Survives(states[i], states[k], id)
    {
      StatesSound(states, i);
      StatesSound(states, k);
      ComesThrough(states, steps, id, i, k);
    }
  }

  lemma StatesSound(states: seq<Repo>, i: nat)
    requires AllSound(states) && i < |states|
    ensures Inv(states[i])
  {
  }

  /**
   Any run of backups, deletions, checkpoints and syncs, each cut off after any number of writes:
   every state on the way is sound and is what its step makes of the one before, and a backup that
   is undamaged at some point stays so, and restores to the same objects, until it is deleted. Once a
   sync has gone through, the repository publishes the generation the source had at that step or at
   a later one that synced.
   */
  method Run(o: Orchestrator, steps: seq<Step>) returns (results: seq<bool>, ghost states: seq<Repo>)
    requires Inv(o.objects)
    modifies o
    ensures Follows(states, old(o.source), steps, results)
    ensures states[0] == old(o.objects) && states[|steps|] == o.objects
    ensures AllSound(states) && BackupsComeThrough(states, steps)
    ensures GenerationIsSourced(states, old(o.source), steps, results)
  {
    hide Inv, Effect, StepSpares, Spared, BackupsComeThrough, AllSound, GenerationIsSourced;
    results, states := [], [o.objects];
    StartsSpared(o.objects, steps);
    for i := 0 to |steps|
      invariant Follows(states, old(o.source), steps[..i], results) && AllSound(states) && Spared(states, steps[..i])
      invariant states[0] == old(o.objects) && states[i] == o.objects && Inv(o.objects)
      invariant o.source == SourceAt(old(o.source), steps[..i])
    {
      assert steps[..i + 1][..i] == steps[..i];
      var ok := Take(o, steps[i]);
      FollowsSnoc(states, old(o.source), steps, results, i, o.objects, ok);
      SparedSnoc(states, steps, i, o.objects);
      results, states := results + [ok], states + [o.objects];
    }
    assert steps[..|steps|] == steps;
    AllComeThrough(states, steps);
    AllGenerationsFollow(states, old(o.source), steps, results);
  }

  lemma StartsSpared(repo: Repo, steps: seq<Step>)
    requires Inv(repo)
    ensures AllSound([repo]) && Spared([repo], steps[..0])
  {
  }
}

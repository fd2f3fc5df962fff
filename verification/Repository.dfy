/**
 The backup repository and the orchestrator that writes it: full and incremental
 backups, deletion, restore chains and recovery generations
 (crates/nodus_backup/src/lib.rs and crates/nodus_backup/src/recovery.rs).

 Objects are keyed by their parts: a backup id, a role and a name. Names hold no '/', so the
 object whose key ends in the generation record's name is the one of that name. SHA-256 is taken
 as collision-free, so a checksum is the data it was taken of. Every operation takes a budget
 of single-object writes and stops dead when it is spent: a crash between any two writes
 is a run with a smaller budget.
 */
module Repository {
  import opened Wrappers
  import Arithmetic

  type BackupId = nat

  /** A checkpoint of the source engine (`RecoveryGeneration`). */
  datatype Generation = Generation(id: nat, walFloor: nat)

  /** The bytes of a data object, told apart only as far as `recovery::decode` does. */
  datatype Data = Blob(bytes: Bytes) | GenerationRecord(generation: Generation)

  const GENERATION_OBJECT := "recovery-generation.v1.json"

  datatype ObjKey =
    | DataKey(id: BackupId, name: string)
    | PendingKey(id: BackupId)
    | ManifestKey(id: BackupId)
    | CurrentGenerationKey

  datatype Manifest = Manifest(
    backupId: BackupId,
    format: (nat, nat),
    cluster: string,
    incremental: bool,
    parent: Option<BackupId>,
    snapshot: nat,
    files: seq<ObjKey>,
    checksums: map<ObjKey, Data>,
    completed: bool)

  datatype Content = DataDoc(data: Data) | ManifestDoc(manifest: Manifest)

  type Repo = map<ObjKey, Content>

  datatype BackupObject = BackupObject(name: string, data: Data)

  datatype Error =
    | Crashed
    | NotFound
    | UnsupportedFormat
    | NotComplete
    | ChecksumMismatch
    | BadGeneration
    | GenerationMismatch
    | SeparateRepository
    | EmptyIncremental
    | WrongCluster
    | TimestampNotGreater
    | AlreadyExists
    | UnreadableManifests
    | HasDependent(child: BackupId)
    | NoBase

  // ----------------------------------------------------------------- formats

  function ManifestFormat(clusterVersion: nat): (nat, nat) {
    if clusterVersion >= 3 then (3, 3) else if clusterVersion >= 2 then (3, 2) else (2, 1)
  }

  predicate SupportedFormat(f: (nat, nat)) {
    f == (2, 1) || f == (3, 2) || f == (3, 3)
  }

  // ------------------------------------------------------------- reading

  /** `load_manifest`. */
  function LoadManifest(repo: Repo, id: BackupId): Result<Manifest, Error> {
    if ManifestKey(id) !in repo then Err(NotFound)
    else if !repo[ManifestKey(id)].ManifestDoc? then Err(NotFound)
    else if !SupportedFormat(repo[ManifestKey(id)].manifest.format) then Err(UnsupportedFormat)
    else Ok(repo[ManifestKey(id)].manifest)
  }

  /** The file is present and its checksum is the one the manifest recorded. */
  predicate FileOk(repo: Repo, m: Manifest, k: ObjKey) {
    k in repo && repo[k].DataDoc? && k in m.checksums && m.checksums[k] == repo[k].data
  }

  /** `verify_manifest_files`. */
  predicate FilesOk(repo: Repo, m: Manifest) {
    forall i :: 0 <= i < |m.files| ==> FileOk(repo, m, m.files[i])
  }

  /** `manifest_files_present`. */
  predicate FilesPresent(repo: Repo, m: Manifest) {
    forall i :: 0 <= i < |m.files| ==> m.files[i] in repo
  }

  predicate IsGenerationFile(k: ObjKey) {
    k.DataKey? && k.name == GENERATION_OBJECT
  }

  /** Positions of the generation object among the files. */
  function GenerationFiles(files: seq<ObjKey>): (r: seq<ObjKey>)
    ensures forall k :: k in r <==> k in files && IsGenerationFile(k)
  {
    if files == [] then []
    else GenerationFiles(files[..|files| - 1]) + if IsGenerationFile(files[|files| - 1]) then [files[|files| - 1]] else []
  }

  /** `manifest_generation`. */
  function ManifestGeneration(repo: Repo, m: Manifest): Result<Option<Generation>, Error> {
    var ks := GenerationFiles(m.files);
    if ks == [] then Ok(None)
    else if |ks| > 1 then Err(BadGeneration)
    else if ks[0] !in repo then Err(NotFound)
    else if !FileOk(repo, m, ks[0]) then Err(ChecksumMismatch)
    else match repo[ks[0]].data
      case GenerationRecord(g) => Ok(Some(g))
      case Blob(_) => Err(BadGeneration)
  }

  function GenerationObjects(objs: seq<BackupObject>): (r: seq<BackupObject>)
    ensures forall o :: o in r <==> o in objs && o.name == GENERATION_OBJECT
  {
    if objs == [] then []
    else GenerationObjects(objs[..|objs| - 1]) + if objs[|objs| - 1].name == GENERATION_OBJECT then [objs[|objs| - 1]] else []
  }

  /** `object_generation`. */
  function ObjectGeneration(objs: seq<BackupObject>): Result<Option<Generation>, Error> {
    var os := GenerationObjects(objs);
    if os == [] then Ok(None)
    else if os[0].data.Blob? then Err(BadGeneration)
    else if |os| > 1 then Err(BadGeneration)
    else Ok(Some(os[0].data.generation))
  }

  /** The generation the repository publishes. */
  function KnownGeneration(repo: Repo): Option<Generation> {
    if CurrentGenerationKey in repo && repo[CurrentGenerationKey].DataDoc? && repo[CurrentGenerationKey].data.GenerationRecord?
    then Some(repo[CurrentGenerationKey].data.generation) else None
  }

  /** The published generation stays or becomes the source's; a step that goes through publishes it. */
  predicate GenerationStep(repo: Repo, source: Option<Option<Generation>>, repo': Repo, ok: bool) {
    var now := KnownGeneration(repo');
    (now == KnownGeneration(repo) || source == Some(now)) && (ok && source.Some? ==> source == Some(now))
  }

  /** What `sync_recovery_generation` answers: the source's generation, or the published one without a source. */
  function SyncResult(repo: Repo, source: Option<Option<Generation>>): Result<Option<Generation>, Error> {
    var known := KnownGeneration(repo);
    if source.None? then Ok(known)
    else if source.value.None? && known.Some? then Err(SeparateRepository)
    else Ok(source.value)
  }

  /** The objects carry the generation now current. */
  predicate ExportMatches(repo: Repo, source: Option<Option<Generation>>, objs: seq<BackupObject>) {
    SyncResult(repo, source).Ok? && ObjectGeneration(objs) == SyncResult(repo, source)
  }

  /** `verify`. */
  function Verify(repo: Repo, id: BackupId): Result<Manifest, Error> {
    var m := LoadManifest(repo, id);
    if m.Err? then m
    else if !m.value.completed then Err(NotComplete)
    else if !FilesOk(repo, m.value) then Err(ChecksumMismatch)
    else
      var g := ManifestGeneration(repo, m.value);
      if g.Err? then Err(g.error) else m
  }

  // -------------------------------------------------------------- the invariant

  /** The generation a well-formed manifest records. */
  function RecordedGeneration(m: Manifest): Option<Generation> {
    var ks := GenerationFiles(m.files);
    if |ks| == 1 && ks[0] in m.checksums && m.checksums[ks[0]].GenerationRecord?
    then Some(m.checksums[ks[0]].generation) else None
  }

  /** The manifest by itself is one the orchestrator could have written for `id`. */
  predicate WellFormed(m: Manifest, id: BackupId) {
    && m.backupId == id && m.completed && SupportedFormat(m.format)
    && m.incremental == m.parent.Some?
    && (forall i :: 0 <= i < |m.files| ==> m.files[i].DataKey? && m.files[i].id == id && m.files[i] in m.checksums)
    && |GenerationFiles(m.files)| <= 1
    && forall k :: k in GenerationFiles(m.files) ==> k in m.checksums && m.checksums[k].GenerationRecord?
  }

  predicate HasManifest(repo: Repo, id: BackupId) {
    ManifestKey(id) in repo && repo[ManifestKey(id)].ManifestDoc?
  }

  function ManifestOf(repo: Repo, id: BackupId): Manifest
    requires HasManifest(repo, id)
  {
    repo[ManifestKey(id)].manifest
  }

  /** The parent is published, undamaged, older, of the same cluster and of the same generation. */
  predicate ParentOk(repo: Repo, m: Manifest) {
    m.parent.Some? ==>
      && HasManifest(repo, m.parent.value)
      && var p := ManifestOf(repo, m.parent.value);
         && FilesOk(repo, p)
         && p.cluster == m.cluster
         && p.snapshot < m.snapshot
         && RecordedGeneration(p) == RecordedGeneration(m)
  }

  /** Every published manifest is well formed and stands on an undamaged parent. */
  ghost predicate Inv(repo: Repo) {
    && (forall id :: ManifestKey(id) in repo ==>
          HasManifest(repo, id) && WellFormed(ManifestOf(repo, id), id) && ParentOk(repo, ManifestOf(repo, id)))
    && (CurrentGenerationKey in repo ==> repo[CurrentGenerationKey].DataDoc? && repo[CurrentGenerationKey].data.GenerationRecord?)
  }

  lemma GenerationReadBack(repo: Repo, m: Manifest, id: BackupId)
    requires WellFormed(m, id) && FilesOk(repo, m)
    ensures ManifestGeneration(repo, m) == Ok(RecordedGeneration(m))
  {
    var ks := GenerationFiles(m.files);
    if ks != [] {
      assert ks[0] in m.files;
      var i :| 0 <= i < |m.files| && m.files[i] == ks[0];
      assert FileOk(repo, m, m.files[i]);
      assert ks[0] in ks;
    }
  }

  // ---------------------------------------------------------- chains and restores

  /** The backup and its ancestors, oldest first. */
  ghost function Chain(repo: Repo, id: BackupId): (c: seq<BackupId>)
    requires Inv(repo) && HasManifest(repo, id)
    ensures c != [] && c[|c| - 1] == id
    decreases ManifestOf(repo, id).snapshot
  {
    var m := ManifestOf(repo, id);
    if m.parent.None? then [id]
    else
      assert ParentOk(repo, m);
      Chain(repo, m.parent.value) + [id]
  }

  /**
   In every reachable repository a backup's ancestry is finite, starts at a full backup,
   rises strictly in snapshot, stays within one cluster and one recovery generation, and
   every ancestor is undamaged.
   */
  lemma {:induction false} ChainIsSound(repo: Repo, id: BackupId)
    requires Inv(repo) && HasManifest(repo, id)
    ensures var c := Chain(repo, id);
            && (forall i :: 0 <= i < |c| ==> HasManifest(repo, c[i]))
            && !ManifestOf(repo, c[0]).incremental
            && (forall i :: 0 < i < |c| ==> ManifestOf(repo, c[i]).parent == Some(c[i - 1]))
            && (forall i, j :: 0 <= i < j < |c| ==> ManifestOf(repo, c[i]).snapshot < ManifestOf(repo, c[j]).snapshot)
            && (forall i :: 0 <= i < |c| ==> ManifestOf(repo, c[i]).cluster == ManifestOf(repo, id).cluster)
            && (forall i :: 0 <= i < |c| ==> RecordedGeneration(ManifestOf(repo, c[i])) == RecordedGeneration(ManifestOf(repo, id)))
            && (forall i :: 0 <= i < |c| - 1 ==> FilesOk(repo, ManifestOf(repo, c[i])))
    decreases ManifestOf(repo, id).snapshot
  {
    hide RecordedGeneration, FilesOk, WellFormed;
    var m := ManifestOf(repo, id);
    assert WellFormed(m, id) && ParentOk(repo, m);
    IncrementalMeansParent(m, id);
    if m.parent.Some? {
      ChainIsSound(repo, m.parent.value);
    }
  }

  lemma CompletedOnly(m: Manifest, id: BackupId)
    requires WellFormed(m, id)
    ensures m.completed
  {
  }

  lemma IncrementalMeansParent(m: Manifest, id: BackupId)
    requires WellFormed(m, id)
    ensures m.incremental == m.parent.Some?
  {
  }

  /** The objects of one backup, as `restore_manifest_objects` lists them. */
  function OwnObjects(repo: Repo, files: seq<ObjKey>): seq<BackupObject>
    requires forall i :: 0 <= i < |files| ==> files[i].DataKey? && files[i] in repo && repo[files[i]].DataDoc?
  {
    seq(|files|, i requires 0 <= i < |files| => BackupObject(files[i].name, repo[files[i]].data))
  }

  /** What a restore returns: every ancestor's objects, root first. */
  ghost function Restored(repo: Repo, id: BackupId): seq<BackupObject>
    requires Inv(repo) && HasManifest(repo, id) && FilesOk(repo, ManifestOf(repo, id))
    decreases ManifestOf(repo, id).snapshot
  {
    var m := ManifestOf(repo, id);
    assert WellFormed(m, id);
    assert forall i :: 0 <= i < |m.files| ==> FileOk(repo, m, m.files[i]);
    var own := OwnObjects(repo, m.files);
    if m.parent.None? then own
    else
      assert ParentOk(repo, m);
      Restored(repo, m.parent.value) + own
  }

  // ------------------------------------------------------------ single writes

  // Writing an object that no manifest lists, and that is no manifest, changes nothing.
  lemma UnlistedWriteKeepsInv(repo: Repo, k: ObjKey, c: Content)
    requires Inv(repo) && (k.PendingKey? || (k.DataKey? && c.DataDoc?))
    requires k.DataKey? ==> forall id :: HasManifest(repo, id) && k in ManifestOf(repo, id).files && HasChild(repo, id) ==> k in repo && repo[k] == c
    ensures Inv(repo[k := c])
  {
    hide RecordedGeneration, WellFormed;
    var repo' := repo[k := c];
    forall id | ManifestKey(id) in repo'
      ensures HasManifest(repo', id) && WellFormed(ManifestOf(repo', id), id) && ParentOk(repo', ManifestOf(repo', id))
    {
      assert ManifestKey(id) in repo;
      var m := ManifestOf(repo, id);
      if m.parent.Some? {
        assert ParentOk(repo, m);
        var p := ManifestOf(repo, m.parent.value);
        assert IsChild(repo, id, m.parent.value);
        forall i | 0 <= i < |p.files| ensures FileOk(repo', p, p.files[i]) {
          assert FileOk(repo, p, p.files[i]);
          if p.files[i] == k {
            DataFilesOnly(p, m.parent.value, i, repo);
          }
        }
      }
    }
  }

  lemma DataFilesOnly(m: Manifest, id: BackupId, i: nat, repo: Repo)
    requires Inv(repo) && HasManifest(repo, id) && m == ManifestOf(repo, id) && i < |m.files|
    ensures m.files[i].DataKey? && m.files[i].id == id
  {
    assert WellFormed(m, id);
  }

  ghost predicate IsChild(repo: Repo, child: BackupId, id: BackupId) {
    HasManifest(repo, child) && ManifestOf(repo, child).parent == Some(id)
  }

  ghost predicate HasChild(repo: Repo, id: BackupId) {
    exists child :: IsChild(repo, child, id)
  }

  // ------------------------------------------------------------------- uploads

  /** The repository after the first `n` data objects were uploaded. */
  function Uploaded(repo: Repo, id: BackupId, objs: seq<BackupObject>, n: nat): Repo
    requires n <= |objs|
  {
    if n == 0 then repo else Uploaded(repo, id, objs, n - 1)[DataKey(id, objs[n - 1].name) := DataDoc(objs[n - 1].data)]
  }

  ghost predicate Lists(repo: Repo, id: BackupId, k: ObjKey) {
    HasManifest(repo, id) && k in ManifestOf(repo, id).files
  }

  /** A completed backup whose files are all there and as its manifest recorded them. */
  ghost predicate Undamaged(repo: Repo, id: BackupId) {
    HasManifest(repo, id) && FilesOk(repo, ManifestOf(repo, id))
  }

  /** An undamaged backup is still there, the same. */
  ghost predicate Kept(repo: Repo, repo': Repo, id: BackupId)
    requires Undamaged(repo, id)
  {
    Undamaged(repo', id) && ManifestOf(repo', id) == ManifestOf(repo, id)
  }

  ghost predicate KeepsAll(repo: Repo, repo': Repo) {
    forall id :: Undamaged(repo, id) ==> Kept(repo, repo', id)
  }

  /**
   The id may be written to: it names no undamaged backup, or what is uploaded under it is
   what that backup already lists. A fresh id always may.
   */
  ghost predicate SafeToWrite(repo: Repo, id: BackupId, objs: seq<BackupObject>) {
    Undamaged(repo, id) ==> forall i :: 0 <= i < |objs| ==> UploadHarmless(repo, id, objs[i])
  }

  ghost predicate UploadHarmless(repo: Repo, id: BackupId, o: BackupObject) {
    var k := DataKey(id, o.name);
    Lists(repo, id, k) ==> k in repo && repo[k] == DataDoc(o.data)
  }

  // Uploads touch data objects of the id only.
  lemma {:induction false} UploadedElsewhere(repo: Repo, id: BackupId, objs: seq<BackupObject>, n: nat, k: ObjKey)
    requires n <= |objs|
    requires !(k.DataKey? && k.id == id)
    ensures k in Uploaded(repo, id, objs, n) <==> k in repo
    ensures k in repo ==> Uploaded(repo, id, objs, n)[k] == repo[k]
  {
    if n > 0 { UploadedElsewhere(repo, id, objs, n - 1, k); }
  }

  // Re-uploading what is listed leaves the listed objects as they were.
  lemma {:induction false} UploadedListed(repo: Repo, id: BackupId, objs: seq<BackupObject>, n: nat, k: ObjKey)
    requires n <= |objs| && Lists(repo, id, k) && k in repo
    requires forall i :: 0 <= i < |objs| ==> UploadHarmless(repo, id, objs[i])
    ensures k in Uploaded(repo, id, objs, n) && Uploaded(repo, id, objs, n)[k] == repo[k]
  {
    if n > 0 {
      UploadedListed(repo, id, objs, n - 1, k);
      assert UploadHarmless(repo, id, objs[n - 1]);
    }
  }

  lemma ParentUndamaged(repo: Repo, child: BackupId, id: BackupId)
    requires Inv(repo) && IsChild(repo, child, id)
    ensures Undamaged(repo, id)
  {
    assert ParentOk(repo, ManifestOf(repo, child));
  }

  lemma {:induction false} SafeUploadKeepsInv(repo: Repo, id: BackupId, objs: seq<BackupObject>, n: nat)
    requires Inv(repo) && SafeToWrite(repo, id, objs) && n <= |objs|
    ensures Inv(Uploaded(repo, id, objs, n))
  {
    hide Inv, FilesOk;
    if n > 0 {
      SafeUploadKeepsInv(repo, id, objs, n - 1);
      var now, k, c := Uploaded(repo, id, objs, n - 1), DataKey(id, objs[n - 1].name), DataDoc(objs[n - 1].data);
      forall j | HasManifest(now, j) && k in ManifestOf(now, j).files && HasChild(now, j)
        ensures k in now && now[k] == c
      {
        var f :| 0 <= f < |ManifestOf(now, j).files| && ManifestOf(now, j).files[f] == k;
        DataFilesOnly(ManifestOf(now, j), j, f, now);
        assert j == id;
        UploadedElsewhere(repo, id, objs, n - 1, ManifestKey(id));
        var child :| IsChild(now, child, id);
        UploadedElsewhere(repo, id, objs, n - 1, ManifestKey(child));
        ParentUndamaged(repo, child, id);
        assert UploadHarmless(repo, id, objs[n - 1]);
        UploadedListed(repo, id, objs, n - 1, k);
      }
      UnlistedWriteKeepsInv(now, k, c);
    }
  }

  lemma SafeUploadKeepsAll(repo: Repo, id: BackupId, objs: seq<BackupObject>, n: nat)
    requires Inv(repo) && SafeToWrite(repo, id, objs) && n <= |objs|
    ensures KeepsAll(repo, Uploaded(repo, id, objs, n))
  {
    hide Inv, Uploaded, WellFormed;
    var now := Uploaded(repo, id, objs, n);
    forall j | Undamaged(repo, j) ensures Kept(repo, now, j) {
      UploadedElsewhere(repo, id, objs, n, ManifestKey(j));
      var m := ManifestOf(repo, j);
      forall i | 0 <= i < |m.files| ensures FileOk(now, m, m.files[i]) {
        assert FileOk(repo, m, m.files[i]);
        DataFilesOnly(m, j, i, repo);
        if j == id {
          UploadedListed(repo, id, objs, n, m.files[i]);
        } else {
          UploadedElsewhere(repo, id, objs, n, m.files[i]);
        }
      }
    }
  }

  lemma OverwriteDamages(repo: Repo, id: BackupId, objs: seq<BackupObject>, i: nat)
    requires Undamaged(repo, id) && i < |objs| && !UploadHarmless(repo, id, objs[i])
    ensures !Undamaged(Uploaded(repo, id, objs, i + 1), id)
  {
    var now, k := Uploaded(repo, id, objs, i + 1), DataKey(id, objs[i].name);
    UploadedElsewhere(repo, id, objs, i + 1, ManifestKey(id));
    var m := ManifestOf(repo, id);
    var f :| 0 <= f < |m.files| && m.files[f] == k;
    assert FileOk(repo, m, m.files[f]);
    assert !FileOk(now, m, m.files[f]);
  }

  /**
   Uploading comes before the check for an existing manifest, so reusing an id can damage the
   backup it names. No completed backup is damaged at any crash point exactly when that backup,
   if undamaged, already lists every uploaded object that it lists at all with the same data.
   */
  lemma UploadSafeExactly(repo: Repo, id: BackupId, objs: seq<BackupObject>)
    requires Inv(repo)
    ensures (forall n :: 0 <= n <= |objs| ==> KeepsAll(repo, Uploaded(repo, id, objs, n))) <==> SafeToWrite(repo, id, objs)
    ensures SafeToWrite(repo, id, objs) ==> forall n :: 0 <= n <= |objs| ==> Inv(Uploaded(repo, id, objs, n))
  {
    hide Inv, Undamaged, Uploaded;
    if SafeToWrite(repo, id, objs) {
      forall n | 0 <= n <= |objs| ensures Inv(Uploaded(repo, id, objs, n)) && KeepsAll(repo, Uploaded(repo, id, objs, n)) {
        SafeUploadKeepsInv(repo, id, objs, n);
        SafeUploadKeepsAll(repo, id, objs, n);
      }
    } else {
      var i :| 0 <= i < |objs| && !UploadHarmless(repo, id, objs[i]);
      OverwriteDamages(repo, id, objs, i);
      assert !KeepsAll(repo, Uploaded(repo, id, objs, i + 1));
    }
  }

  /** One completed backup, and an upload of other data under its id: the backup is damaged by the first write. */
  lemma ReusedIdDamages()
    ensures var objs, others := [BackupObject("a", Blob([1]))], [BackupObject("a", Blob([2]))];
            var m := Manifest(7, (3, 3), "c", false, None, 5, FilesFor(7, objs), ChecksumsFor(7, objs), true);
            var repo: Repo := map[DataKey(7, "a") := DataDoc(Blob([1])), ManifestKey(7) := ManifestDoc(m)];
            Inv(repo) && Undamaged(repo, 7) && !SafeToWrite(repo, 7, others) && !Undamaged(Uploaded(repo, 7, others, 1), 7)
  {
    var objs, others := [BackupObject("a", Blob([1]))], [BackupObject("a", Blob([2]))];
    var m := Manifest(7, (3, 3), "c", false, None, 5, FilesFor(7, objs), ChecksumsFor(7, objs), true);
    var repo: Repo := map[DataKey(7, "a") := DataDoc(Blob([1])), ManifestKey(7) := ManifestDoc(m)];
    var k := DataKey(7, "a");
    assert objs[..0] == [] && ChecksumsFor(7, objs) == map[k := Blob([1])] && FilesFor(7, objs) == [k];
    assert GenerationFiles([k]) == [] by { assert [k][..0] == []; assert !IsGenerationFile(k); }
    assert [1] != [2] by { assert [1][0] != [2][0]; }
    assert m.files[0] in m.files;
    assert !UploadHarmless(repo, 7, others[0]);
    OverwriteDamages(repo, 7, others, 0);
  }

  // -------------------------------------------------------------- publication

  function FilesFor(id: BackupId, objs: seq<BackupObject>): seq<ObjKey> {
    seq(|objs|, i requires 0 <= i < |objs| => DataKey(id, objs[i].name))
  }

  function ChecksumsFor(id: BackupId, objs: seq<BackupObject>): map<ObjKey, Data> {
    if objs == [] then map[]
    else ChecksumsFor(id, objs[..|objs| - 1])[DataKey(id, objs[|objs| - 1].name) := objs[|objs| - 1].data]
  }

  lemma {:induction false} ChecksumsHold(id: BackupId, objs: seq<BackupObject>)
    ensures forall i :: 0 <= i < |objs| ==> DataKey(id, objs[i].name) in ChecksumsFor(id, objs)
    ensures forall k :: k in ChecksumsFor(id, objs) ==>
              exists i :: 0 <= i < |objs| && k == DataKey(id, objs[i].name) && ChecksumsFor(id, objs)[k] == objs[i].data
  {
    if objs != [] {
      var init := objs[..|objs| - 1];
      ChecksumsHold(id, init);
      forall k | k in ChecksumsFor(id, objs)
        ensures exists i :: 0 <= i < |objs| && k == DataKey(id, objs[i].name) && ChecksumsFor(id, objs)[k] == objs[i].data
      {
        if k != DataKey(id, objs[|objs| - 1].name) {
          var i :| 0 <= i < |init| && k == DataKey(id, init[i].name) && ChecksumsFor(id, init)[k] == init[i].data;
          assert objs[i] == init[i];
        }
      }
    }
  }

  lemma {:induction false} GenerationFilesFor(id: BackupId, objs: seq<BackupObject>)
    ensures GenerationFiles(FilesFor(id, objs)) == FilesFor(id, GenerationObjects(objs))
  {
    if objs != [] {
      var init := objs[..|objs| - 1];
      GenerationFilesFor(id, init);
      assert FilesFor(id, objs)[..|objs| - 1] == FilesFor(id, init);
      assert FilesFor(id, objs)[|objs| - 1] == DataKey(id, objs[|objs| - 1].name);
    }
  }

  /** The manifest of a new backup records the generation its objects carry. */
  lemma NewManifest(m: Manifest, id: BackupId, objs: seq<BackupObject>)
    requires m.backupId == id && m.completed && SupportedFormat(m.format) && m.incremental == m.parent.Some?
    requires m.files == FilesFor(id, objs) && m.checksums == ChecksumsFor(id, objs)
    requires ObjectGeneration(objs).Ok?
    ensures WellFormed(m, id) && RecordedGeneration(m) == ObjectGeneration(objs).value
  {
    hide GenerationFiles, GenerationObjects, ChecksumsFor;
    ChecksumsHold(id, objs);
    GenerationFilesFor(id, objs);
    var os, ks := GenerationObjects(objs), GenerationFiles(m.files);
    assert |ks| == |os|;
    if os != [] {
      assert ks == [DataKey(id, os[0].name)];
      GenerationChecksum(id, objs, os[0]);
    }
  }

  // The one object named as the generation record is the one its checksum was taken of.
  lemma GenerationChecksum(id: BackupId, objs: seq<BackupObject>, o: BackupObject)
    requires GenerationObjects(objs) == [o]
    ensures o.name == GENERATION_OBJECT
    ensures DataKey(id, o.name) in ChecksumsFor(id, objs) && ChecksumsFor(id, objs)[DataKey(id, o.name)] == o.data
  {
    hide GenerationObjects, ChecksumsFor;
    ChecksumsHold(id, objs);
    assert o in GenerationObjects(objs);
    var i :| 0 <= i < |objs| && objs[i] == o;
    assert DataKey(id, objs[i].name) in ChecksumsFor(id, objs);
    var j :| 0 <= j < |objs| && DataKey(id, o.name) == DataKey(id, objs[j].name) && ChecksumsFor(id, objs)[DataKey(id, o.name)] == objs[j].data;
    assert objs[j] in GenerationObjects(objs);
  }

  lemma PublishKeepsInv(repo: Repo, id: BackupId, m: Manifest)
    requires Inv(repo) && ManifestKey(id) !in repo
    requires WellFormed(m, id) && ParentOk(repo, m)
    ensures Inv(repo[ManifestKey(id) := ManifestDoc(m)])
  {
    hide WellFormed, RecordedGeneration;
    var repo' := repo[ManifestKey(id) := ManifestDoc(m)];
    forall j | ManifestKey(j) in repo'
      ensures HasManifest(repo', j) && WellFormed(ManifestOf(repo', j), j) && ParentOk(repo', ManifestOf(repo', j))
    {
      var mj := if j == id then m else ManifestOf(repo, j);
      if mj.parent.Some? {
        assert ParentOk(repo, mj);
        SameFiles(repo, repo', ManifestOf(repo, mj.parent.value), mj.parent.value);
      }
    }
  }

  lemma SameFiles(repo: Repo, repo': Repo, p: Manifest, id: BackupId)
    requires Inv(repo) && HasManifest(repo, id) && p == ManifestOf(repo, id) && FilesOk(repo, p)
    requires forall k: ObjKey :: k.DataKey? && k.id == id && k in repo ==> k in repo' && repo'[k] == repo[k]
    ensures FilesOk(repo', p)
  {
    forall i | 0 <= i < |p.files| ensures FileOk(repo', p, p.files[i]) {
      assert FileOk(repo, p, p.files[i]);
      DataFilesOnly(p, id, i, repo);
    }
  }

  // ----------------------------------------------------------------- deletion

  /** Removing objects of a backup nothing depends on keeps every other backup whole. */
  lemma DeletionKeepsInv(repo: Repo, id: BackupId, gone: set<ObjKey>)
    requires Inv(repo) && !HasChild(repo, id)
    requires forall k :: k in gone ==> !k.CurrentGenerationKey? && k.id == id
    ensures Inv(repo - gone)
  {
    hide WellFormed, RecordedGeneration;
    var repo' := repo - gone;
    forall j | ManifestKey(j) in repo'
      ensures HasManifest(repo', j) && WellFormed(ManifestOf(repo', j), j) && ParentOk(repo', ManifestOf(repo', j))
    {
      var m := ManifestOf(repo, j);
      if m.parent.Some? {
        assert ParentOk(repo, m);
        assert IsChild(repo, j, m.parent.value);
        assert m.parent.value != id;
        SameFiles(repo, repo', ManifestOf(repo, m.parent.value), m.parent.value);
      }
    }
  }

  // ------------------------------------------------------------ the orchestrator

  class Orchestrator {
    var objects: Repo
    /** The source engine's generation, when a source is bound. */
    var source: Option<Option<Generation>>

    constructor (source: Option<Option<Generation>>)
      ensures objects == map[] && Inv(objects) && this.source == source
    {
      this.objects := map[];
      this.source := source;
    }

    /** A storage checkpoint on the source gives it a new generation. */
    method Checkpoint(generation: Generation)
      modifies this
      ensures objects == old(objects)
      ensures source == if old(source).Some? then Some(Some(generation)) else None
    {
      if source.Some? { source := Some(Some(generation)); }
    }

    /** `sync_recovery_generation`: publishes the source's generation before anything depends on it. */
    method SyncRecoveryGeneration(budget: nat) returns (r: Result<Option<Generation>, Error>, left: nat)
      requires Inv(objects)
      modifies this`objects
      ensures Inv(objects) && left <= budget
      ensures r == SyncResult(old(objects), source) || (r == Err(Crashed) && budget == 0)
      ensures budget > 0 ==> budget - 1 <= left
      ensures objects == old(objects) || exists g :: objects == old(objects)[CurrentGenerationKey := DataDoc(GenerationRecord(g))]
      ensures r.Ok? && source.Some? ==> r.value == source.value
      ensures r.Ok? ==> KnownGeneration(objects) == r.value && (r.value.None? ==> CurrentGenerationKey !in objects)
      ensures r.Err? || source.None? ==> objects == old(objects)
    {
      left := budget;
      var known: Option<Generation> := None;
      if CurrentGenerationKey in objects { known := Some(objects[CurrentGenerationKey].data.generation); }
      if source.None? { return Ok(known), left; }
      var current := source.value;
      if current.None? && known.Some? { return Err(SeparateRepository), left; }
      if current != known && current.Some? {
        if left == 0 { return Err(Crashed), left; }
        CurrentGenerationKeepsInv(objects, current.value);
        objects := objects[CurrentGenerationKey := DataDoc(GenerationRecord(current.value))];
        left := left - 1;
      }
      r := Ok(current);
    }

    /** `upload_objects`. */
    method UploadObjects(id: BackupId, objs: seq<BackupObject>, budget: nat)
      returns (r: Result<(seq<ObjKey>, map<ObjKey, Data>), Error>, left: nat)
      modifies this`objects
      ensures objects == Uploaded(old(objects), id, objs, if budget < |objs| then budget else |objs|)
      ensures if budget < |objs| then r == Err(Crashed) && left == 0
              else r == Ok((FilesFor(id, objs), ChecksumsFor(id, objs))) && left == budget - |objs|
    {
      left := budget;
      var files: seq<ObjKey> := [];
      var checksums: map<ObjKey, Data> := map[];
      for i := 0 to |objs|
        invariant left == budget - i
        invariant objects == Uploaded(old(objects), id, objs, i)
        invariant files == FilesFor(id, objs[..i]) && checksums == ChecksumsFor(id, objs[..i])
      {
        assert objs[..i + 1][..i] == objs[..i];
        if left == 0 { return Err(Crashed), 0; }
        var k := DataKey(id, objs[i].name);
        objects := objects[k := DataDoc(objs[i].data)];
        left := left - 1;
        checksums := checksums[k := objs[i].data];
        files := files + [k];
        assert files == FilesFor(id, objs[..i + 1]);
      }
      assert objs[..|objs|] == objs;
      r := Ok((files, checksums));
    }

    /** The pending manifest, the checks, the completed manifest, and the cleanup. */
    method Publish(m: Manifest, budget: nat) returns (r: Result<Manifest, Error>)
      requires WellFormed(m, m.backupId)
      modifies this`objects
      ensures Inv(old(objects)) && (ManifestKey(m.backupId) !in old(objects) ==> ParentOk(old(objects), m)) ==> Inv(objects)
      ensures r.Ok? ==> r.value == m && ManifestKey(m.backupId) !in old(objects) && FilesOk(old(objects), m)
      ensures budget >= 3 && ManifestKey(m.backupId) !in old(objects) && FilesOk(old(objects), m) ==> r.Ok?
      ensures r.Ok? ==> objects == (old(objects) - {PendingKey(m.backupId)})[ManifestKey(m.backupId) := ManifestDoc(m)]
      ensures OnlyManifest(old(objects), objects, m.backupId)
    {
      hide Inv, WellFormed, ParentOk, FilesOk, Verify, OnlyManifest;
      var id := m.backupId;
      NothingWritten(objects, id, []);
      if budget == 0 { return Err(Crashed); }
      ghost var sound := Inv(objects) && (ManifestKey(id) !in objects ==> ParentOk(objects, m));
      var pending := m.(completed := false);
      if sound { PendingKeepsInv(objects, id, ManifestDoc(pending)); }
      objects := objects[PendingKey(id) := ManifestDoc(pending)];
      OnlyPending(old(objects), id, ManifestDoc(pending), ManifestDoc(m));
      PendingFiles(old(objects), objects, m);
      if !FilesOk(objects, pending) { return Err(ChecksumMismatch); }
      if ManifestKey(id) in objects { return Err(AlreadyExists); }
      if budget == 1 { return Err(Crashed); }
      if sound {
        PendingParent(old(objects), id, ManifestDoc(pending), m);
        PublishKeepsInv(objects, id, m);
      }
      objects := objects[ManifestKey(id) := ManifestDoc(m)];
      PublishedVerifies(old(objects), objects, m);
      if Verify(objects, id).Err? { return Err(ChecksumMismatch); }
      if budget == 2 { return Err(Crashed); }
      if sound { PendingDropKeepsInv(objects, id); }
      objects := objects - {PendingKey(id)};
      assert objects == (old(objects) - {PendingKey(id)})[ManifestKey(id) := ManifestDoc(m)];
      r := Ok(m);
    }

    /** `validate_export_generation`: the objects carry the generation now current. */
    method ValidateExport(objs: seq<BackupObject>, budget: nat) returns (r: Result<Option<Generation>, Error>, left: nat)
      requires Inv(objects)
      modifies this`objects
      ensures Inv(objects) && left <= budget
      ensures r.Ok? ==> ObjectGeneration(objs) == Ok(r.value) && (source.Some? ==> r.value == source.value)
      ensures SameButGeneration(old(objects), objects) && GenerationStep(old(objects), source, objects, r.Ok?)
      ensures budget > 0 ==> (r.Ok? <==> ExportMatches(old(objects), source, objs)) && budget - 1 <= left
    {
      hide Inv, SyncResult, ObjectGeneration;
      r, left := SyncRecoveryGeneration(budget);
      if r.Err? { return; }
      var g := ObjectGeneration(objs);
      if g.Err? { return Err(g.error), left; }
      if g.value != r.value { return Err(GenerationMismatch), left; }
    }

    /**
     `create_full_backup_named`. At whatever write it stops, the repository stays sound,
     provided the id is safe to write to; when it completes, exactly this backup has been
     added, verified, under the generation its objects carry.
     */
    method CreateFullBackup(id: BackupId, cluster: string, backupTs: nat, clusterVersion: nat, objs: seq<BackupObject>, budget: nat)
      returns (r: Result<Manifest, Error>)
      requires Inv(objects)
      modifies this`objects
      ensures SafeToWrite(old(objects), id, objs) ==> Inv(objects) && KeepsAll(old(objects), objects)
      ensures forall j :: j != id ==> SameBackup(old(objects), objects, j)
      ensures GenerationStep(old(objects), source, objects, r.Ok?)
      ensures r.Ok? ==> Published(objects, id, r.value, objs) && !r.value.incremental && r.value.cluster == cluster && r.value.snapshot == backupTs
      ensures r.Ok? ==> !HasManifest(old(objects), id)
      ensures budget >= |objs| + 4 ==> (r.Ok? <==> ExportMatches(old(objects), source, objs) && ManifestKey(id) !in old(objects))
    {
      hide Inv, SafeToWrite, WellFormed, FilesOk, RecordedGeneration, Uploaded, ObjectGeneration, HasManifest, ExportMatches,
           KeepsAll, SameBackup, OnlyManifest, SameButGeneration, KnownGeneration;
      var g, left := ValidateExport(objs, budget);
      ghost var synced := objects;
      SafetyKept(old(objects), synced, id, objs);
      NothingWritten(synced, id, objs);
      CreationStopped(old(objects), synced, id, objs, 0, synced);
      if g.Err? { return Err(g.error); }
      var up, left' := UploadObjects(id, objs, left);
      ghost var n := if left < |objs| then left else |objs|;
      if SafeToWrite(synced, id, objs) { SafeUploadKeepsInv(synced, id, objs, n); }
      NothingWritten(objects, id, objs);
      CreationStopped(old(objects), synced, id, objs, n, objects);
      if up.Err? { return Err(up.error); }
      var m := Manifest(id, ManifestFormat(clusterVersion), cluster, false, None, backupTs, up.value.0, up.value.1, true);
      NewManifest(m, id, objs);
      UploadVerifies(synced, id, objs, m);
      r := Publish(m, left');
      CreationStopped(old(objects), synced, id, objs, n, objects);
      if r.Ok? { PublishedNow(old(objects), synced, objects, id, m, objs); }
    }

    /**
     `create_incremental_backup_named`. On top of what a full backup guarantees, the
     completed backup stands on its parent: same cluster, later snapshot, same generation.
     */
    method CreateIncrementalBackup(id: BackupId, cluster: string, parentId: BackupId, backupTs: nat, clusterVersion: nat,
                                   objs: seq<BackupObject>, budget: nat)
      returns (r: Result<Manifest, Error>)
      requires Inv(objects)
      modifies this`objects
      ensures SafeToWrite(old(objects), id, objs) ==> Inv(objects) && KeepsAll(old(objects), objects)
      ensures forall j :: j != id ==> SameBackup(old(objects), objects, j)
      ensures GenerationStep(old(objects), source, objects, r.Ok?)
      ensures r.Ok? ==> Published(objects, id, r.value, objs) && r.value.parent == Some(parentId) && r.value.cluster == cluster && r.value.snapshot == backupTs
      ensures r.Ok? ==> HasManifest(objects, parentId) && ParentOk(objects, r.value)
      ensures r.Ok? ==> !HasManifest(old(objects), id)
      ensures budget >= |objs| + 4 ==>
                (r.Ok? <==> objs != [] && Verify(old(objects), parentId).Ok?
                            && ManifestOf(old(objects), parentId).cluster == cluster
                            && ManifestOf(old(objects), parentId).snapshot < backupTs
                            && ExportMatches(old(objects), source, objs)
                            && ManifestGeneration(old(objects), ManifestOf(old(objects), parentId)) == ObjectGeneration(objs)
                            && ManifestKey(id) !in old(objects))
    {
      hide Inv, SafeToWrite, WellFormed, FilesOk, RecordedGeneration, Uploaded, ObjectGeneration, ParentOk, Verify, ManifestGeneration,
           ExportMatches, KeepsAll, SameBackup, OnlyManifest, SameButGeneration, KnownGeneration;
      NothingWritten(objects, id, objs);
      if objs == [] { return Err(EmptyIncremental); }
      var v := Verify(objects, parentId);
      if v.Err? { return Err(v.error); }
      var parent := v.value;
      VerifiedParent(objects, parentId);
      if parent.cluster != cluster { return Err(WrongCluster); }
      if backupTs <= parent.snapshot { return Err(TimestampNotGreater); }
      var g, left := ValidateExport(objs, budget);
      ghost var synced := objects;
      SafetyKept(old(objects), synced, id, objs);
      NothingWritten(synced, id, objs);
      CreationStopped(old(objects), synced, id, objs, 0, synced);
      if g.Err? { return Err(g.error); }
      ParentGenerationKept(old(objects), synced, parentId);
      var pg := ManifestGeneration(objects, parent);
      if pg.Err? { return Err(pg.error); }
      if pg.value != g.value { return Err(GenerationMismatch); }
      var up, left' := UploadObjects(id, objs, left);
      ghost var n := if left < |objs| then left else |objs|;
      if SafeToWrite(synced, id, objs) { SafeUploadKeepsInv(synced, id, objs, n); }
      NothingWritten(objects, id, objs);
      CreationStopped(old(objects), synced, id, objs, n, objects);
      if up.Err? { return Err(up.error); }
      var m := Manifest(id, ManifestFormat(clusterVersion), cluster, true, Some(parentId), backupTs, up.value.0, up.value.1, true);
      NewManifest(m, id, objs);
      StandsOnParent(old(objects), synced, id, objs, m, parentId);
      UploadVerifies(synced, id, objs, m);
      r := Publish(m, left');
      CreationStopped(old(objects), synced, id, objs, n, objects);
      if r.Ok? {
        PublishedNow(old(objects), synced, objects, id, m, objs);
        ParentStays(old(objects), objects, id, m);
      }
    }

    /** `delete_backup`: refused while anything depends on the backup or a manifest cannot be read. */
    method DeleteBackup(id: BackupId, budget: nat) returns (r: Result<(), Error>)
      requires Inv(objects)
      modifies this`objects
      ensures Inv(objects)
      ensures objects.Keys <= old(objects).Keys && forall k :: k in objects ==> objects[k] == old(objects)[k]
      ensures forall k :: k in old(objects) && (k.CurrentGenerationKey? || k.id != id) ==> k in objects
      ensures r.Ok? ==> forall k :: k in objects ==> k.CurrentGenerationKey? || k.id != id
      ensures r.Err? && r.error != Crashed ==> objects == old(objects)
      ensures Deletable(old(objects), id) && |old(objects).Keys| <= budget ==> r.Ok?
      ensures !Deletable(old(objects), id) ==> r.Err? && objects == old(objects)
    {
      hide Inv;
      var manifests := set k | k in objects && k.ManifestKey? :: k.id;
      ManifestsDecode(objects);
      if j :| j in manifests && !FilesPresent(objects, ManifestOf(objects, j)) {
        return Err(UnreadableManifests);
      }
      if j :| j in manifests && ManifestOf(objects, j).parent == Some(id) {
        assert IsChild(objects, j, id);
        return Err(HasDependent(j));
      }
      assert !HasChild(objects, id);
      var keys := set k | k in objects && !k.CurrentGenerationKey? && k.id == id;
      ghost var gone;
      r, gone := RemoveObjects(keys, budget);
      DeletionKeepsInv(old(objects), id, gone);
    }

    /** Deletes the listed objects one by one, in any order. */
    method RemoveObjects(keys: set<ObjKey>, budget: nat) returns (r: Result<(), Error>, ghost gone: set<ObjKey>)
      requires keys <= objects.Keys
      modifies this`objects
      ensures gone <= keys && objects == old(objects) - gone
      ensures if |old(objects).Keys| <= budget then r.Ok? else r.Ok? || r == Err(Crashed)
      ensures r.Ok? ==> gone == keys
    {
      var todo, left := keys, budget;
      gone := {};
      assert objects == old(objects) - gone;
      while todo != {}
        invariant todo <= keys && gone == keys - todo && left == budget - |gone|
        invariant objects == old(objects) - gone
      {
        if left == 0 {
          BudgetSpent(old(objects).Keys, keys, todo, budget);
          return Err(Crashed), gone;
        }
        var k :| k in todo;
        OneMoreGone(old(objects), keys, todo, k);
        objects := objects - {k};
        todo, left, gone := todo - {k}, left - 1, gone + {k};
      }
      r := Ok(());
    }

    /** `restore`: succeeds exactly for an undamaged backup, and returns its chain's objects root first. */
    method Restore(id: BackupId) returns (r: Result<seq<BackupObject>, Error>)
      requires Inv(objects)
      ensures r.Ok? <==> HasManifest(objects, id) && FilesOk(objects, ManifestOf(objects, id))
      ensures r.Ok? ==> r.value == Restored(objects, id)
      decreases if HasManifest(objects, id) then ManifestOf(objects, id).snapshot else 0
    {
      ManifestsDecode(objects);
      var v := Verify(objects, id);
      VerifiesExactly(objects, id);
      if v.Err? { return Err(v.error); }
      var m := v.value;
      assert WellFormed(m, id) && ParentOk(objects, m);
      assert forall i :: 0 <= i < |m.files| ==> FileOk(objects, m, m.files[i]);
      if m.incremental {
        var parentId := m.parent.value;
        var p := LoadManifest(objects, parentId);
        assert WellFormed(ManifestOf(objects, parentId), parentId);
        GenerationReadBack(objects, p.value, parentId);
        GenerationReadBack(objects, m, id);
        if ManifestGeneration(objects, p.value) != ManifestGeneration(objects, m) { return Err(GenerationMismatch); }
        var rest := Restore(parentId);
        if rest.Err? { return rest; }
        return Ok(rest.value + OwnObjects(objects, m.files));
      }
      r := Ok(OwnObjects(objects, m.files));
    }

    /** `backup_chain_for_restore`: the ids from the root to the backup. */
    method BackupChainForRestore(id: BackupId) returns (r: Result<seq<BackupId>, Error>)
      requires Inv(objects) && HasManifest(objects, id) && FilesOk(objects, ManifestOf(objects, id))
      ensures r == Ok(Chain(objects, id))
    {
      hide RecordedGeneration, ManifestGeneration, WellFormed, FilesOk;
      var chain: seq<BackupId> := [];
      var current := id;
      while true
        invariant HasManifest(objects, current) && FilesOk(objects, ManifestOf(objects, current))
        invariant Chain(objects, id) == Chain(objects, current) + chain
        decreases ManifestOf(objects, current).snapshot
      {
        var m := ManifestOf(objects, current);
        assert WellFormed(m, current) && ParentOk(objects, m);
        chain := [current] + chain;
        if m.parent.None? { break; }
        var parentId := m.parent.value;
        assert WellFormed(ManifestOf(objects, parentId), parentId);
        GenerationReadBack(objects, ManifestOf(objects, parentId), parentId);
        GenerationReadBack(objects, m, current);
        if ManifestGeneration(objects, ManifestOf(objects, parentId)) != ManifestGeneration(objects, m) { return Err(GenerationMismatch); }
        CompletedOnly(ManifestOf(objects, parentId), parentId);
        if !ManifestOf(objects, parentId).completed { return Err(NotComplete); }
        current := parentId;
      }
      r := Ok(chain);
    }

    /**
     The base `plan_pitr_restore` chooses: the newest completed snapshot at or before the
     target, the greatest id among equals, verified, and, unless the target is that very
     snapshot, of the recovery generation now current.
     */
    method ChooseBase(target: nat, budget: nat) returns (r: Result<(BackupId, seq<BackupId>), Error>)
      requires Inv(objects)
      modifies this`objects
      ensures Inv(objects) && SameButGeneration(old(objects), objects)
      ensures r.Ok? ==> BaseFor(old(objects), target, r.value.0) && r.value.1 == Chain(objects, r.value.0)
      ensures r.Ok? && ManifestOf(old(objects), r.value.0).snapshot != target ==>
                SyncResult(old(objects), source) == Ok(RecordedGeneration(ManifestOf(old(objects), r.value.0)))
      ensures (forall id :: !Eligible(old(objects), target, id)) ==> r == Err(NoBase)
      ensures forall id :: BaseFor(old(objects), target, id) && BaseUsable(old(objects), source, target, id) && budget > 0 ==> r.Ok? && r.value.0 == id
    {
      hide Inv, RecordedGeneration, ManifestGeneration, Verify, SyncResult, Chain;
      ManifestsDecode(objects);
      var todo := set k | k in objects && k.ManifestKey? :: k.id;
      ghost var all := todo;
      var best: Option<BackupId> := None;
      while todo != {}
        invariant todo <= all
        invariant best.None? ==> forall id :: id in all - todo ==> !Eligible(objects, target, id)
        invariant best.Some? ==> Eligible(objects, target, best.value)
        invariant best.Some? ==> forall id :: id in all - todo && Eligible(objects, target, id) ==> !Newer(objects, id, best.value)
      {
        var id :| id in todo;
        todo := todo - {id};
        if Eligible(objects, target, id) && (best.None? || Newer(objects, id, best.value)) { best := Some(id); }
      }
      forall id | Eligible(objects, target, id) ensures id in all { assert ManifestKey(id) in objects; }
      if best.None? { return Err(NoBase); }
      var id := best.value;
      VerifiesExactly(objects, id);
      var v := Verify(objects, id);
      if v.Err? { return Err(v.error); }
      var m := v.value;
      if m.snapshot != target {
        var current, _ := SyncRecoveryGeneration(budget);
        KeptThroughSync(old(objects), objects, id);
        if current.Err? { return Err(current.error); }
        ReadBack(objects, id);
        var g := ManifestGeneration(objects, m);
        if g != current { return Err(GenerationMismatch); }
      }
      var chain := BackupChainForRestore(id);
      r := Ok((id, chain.value));
    }
  }

  /** A completed backup with its objects present, taken at or before the target. */
  predicate Eligible(repo: Repo, target: nat, id: BackupId) {
    HasManifest(repo, id) && FilesPresent(repo, ManifestOf(repo, id)) && ManifestOf(repo, id).snapshot <= target
  }

  /** `a` is preferred to `b` as a base. */
  predicate Newer(repo: Repo, a: BackupId, b: BackupId)
    requires HasManifest(repo, a) && HasManifest(repo, b)
  {
    var sa, sb := ManifestOf(repo, a).snapshot, ManifestOf(repo, b).snapshot;
    sa > sb || (sa == sb && a > b)
  }

  ghost predicate BaseFor(repo: Repo, target: nat, id: BackupId) {
    Eligible(repo, target, id) && forall j :: Eligible(repo, target, j) ==> !Newer(repo, j, id)
  }

  /** The base is undamaged and, if WAL must be replayed onto it, of the current generation. */
  ghost predicate BaseUsable(repo: Repo, source: Option<Option<Generation>>, target: nat, id: BackupId)
    requires HasManifest(repo, id)
  {
    var m := ManifestOf(repo, id);
    FilesOk(repo, m) && (m.snapshot == target || SyncResult(repo, source) == Ok(RecordedGeneration(m)))
  }

  lemma KeptThroughSync(repo: Repo, repo': Repo, id: BackupId)
    requires Inv(repo) && HasManifest(repo, id) && FilesOk(repo, ManifestOf(repo, id)) && SameButGeneration(repo, repo')
    ensures HasManifest(repo', id) && ManifestOf(repo', id) == ManifestOf(repo, id) && FilesOk(repo', ManifestOf(repo', id))
  {
    assert ManifestKey(id) in repo';
    SameFiles(repo, repo', ManifestOf(repo, id), id);
  }

  lemma ReadBack(repo: Repo, id: BackupId)
    requires Inv(repo) && HasManifest(repo, id) && FilesOk(repo, ManifestOf(repo, id))
    ensures ManifestGeneration(repo, ManifestOf(repo, id)) == Ok(RecordedGeneration(ManifestOf(repo, id)))
  {
    assert WellFormed(ManifestOf(repo, id), id);
    GenerationReadBack(repo, ManifestOf(repo, id), id);
  }

  /** Nothing stands in the way of deleting the backup. */
  ghost predicate Deletable(repo: Repo, id: BackupId) {
    && (forall j :: HasManifest(repo, j) ==> FilesPresent(repo, ManifestOf(repo, j)))
    && !HasChild(repo, id)
  }

  lemma ManifestsDecode(repo: Repo)
    requires Inv(repo)
    ensures forall k :: k in repo && k.ManifestKey? ==> HasManifest(repo, k.id)
  {
    forall k | k in repo && k.ManifestKey? ensures HasManifest(repo, k.id) { assert ManifestKey(k.id) in repo; }
  }

  lemma OneMoreGone(repo: Repo, keys: set<ObjKey>, todo: set<ObjKey>, k: ObjKey)
    requires k in todo && todo <= keys
    ensures keys - (todo - {k}) == keys - todo + {k}
    ensures repo - (keys - todo) - {k} == repo - (keys - todo + {k})
    ensures |keys - todo + {k}| == |keys - todo| + 1
  {
  }

  lemma BudgetSpent(keys: set<ObjKey>, all: set<ObjKey>, todo: set<ObjKey>, budget: nat)
    requires todo <= all <= keys && todo != {} && |all - todo| == budget
    ensures budget < |keys|
  {
    Arithmetic.SubsetSize(all - todo, all);
    assert |all| == |all - todo| + |todo|;
    Arithmetic.SubsetSize(all, keys);
  }

  lemma VerifiesExactly(repo: Repo, id: BackupId)
    requires Inv(repo)
    ensures Verify(repo, id).Ok? <==> HasManifest(repo, id) && FilesOk(repo, ManifestOf(repo, id))
    ensures Verify(repo, id).Ok? ==> Verify(repo, id).value == ManifestOf(repo, id)
  {
    if HasManifest(repo, id) && FilesOk(repo, ManifestOf(repo, id)) {
      assert WellFormed(ManifestOf(repo, id), id);
      GenerationReadBack(repo, ManifestOf(repo, id), id);
    }
  }

  /** The backup is in the repository as created from these objects, undamaged. */
  ghost predicate Published(repo: Repo, id: BackupId, m: Manifest, objs: seq<BackupObject>) {
    && HasManifest(repo, id) && ManifestOf(repo, id) == m && WellFormed(m, id)
    && m.files == FilesFor(id, objs) && m.checksums == ChecksumsFor(id, objs) && FilesOk(repo, m)
    && ObjectGeneration(objs) == Ok(RecordedGeneration(m))
  }

  /** Every object of the backup is as it was. */
  ghost predicate SameBackup(repo: Repo, repo': Repo, j: BackupId) {
    forall k: ObjKey :: !k.CurrentGenerationKey? && k.id == j ==> (k in repo' <==> k in repo) && (k in repo ==> repo'[k] == repo[k])
  }

  lemma SafetyKept(repo: Repo, repo': Repo, id: BackupId, objs: seq<BackupObject>)
    requires Inv(repo) && SameButGeneration(repo, repo')
    ensures SafeToWrite(repo, id, objs) ==> SafeToWrite(repo', id, objs)
    ensures ManifestKey(id) in repo' <==> ManifestKey(id) in repo
  {
    if SafeToWrite(repo, id, objs) && Undamaged(repo', id) {
      forall i | 0 <= i < |ManifestOf(repo, id).files| ensures FileOk(repo, ManifestOf(repo, id), ManifestOf(repo, id).files[i]) {
        DataFilesOnly(ManifestOf(repo, id), id, i, repo);
        assert FileOk(repo', ManifestOf(repo', id), ManifestOf(repo', id).files[i]);
      }
      forall i | 0 <= i < |objs| ensures UploadHarmless(repo', id, objs[i]) {
        assert UploadHarmless(repo, id, objs[i]);
      }
    }
  }

  /** Only the pending manifest of the id, and its manifest if there was none, may differ. */
  ghost predicate OnlyManifest(repo: Repo, repo': Repo, id: BackupId) {
    forall k: ObjKey :: k != PendingKey(id) && (k == ManifestKey(id) ==> k in repo) ==>
      (k in repo' <==> k in repo) && (k in repo ==> repo'[k] == repo[k])
  }

  /** Wherever a creation stops, it has touched objects of its own id only. */
  lemma CreationFrame(repo: Repo, synced: Repo, id: BackupId, objs: seq<BackupObject>, n: nat, repo': Repo)
    requires SameButGeneration(repo, synced) && n <= |objs| && OnlyManifest(Uploaded(synced, id, objs, n), repo', id)
    ensures forall j :: j != id ==> SameBackup(repo, repo', j)
  {
    hide Uploaded;
    forall j | j != id ensures SameBackup(repo, repo', j) {
      forall k: ObjKey | !k.CurrentGenerationKey? && k.id == j
        ensures (k in repo' <==> k in repo) && (k in repo ==> repo'[k] == repo[k])
      {
        UploadedElsewhere(synced, id, objs, n, k);
      }
    }
  }

  lemma CreationKeepsAll(repo: Repo, synced: Repo, id: BackupId, objs: seq<BackupObject>, n: nat, repo': Repo)
    requires Inv(repo) && Inv(synced) && SameButGeneration(repo, synced) && n <= |objs|
    requires SafeToWrite(repo, id, objs) && OnlyManifest(Uploaded(synced, id, objs, n), repo', id)
    ensures KeepsAll(repo, repo')
  {
    hide Inv, Uploaded, SafeToWrite, FilesOk;
    SafetyKept(repo, synced, id, objs);
    SafeUploadKeepsAll(synced, id, objs, n);
    var up := Uploaded(synced, id, objs, n);
    forall j | Undamaged(repo, j) ensures Kept(repo, repo', j) {
      KeptThroughSync(repo, synced, j);
      assert Kept(synced, up, j);
      forall i | 0 <= i < |ManifestOf(up, j).files| ensures ManifestOf(up, j).files[i].DataKey? {
        DataFilesOnly(ManifestOf(repo, j), j, i, repo);
      }
      KeptByPublication(up, repo', id, j);
    }
  }

  lemma GenerationUntouched(synced: Repo, id: BackupId, objs: seq<BackupObject>, n: nat, repo': Repo)
    requires n <= |objs| && OnlyManifest(Uploaded(synced, id, objs, n), repo', id)
    ensures KnownGeneration(repo') == KnownGeneration(synced)
  {
    UploadedElsewhere(synced, id, objs, n, CurrentGenerationKey);
    assert CurrentGenerationKey != PendingKey(id) && CurrentGenerationKey != ManifestKey(id);
  }

  lemma CreationStopped(repo: Repo, synced: Repo, id: BackupId, objs: seq<BackupObject>, n: nat, repo': Repo)
    requires Inv(repo) && Inv(synced) && SameButGeneration(repo, synced) && n <= |objs|
    requires OnlyManifest(Uploaded(synced, id, objs, n), repo', id)
    ensures forall j :: j != id ==> SameBackup(repo, repo', j)
    ensures SafeToWrite(repo, id, objs) ==> KeepsAll(repo, repo')
    ensures KnownGeneration(repo') == KnownGeneration(synced)
  {
    hide Inv, Uploaded, SafeToWrite, KeepsAll, SameBackup, OnlyManifest, SameButGeneration;
    CreationFrame(repo, synced, id, objs, n, repo');
    GenerationUntouched(synced, id, objs, n, repo');
    if SafeToWrite(repo, id, objs) { CreationKeepsAll(repo, synced, id, objs, n, repo'); }
  }

  lemma NothingWritten(repo: Repo, id: BackupId, objs: seq<BackupObject>)
    ensures Uploaded(repo, id, objs, 0) == repo && OnlyManifest(repo, repo, id) && KeepsAll(repo, repo)
    ensures forall j :: SameBackup(repo, repo, j)
  {
  }

  lemma OnlyPending(repo: Repo, id: BackupId, pending: Content, final: Content)
    ensures OnlyManifest(repo, repo[PendingKey(id) := pending], id)
    ensures ManifestKey(id) !in repo ==>
              && OnlyManifest(repo, repo[PendingKey(id) := pending][ManifestKey(id) := final], id)
              && OnlyManifest(repo, (repo - {PendingKey(id)})[ManifestKey(id) := final], id)
  {
  }

  lemma KeptByPublication(repo: Repo, repo': Repo, id: BackupId, j: BackupId)
    requires Undamaged(repo, j) && OnlyManifest(repo, repo', id)
    requires forall i :: 0 <= i < |ManifestOf(repo, j).files| ==> ManifestOf(repo, j).files[i].DataKey?
    ensures Kept(repo, repo', j)
  {
    var m := ManifestOf(repo, j);
    assert ManifestKey(j) in repo;
    forall i | 0 <= i < |m.files| ensures FileOk(repo', m, m.files[i]) { assert FileOk(repo, m, m.files[i]); }
  }

  lemma PublishedNow(repo0: Repo, synced: Repo, repo: Repo, id: BackupId, m: Manifest, objs: seq<BackupObject>)
    requires SameButGeneration(repo0, synced)
    requires var up := Uploaded(synced, id, objs, |objs|);
             && repo == (up - {PendingKey(id)})[ManifestKey(id) := ManifestDoc(m)]
             && ManifestKey(id) !in up && FilesOk(up, m)
    requires WellFormed(m, id) && m.files == FilesFor(id, objs) && m.checksums == ChecksumsFor(id, objs)
    requires ObjectGeneration(objs) == Ok(RecordedGeneration(m))
    ensures Published(repo, id, m, objs) && !HasManifest(repo0, id)
  {
    hide RecordedGeneration, ObjectGeneration, ChecksumsFor, Uploaded, GenerationFiles;
    var up := Uploaded(synced, id, objs, |objs|);
    forall i | 0 <= i < |m.files| ensures FileOk(repo, m, m.files[i]) {
      assert FileOk(up, m, m.files[i]);
    }
    UploadedElsewhere(synced, id, objs, |objs|, ManifestKey(id));
  }

  lemma VerifiedParent(repo: Repo, id: BackupId)
    requires Inv(repo) && Verify(repo, id).Ok?
    ensures HasManifest(repo, id) && Verify(repo, id).value == ManifestOf(repo, id) && FilesOk(repo, ManifestOf(repo, id))
  {
  }

  lemma ParentGenerationKept(repo: Repo, repo': Repo, id: BackupId)
    requires Inv(repo) && HasManifest(repo, id) && FilesOk(repo, ManifestOf(repo, id)) && SameButGeneration(repo, repo')
    ensures ManifestGeneration(repo', ManifestOf(repo, id)) == ManifestGeneration(repo, ManifestOf(repo, id))
  {
    hide ManifestGeneration;
    var p := ManifestOf(repo, id);
    assert WellFormed(p, id);
    SameFiles(repo, repo', p, id);
    GenerationReadBack(repo, p, id);
    GenerationReadBack(repo', p, id);
  }

  lemma StandsOnParent(repo0: Repo, synced: Repo, id: BackupId, objs: seq<BackupObject>, m: Manifest, parentId: BackupId)
    requires Inv(repo0) && SameButGeneration(repo0, synced)
    requires HasManifest(repo0, parentId) && FilesOk(repo0, ManifestOf(repo0, parentId))
    requires m.parent == Some(parentId) && m.cluster == ManifestOf(repo0, parentId).cluster && ManifestOf(repo0, parentId).snapshot < m.snapshot
    requires ManifestGeneration(synced, ManifestOf(repo0, parentId)) == Ok(RecordedGeneration(m))
    ensures ManifestKey(id) !in Uploaded(synced, id, objs, |objs|) ==> ParentOk(repo0, m) && ParentOk(Uploaded(synced, id, objs, |objs|), m)
  {
    hide RecordedGeneration, ManifestGeneration, Uploaded, WellFormed;
    var p, up := ManifestOf(repo0, parentId), Uploaded(synced, id, objs, |objs|);
    assert WellFormed(p, parentId);
    SameFiles(repo0, synced, p, parentId);
    GenerationReadBack(synced, p, parentId);
    if ManifestKey(id) !in up {
      UploadedElsewhere(synced, id, objs, |objs|, ManifestKey(id));
      assert parentId != id;
      UploadedElsewhere(synced, id, objs, |objs|, ManifestKey(parentId));
      forall k: ObjKey | k.DataKey? && k.id == parentId && k in repo0 ensures k in up && up[k] == repo0[k] {
        UploadedElsewhere(synced, id, objs, |objs|, k);
      }
      SameFiles(repo0, up, p, parentId);
    }
  }

  lemma ParentStays(repo0: Repo, repo: Repo, id: BackupId, m: Manifest)
    requires Inv(repo0) && ParentOk(repo0, m) && m.parent.Some? && m.parent.value != id
    requires forall j :: j != id ==> SameBackup(repo0, repo, j)
    ensures HasManifest(repo, m.parent.value) && ParentOk(repo, m)
  {
    hide RecordedGeneration;
    var parentId := m.parent.value;
    assert SameBackup(repo0, repo, parentId);
    assert ManifestKey(parentId) in repo;
    SameFiles(repo0, repo, ManifestOf(repo0, parentId), parentId);
  }

  /** The repositories differ in the published generation only. */
  ghost predicate SameButGeneration(repo: Repo, repo': Repo) {
    forall k: ObjKey :: k != CurrentGenerationKey ==> (k in repo' <==> k in repo) && (k in repo ==> repo'[k] == repo[k])
  }

  lemma CurrentGenerationKeepsInv(repo: Repo, g: Generation)
    requires Inv(repo)
    ensures Inv(repo[CurrentGenerationKey := DataDoc(GenerationRecord(g))])
  {
    hide WellFormed, RecordedGeneration;
    var repo' := repo[CurrentGenerationKey := DataDoc(GenerationRecord(g))];
    forall j | ManifestKey(j) in repo'
      ensures HasManifest(repo', j) && WellFormed(ManifestOf(repo', j), j) && ParentOk(repo', ManifestOf(repo', j))
    {
      var m := ManifestOf(repo, j);
      if m.parent.Some? {
        assert ParentOk(repo, m);
        SameFiles(repo, repo', ManifestOf(repo, m.parent.value), m.parent.value);
      }
    }
  }

  lemma PendingKeepsInv(repo: Repo, id: BackupId, c: Content)
    requires Inv(repo)
    ensures Inv(repo[PendingKey(id) := c])
  {
    UnlistedWriteKeepsInv(repo, PendingKey(id), c);
  }

  lemma PendingDropKeepsInv(repo: Repo, id: BackupId)
    requires Inv(repo)
    ensures Inv(repo - {PendingKey(id)})
  {
    hide WellFormed, RecordedGeneration;
    var repo' := repo - {PendingKey(id)};
    forall j | ManifestKey(j) in repo'
      ensures HasManifest(repo', j) && WellFormed(ManifestOf(repo', j), j) && ParentOk(repo', ManifestOf(repo', j))
    {
      var m := ManifestOf(repo, j);
      if m.parent.Some? {
        assert ParentOk(repo, m);
        SameFiles(repo, repo', ManifestOf(repo, m.parent.value), m.parent.value);
      }
    }
  }

  lemma PendingFiles(repo: Repo, repo': Repo, m: Manifest)
    requires WellFormed(m, m.backupId)
    requires forall k: ObjKey :: !k.PendingKey? ==> (k in repo <==> k in repo') && (k in repo ==> repo'[k] == repo[k])
    ensures FilesOk(repo', m.(completed := false)) <==> FilesOk(repo, m)
  {
    forall i | 0 <= i < |m.files| ensures FileOk(repo, m, m.files[i]) <==> FileOk(repo', m.(completed := false), m.files[i]) {
    }
  }

  lemma PublishedVerifies(repo: Repo, repo': Repo, m: Manifest)
    requires WellFormed(m, m.backupId) && FilesOk(repo, m)
    requires HasManifest(repo', m.backupId) && ManifestOf(repo', m.backupId) == m
    requires forall k: ObjKey :: k.DataKey? && k in repo ==> k in repo' && repo'[k] == repo[k]
    ensures Verify(repo', m.backupId) == Ok(m)
  {
    forall i | 0 <= i < |m.files| ensures FileOk(repo', m, m.files[i]) { assert FileOk(repo, m, m.files[i]); }
    GenerationReadBack(repo', m, m.backupId);
  }

  lemma {:induction false} UploadedFilesOk(repo: Repo, id: BackupId, objs: seq<BackupObject>, n: nat)
    requires n <= |objs|
    ensures forall k :: k in ChecksumsFor(id, objs[..n]) ==>
              k in Uploaded(repo, id, objs, n) && Uploaded(repo, id, objs, n)[k] == DataDoc(ChecksumsFor(id, objs[..n])[k])
  {
    if n > 0 {
      UploadedFilesOk(repo, id, objs, n - 1);
      assert objs[..n][..n - 1] == objs[..n - 1];
    }
  }

  lemma UploadVerifies(repo: Repo, id: BackupId, objs: seq<BackupObject>, m: Manifest)
    requires m.files == FilesFor(id, objs) && m.checksums == ChecksumsFor(id, objs)
    ensures FilesOk(Uploaded(repo, id, objs, |objs|), m)
    ensures ManifestKey(id) in Uploaded(repo, id, objs, |objs|) <==> ManifestKey(id) in repo
  {
    hide Uploaded, ChecksumsFor;
    UploadedFilesOk(repo, id, objs, |objs|);
    ChecksumsHold(id, objs);
    assert objs[..|objs|] == objs;
    UploadedElsewhere(repo, id, objs, |objs|, ManifestKey(id));
  }

  lemma PendingParent(repo: Repo, id: BackupId, c: Content, m: Manifest)
    requires Inv(repo) && ParentOk(repo, m)
    ensures ParentOk(repo[PendingKey(id) := c], m)
  {
    if m.parent.Some? {
      SameFiles(repo, repo[PendingKey(id) := c], ManifestOf(repo, m.parent.value), m.parent.value);
    }
  }
}

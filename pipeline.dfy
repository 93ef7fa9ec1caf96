/** The processing loop of the resizer's `main`: for each item the walk
    yields, the skip rules, the existence check, download, local backup,
    resize, dry-run report and the remote actions, with the counters of the
    summary. Every answer of the outside world (Graph, Pillow) comes in as
    an `Env` per item. */
module Pipeline {
  import opened Wrappers
  import opened Bytes
  import opened Text
  import opened PosixPath
  import opened DriveItems
  import opened Resize
  import opened Upload
  import opened Backup
  import opened Walk

  /** The settings `main` reads: the backup constants, `MAX_EDGE_PX`,
      `SKIP_IF_EXISTS`, `BACKUP_ENABLED`, the final delete mode
      (`--delete-originals or DELETE_ORIGINALS`), `--dry-run` and
      `DEBUG_DRYRUN_SAVE`. */
  datatype Config = Config(
    backup: BackupConfig,
    maxEdge: int,
    skipIfExists: bool,
    backupEnabled: bool,
    deleteMode: bool,
    dry: bool,
    debugDryrunSave: bool)

  /** What the outside world answers while one item is handled:
      `exists_in_parent` for the `_2k` name, the downloaded bytes (None when
      the download raises), what Pillow decodes, shrinks and encodes (None
      when opening, or shrinking and saving, raises), and
      whether the delete or rename call and the upload succeed. */
  datatype Env = Env(
    resizedExists: bool,
    download: Option<Bytes>,
    decoded: Option<Dims>,
    thumbSize: Dims,
    encoded: Option<Bytes>,
    firstCallOk: bool,
    uploadOk: bool)

  /** A change made in the drive. */
  datatype RemoteOp =
    | Delete(id: Id)
    | Rename(id: Id, newName: string)
    | UploadAs(parentId: Id, name: string, content: Bytes, kind: UploadKind)

  /** How the handling of one item ended, i.e. which counter it reached. */
  datatype Fate =
    | Ignored          // folder or not an image: passed over silently
    | Suffixed         // base already ends in `_2k` or `_original`
    | TargetExists     // rename flow and the `_2k` file is already there
    | DownloadFailed
    | ResizeFailed
    | NoResizeNeeded
    | DryRun
    | ActionFailed
    | Done

  /** What the local backup step did. */
  datatype BackupEvent =
    | NoBackup
    | Preview(path: string)      // dry run without DEBUG_DRYRUN_SAVE: only reported
    | Saved(path: string)
    | AlreadyThere(path: string)
    | BackupFailed

  /** The names a dry run reports. */
  datatype DryNote =
    | WouldDelete(resizedName: string)
    | WouldRename(originalName: string, resizedName: string)

  datatype ItemResult = ItemResult(
    fate: Fate,
    backupEvent: BackupEvent,
    files: FileSystem,
    ops: seq<RemoteOp>,
    note: Option<DryNote>,
    origBytes: nat,
    newBytes: nat)

  /** The counters of the summary. */
  datatype Summary = Summary(
    total: nat, processed: nat, skipped: nat, created: nat, errors: nat,
    backupSaved: nat, backupSkipped: nat, origBytes: nat, newBytes: nat)

  const NoCounts := Summary(0, 0, 0, 0, 0, 0, 0, 0, 0)

  /** The local backup step of one candidate. */
  function BackupStep(cfg: Config, fs: FileSystem, failing: set<string>, it: Item, content: Bytes)
    : (r: (FileSystem, BackupEvent))
    ensures !cfg.backupEnabled ==> r == (fs, NoBackup)
    ensures cfg.backupEnabled && cfg.dry && !cfg.debugDryrunSave ==>
      r == (fs, Preview(BackupPath(cfg.backup, RelativeDir(cfg.backup, it.parentPath), it.name)))
    ensures r.1.Saved? ==> r.0 == fs[r.1.path := content] && (r.1.path !in fs || cfg.backup.overwrite)
    ensures !r.1.Saved? ==> r.0 == fs
    ensures cfg.backupEnabled && !(cfg.dry && !cfg.debugDryrunSave) ==>
      var path := BackupPath(cfg.backup, RelativeDir(cfg.backup, it.parentPath), it.name);
      var (fs2, res) := Save(fs, failing, path, content, cfg.backup.overwrite);
      && r.0 == fs2
      && (res.Err? <==> r.1 == BackupFailed)
      && (res == Ok(true) <==> r.1 == Saved(path))
      && (res == Ok(false) <==> r.1 == AlreadyThere(path))
  {
    var relDir := RelativeDir(cfg.backup, it.parentPath);
    var path := BackupPath(cfg.backup, relDir, it.name);
    if !cfg.backupEnabled then (fs, NoBackup)
    else if cfg.dry && !cfg.debugDryrunSave then (fs, Preview(path))
    else
      var (fs1, res) := Save(fs, failing, path, content, cfg.backup.overwrite);
      if res.Err? then (fs1, BackupFailed)
      else if res.value then (fs1, Saved(path))
      else (fs1, AlreadyThere(path))
  }

  /** The names the dry run reports, in the corrected form: those of
      `plan_names`. */
  function DryNoteFor(cfg: Config, name: string): (n: DryNote)
    ensures cfg.deleteMode ==> n == WouldDelete(PlanNames(name).1)
    ensures !cfg.deleteMode ==> n == WouldRename(PlanNames(name).0, PlanNames(name).1)
  {
    var (original, resized) := PlanNames(name);
    if cfg.deleteMode then WouldDelete(resized) else WouldRename(original, resized)
  }

  /** The dry-run names as the loop writes them: on the path that only
      reports the backup, `base` has just been overwritten with
      `compute_backup_base()`, and the names are built from it. */
  function DryNoteAsWritten(cfg: Config, base: string, ext: string): DryNote {
    var b := if cfg.backupEnabled && cfg.dry && !cfg.debugDryrunSave then ComputeBackupBase(cfg.backup) else base;
    if cfg.deleteMode then WouldDelete(b + ResizedTag + ext)
    else WouldRename(b + OriginalTag + ext, b + ResizedTag + ext)
  }

  /** The remote actions once the image was shrunk: delete or rename the
      original, then upload the shrunk bytes under the `_2k` name. */
  function Actions(cfg: Config, it: Item, resized: Bytes, env: Env): (r: (Fate, seq<RemoteOp>))
    ensures r.0 == Done || r.0 == ActionFailed
    ensures r.0 == Done <==> env.firstCallOk && env.uploadOk
    ensures |r.1| <= 2
  {
    var (original, target) := PlanNames(it.name);
    var first := if cfg.deleteMode then Delete(it.id) else Rename(it.id, original);
    var upload := UploadAs(it.parentId, target, resized, ChooseUpload(|resized|));
    if !env.firstCallOk then (ActionFailed, [])
    else if !env.uploadOk then (ActionFailed, [first])
    else (Done, [first, upload])
  }

  /** The body of the loop in `main` for one item. */
  function ItemEffect(cfg: Config, failing: set<string>, fs: FileSystem, it: Item, env: Env): (r: ItemResult)
    ensures r.fate == Ignored <==> Select(it).NotImage?
    ensures r.fate == Suffixed <==> Select(it).AlreadySuffixed?
    ensures r.fate == TargetExists <==> Select(it).Candidate? && !cfg.deleteMode && cfg.skipIfExists && env.resizedExists
    ensures r.fate == DownloadFailed <==>
      Select(it).Candidate? && !(!cfg.deleteMode && cfg.skipIfExists && env.resizedExists) && env.download.None?
    ensures r.fate in {Ignored, Suffixed, TargetExists, DownloadFailed} ==>
      && r.files == fs && r.ops == [] && r.note.None? && r.backupEvent == NoBackup
      && r.origBytes == 0 && r.newBytes == 0
  {
    match Select(it)
    case NotImage => ItemResult(Ignored, NoBackup, fs, [], None, 0, 0)
    case AlreadySuffixed => ItemResult(Suffixed, NoBackup, fs, [], None, 0, 0)
    case Candidate(base, ext) =>
      if !cfg.deleteMode && cfg.skipIfExists && env.resizedExists then
        ItemResult(TargetExists, NoBackup, fs, [], None, 0, 0)
      else if env.download.None? then
        ItemResult(DownloadFailed, NoBackup, fs, [], None, 0, 0)
      else
        var (fs1, event) := BackupStep(cfg, fs, failing, it, env.download.value);
        ShrinkEffect(cfg, it, ext, env.download.value, env, fs1, event)
  }

  /** Whether Pillow reads the download as an image larger than the bound. */
  predicate Oversized(cfg: Config, env: Env) {
    env.decoded.Some? && LongerEdge(env.decoded.value) > cfg.maxEdge
  }

  /** Whether Pillow also manages to shrink and encode such an image. */
  predicate Shrunk(cfg: Config, env: Env) {
    Oversized(cfg, env) && env.encoded.Some?
  }

  /** The rest of the loop body once the backup step is behind: the resize,
      then the dry-run report or the remote actions. A dry run reports
      exactly the oversized images, and a real run acts exactly on them. */
  function ShrinkEffect(cfg: Config, it: Item, ext: string, content: Bytes, env: Env,
                        fs1: FileSystem, event: BackupEvent): (r: ItemResult)
    ensures r.files == fs1 && r.backupEvent == event
    ensures r.fate !in {Ignored, Suffixed, TargetExists, DownloadFailed}
    ensures r.fate == ResizeFailed <==> env.decoded.None? || (Oversized(cfg, env) && env.encoded.None?)
    ensures r.fate == ResizeFailed ==> r.origBytes == 0 && r.newBytes == 0
    ensures r.fate != ResizeFailed ==> r.origBytes == |content|
    ensures r.note.Some? <==> cfg.dry && Shrunk(cfg, env)
    ensures r.note.Some? ==> r.fate == DryRun && r.note.value == DryNoteFor(cfg, it.name)
    ensures !cfg.dry && Shrunk(cfg, env) ==> (r.fate, r.ops) == Actions(cfg, it, env.encoded.value, env)
    ensures !(!cfg.dry && Shrunk(cfg, env)) ==> r.ops == [] && r.fate != Done
  {
    match ResizeImage(content, env.decoded, cfg.maxEdge, ext, env.thumbSize, env.encoded)
    case Err(_) => ItemResult(ResizeFailed, event, fs1, [], None, 0, 0)
    case Ok(o) =>
      if !o.didResize then ItemResult(NoResizeNeeded, event, fs1, [], None, |content|, |o.content|)
      else if cfg.dry then ItemResult(DryRun, event, fs1, [], Some(DryNoteFor(cfg, it.name)), |content|, |o.content|)
      else
        var (fate, ops) := Actions(cfg, it, o.content, env);
        ItemResult(fate, event, fs1, ops, None, |content|, |o.content|)
  }

  /** How the loop's counters classify one result. */
  predicate Counted(r: ItemResult) { r.fate != Ignored && r.fate != Suffixed }   // `total`
  predicate Finished(r: ItemResult) { r.fate == Done || r.fate == DryRun }       // `processed`
  predicate PassedOver(r: ItemResult) { r.fate in {Suffixed, TargetExists, NoResizeNeeded} }  // `skipped`
  predicate FailedStep(r: ItemResult) { r.fate in {DownloadFailed, ResizeFailed, ActionFailed} }
  predicate FailedBackup(r: ItemResult) { r.backupEvent.BackupFailed? }
  predicate SavedBackup(r: ItemResult) { r.backupEvent.Saved? }             // `backup_saved`
  predicate KeptBackup(r: ItemResult) { r.backupEvent.AlreadyThere? }       // `backup_skipped`
  predicate WasSuffixed(r: ItemResult) { r.fate == Suffixed }
  predicate IsDone(r: ItemResult) { r.fate == Done }                        // `created`

  /** The counter updates `main` makes for one item. Each item that is
      counted in `total` reaches exactly one of `processed`, `skipped` and
      the failing steps; a suffixed item is skipped without being counted,
      and a failed backup adds an error on top. */
  function Tally(s: Summary, r: ItemResult): (t: Summary)
    ensures t.total == s.total + (if r.fate == Ignored || r.fate == Suffixed then 0 else 1)
    ensures t.created == s.created + (if r.fate == Done then 1 else 0)
    ensures t.processed == s.processed + (if r.fate == Done || r.fate == DryRun then 1 else 0)
    ensures t.processed + t.skipped + t.errors + s.total ==
      s.processed + s.skipped + s.errors + t.total + (if WasSuffixed(r) then 1 else 0) + (if FailedBackup(r) then 1 else 0)
  {
    Summary(
      s.total + (if Counted(r) then 1 else 0),
      s.processed + (if Finished(r) then 1 else 0),
      s.skipped + (if PassedOver(r) then 1 else 0),
      s.created + (if IsDone(r) then 1 else 0),
      s.errors + (if FailedStep(r) then 1 else 0) + (if FailedBackup(r) then 1 else 0),
      s.backupSaved + (if SavedBackup(r) then 1 else 0),
      s.backupSkipped + (if KeptBackup(r) then 1 else 0),
      s.origBytes + r.origBytes,
      s.newBytes + r.newBytes)
  }

  /** The state of a run after some items: the local files, the remote
      changes and dry-run notes in order, and the counters. */
  datatype RunState = RunState(files: FileSystem, ops: seq<RemoteOp>, notes: seq<DryNote>, summary: Summary)

  function Apply(cfg: Config, failing: set<string>, st: RunState, it: Item, env: Env): RunState {
    var r := ItemEffect(cfg, failing, st.files, it, env);
    RunState(r.files, st.ops + r.ops, st.notes + (if r.note.Some? then [r.note.value] else []), Tally(st.summary, r))
  }

  /** The loop of `main` over the items the walk yielded; `envOf(k)` is
      the world's answer for the k-th item. */
  function RunSpec(cfg: Config, failing: set<string>, fs: FileSystem, items: seq<Item>, envOf: nat -> Env): RunState
  {
    if items == [] then RunState(fs, [], [], NoCounts)
    else
      var n := |items| - 1;
      Apply(cfg, failing, RunSpec(cfg, failing, fs, items[..n], envOf), items[n], envOf(n))
  }

  /** The result of each item of a run, in order. */
  function Results(cfg: Config, failing: set<string>, fs: FileSystem, items: seq<Item>, envOf: nat -> Env): (rs: seq<ItemResult>)
    ensures |rs| == |items|
  {
    if items == [] then []
    else
      var n := |items| - 1;
      Results(cfg, failing, fs, items[..n], envOf) + [EffectAt(cfg, failing, fs, items, envOf, n)]
  }

  /** How many of `rs` satisfy `p`. */
  function CountOf(rs: seq<ItemResult>, p: ItemResult -> bool): (n: nat)
    ensures n <= |rs|
  {
    if rs == [] then 0 else CountOf(rs[..|rs| - 1], p) + (if p(rs[|rs| - 1]) then 1 else 0)
  }

  function OrigBytesOf(rs: seq<ItemResult>): nat {
    if rs == [] then 0 else OrigBytesOf(rs[..|rs| - 1]) + rs[|rs| - 1].origBytes
  }

  function NewBytesOf(rs: seq<ItemResult>): nat {
    if rs == [] then 0 else NewBytesOf(rs[..|rs| - 1]) + rs[|rs| - 1].newBytes
  }

  lemma RunSpecStep(cfg: Config, failing: set<string>, fs: FileSystem, items: seq<Item>, i: nat, envOf: nat -> Env)
    requires i < |items|
    ensures RunSpec(cfg, failing, fs, items[..i + 1], envOf) ==
      Apply(cfg, failing, RunSpec(cfg, failing, fs, items[..i], envOf), items[i], envOf(i))
  {
    assert items[..i + 1][..i] == items[..i];
  }

  /** The body of the loop in `main` for one item, with the local backup
      written through `store`; each early `return` is a `continue` of the
      loop. */
  method ProcessItem(cfg: Config, store: BackupStore, it: Item, env: Env) returns (r: ItemResult)
    modifies store
    ensures r == ItemEffect(cfg, store.failing, old(store.files), it, env)
    ensures store.files == r.files
  {
    var sel := Select(it);
    if sel.NotImage? {
      return ItemResult(Ignored, NoBackup, store.files, [], None, 0, 0);
    }
    if sel.AlreadySuffixed? {
      return ItemResult(Suffixed, NoBackup, store.files, [], None, 0, 0);
    }
    if !cfg.deleteMode && cfg.skipIfExists && env.resizedExists {
      return ItemResult(TargetExists, NoBackup, store.files, [], None, 0, 0);
    }
    if env.download.None? {
      return ItemResult(DownloadFailed, NoBackup, store.files, [], None, 0, 0);
    }
    var content := env.download.value;
    var event := BackupItem(cfg, store, it, content);
    var resized := ResizeImage(content, env.decoded, cfg.maxEdge, sel.ext, env.thumbSize, env.encoded);
    if resized.Err? {
      return ItemResult(ResizeFailed, event, store.files, [], None, 0, 0);
    }
    var o := resized.value;
    if !o.didResize {
      return ItemResult(NoResizeNeeded, event, store.files, [], None, |content|, |o.content|);
    }
    if cfg.dry {
      return ItemResult(DryRun, event, store.files, [], Some(DryNoteFor(cfg, it.name)), |content|, |o.content|);
    }
    var (fate, ops) := Actions(cfg, it, o.content, env);
    return ItemResult(fate, event, store.files, ops, None, |content|, |o.content|);
  }

  /** The backup step of the loop body: the local copy of the original is
      written through `store`, previewed in a dry run, or skipped. */
  method BackupItem(cfg: Config, store: BackupStore, it: Item, content: Bytes) returns (event: BackupEvent)
    modifies store
    ensures (store.files, event) == BackupStep(cfg, old(store.files), store.failing, it, content)
  {
    var relDir := RelativeDir(cfg.backup, it.parentPath);
    event := NoBackup;
    if cfg.backupEnabled {
      if cfg.dry && !cfg.debugDryrunSave {
        event := Preview(BackupPath(cfg.backup, relDir, it.name));
      } else {
        var saved := store.SaveLocalBackup(cfg.backup, content, relDir, it.name);
        if saved.Err? {
          event := BackupFailed;
        } else if saved.value.0 {
          event := Saved(saved.value.1);
        } else {
          event := AlreadyThere(saved.value.1);
        }
      }
    }
  }

  /** `main` after the initialisation: the walk from the start folder,
      then the loop over what it yielded, gathering the remote changes,
      the dry-run notes and the counters. `walkOk` is false when the walk
      met a folder it could not list; `main` then stops with that error
      after the items before it. */
  method Run(cfg: Config, store: BackupStore, listing: Listing, startId: Id, recursive: bool,
             ghost rank: map<Id, nat>, envOf: nat -> Env)
    returns (summary: Summary, ops: seq<RemoteOp>, notes: seq<DryNote>, walkOk: bool)
    requires recursive ==> Ranked(listing, rank) && startId in rank
    modifies store
    ensures var items := WalkSpec(listing, rank, [startId], recursive).0;
      RunState(store.files, ops, notes, summary) == RunSpec(cfg, store.failing, old(store.files), items, envOf)
    ensures walkOk == WalkSpec(listing, rank, [startId], recursive).1
  {
    var items;
    items, walkOk := WalkItems(listing, startId, recursive, rank);
    ghost var fs0 := store.files;
    summary, ops, notes := NoCounts, [], [];
    for i := 0 to |items|
      invariant RunState(store.files, ops, notes, summary) == RunSpec(cfg, store.failing, fs0, items[..i], envOf)
    {
      RunSpecStep(cfg, store.failing, fs0, items, i, envOf);
      var r := ProcessItem(cfg, store, items[i], envOf(i));
      ops := ops + r.ops;
      if r.note.Some? {
        notes := notes + [r.note.value];
      }
      summary := Tally(summary, r);
    }
    assert items[..|items|] == items;
  }

  /** Only candidates are touched: an item that is a folder, not an image,
      or already carries a tag, changes nothing locally or remotely. */
  lemma OnlyCandidatesTouched(cfg: Config, failing: set<string>, fs: FileSystem, it: Item, env: Env)
    requires !Select(it).Candidate?
    ensures ItemEffect(cfg, failing, fs, it, env).ops == []
    ensures ItemEffect(cfg, failing, fs, it, env).files == fs
    ensures ItemEffect(cfg, failing, fs, it, env).note.None?
    ensures Tally(NoCounts, ItemEffect(cfg, failing, fs, it, env)).total == 0
  {
  }

  /** What the actions send: the first call is a delete in delete mode
      and a rename to the `_original` name otherwise; an upload only
      follows a first call that succeeded, goes to the item's parent under
      the `_2k` name, and uses the single PUT exactly for payloads up to
      3,900,000 bytes. */
  lemma ActionsShape(cfg: Config, it: Item, resized: Bytes, env: Env)
    ensures var ops := Actions(cfg, it, resized, env).1;
      && (ops == [] <==> !env.firstCallOk)
      && (ops != [] ==> ops[0] == if cfg.deleteMode then Delete(it.id) else Rename(it.id, PlanNames(it.name).0))
      && (|ops| == 2 <==> env.firstCallOk && env.uploadOk)
      && (|ops| == 2 ==> ops[1] == UploadAs(it.parentId, PlanNames(it.name).1, resized, ChooseUpload(|resized|)))
      && (|ops| == 2 ==> (ops[1].kind == Small <==> |resized| <= SmallUploadLimit))
  {
  }

  /** A dry run changes nothing in the drive, and without
      `DEBUG_DRYRUN_SAVE` nothing on the local disk either. */
  lemma DryRunIsHarmless(cfg: Config, failing: set<string>, fs: FileSystem, it: Item, env: Env)
    requires cfg.dry
    ensures ItemEffect(cfg, failing, fs, it, env).ops == []
    ensures !cfg.debugDryrunSave ==> ItemEffect(cfg, failing, fs, it, env).files == fs
  {
  }

  /** Remote changes happen only to items that are shrunk: a candidate
      whose download decodes to an image whose longer edge exceeds the
      bound, outside a dry run, with the existence check passed; what is
      uploaded is the shrunk encoding. */
  lemma ChangesOnlyWhenShrunk(cfg: Config, failing: set<string>, fs: FileSystem, it: Item, env: Env)
    requires ItemEffect(cfg, failing, fs, it, env).ops != []
    ensures Select(it).Candidate? && !cfg.dry
    ensures cfg.deleteMode || !cfg.skipIfExists || !env.resizedExists
    ensures env.download.Some? && env.decoded.Some? && LongerEdge(env.decoded.value) > cfg.maxEdge
    ensures env.encoded.Some?
    ensures env.firstCallOk
    ensures ItemEffect(cfg, failing, fs, it, env).ops ==
      Actions(cfg, it, env.encoded.value, env).1
  {
  }

  /** The files the run creates keep the name and extension of the
      original: the upload target splits into the original base with `_2k`
      and the original extension, and the file is not taken up by a later
      run. */
  lemma UploadTargetIsResizedName(cfg: Config, it: Item, resized: Bytes, env: Env, later: Item)
    requires |Actions(cfg, it, resized, env).1| == 2
    requires later.name == Actions(cfg, it, resized, env).1[1].name
    ensures later.name == PlanNames(it.name).1
    ensures SplitExt(later.name) == (SplitExt(it.name).0 + ResizedTag, SplitExt(it.name).1)
    ensures !Select(later).Candidate?
  {
    PlanNamesSplit(it.name);
    PlannedNamesNotCandidates(later, it.name);
  }

  /** In delete mode an upload that fails after the delete succeeded leaves
      the drive without either copy; only the local backup keeps the
      original then. */
  lemma DeleteThenFailedUpload(cfg: Config, it: Item, resized: Bytes, env: Env)
    requires cfg.deleteMode && env.firstCallOk && !env.uploadOk
    ensures Actions(cfg, it, resized, env) == (ActionFailed, [Delete(it.id)])
  {
  }

  /** The dry-run report names what the real run would do: the reported
      `_2k` name is the upload target of the same item in a real run. */
  lemma DryReportMatchesRealRun(cfg: Config, failing: set<string>, fs: FileSystem, it: Item, env: Env)
    requires cfg.dry && ItemEffect(cfg, failing, fs, it, env).note.Some?
    requires env.firstCallOk && env.uploadOk
    ensures var live := cfg.(dry := false);
      && |ItemEffect(live, failing, fs, it, env).ops| == 2
      && ItemEffect(live, failing, fs, it, env).ops[1].name ==
         ItemEffect(cfg, failing, fs, it, env).note.value.resizedName
  {
    var live := cfg.(dry := false);
    var content := env.download.value;
    var ext := Select(it).ext;
    var (fs1, event) := BackupStep(cfg, fs, failing, it, content);
    var (fs2, event2) := BackupStep(live, fs, failing, it, content);
    assert ItemEffect(cfg, failing, fs, it, env) == ShrinkEffect(cfg, it, ext, content, env, fs1, event);
    assert ItemEffect(live, failing, fs, it, env) == ShrinkEffect(live, it, ext, content, env, fs2, event2);
    ActionsShape(live, it, env.encoded.value, env);
  }

  /** Two names built from different bases with the same tag and
      extension differ. */
  lemma TaggedNamesDiffer(a: string, b: string, ext: string)
    requires a != b
    ensures a + ResizedTag + ext != b + ResizedTag + ext
  {
    var t := ResizedTag + ext;
    assert a + ResizedTag + ext == a + t && b + ResizedTag + ext == b + t;
    assert (a + t)[..|a|] == a && (b + t)[..|b|] == b;
  }

  /** As written, the dry run that only reports the backup names its files
      after the backup directory: whenever the file's base differs from
      `compute_backup_base()`, the report differs from the names `plan_names`
      gives, which are the ones a real run uses. */
  lemma DryNoteAsWrittenIsWrong(cfg: Config, name: string)
    requires cfg.backupEnabled && cfg.dry && !cfg.debugDryrunSave
    requires SplitExt(name).0 != ComputeBackupBase(cfg.backup)
    ensures cfg.deleteMode ==>
      DryNoteAsWritten(cfg, SplitExt(name).0, SplitExt(name).1) == WouldDelete(ComputeBackupBase(cfg.backup) + ResizedTag + SplitExt(name).1)
    ensures DryNoteAsWritten(cfg, SplitExt(name).0, SplitExt(name).1) != DryNoteFor(cfg, name)
  {
    var base, ext := SplitExt(name).0, SplitExt(name).1;
    var b := ComputeBackupBase(cfg.backup);
    TaggedNamesDiffer(b, base, ext);
    assert DryNoteAsWritten(cfg, base, ext).resizedName == b + ResizedTag + ext;
    assert DryNoteFor(cfg, name).resizedName == base + ResizedTag + ext;
  }

  /** With the shipped backup root and site switches, and with
      `DEBUG_DRYRUN_SAVE` turned off (it ships on), the as-written
      delete-mode report for `photo.JPG` names `f:/<site>_2k.JPG`. */
  lemma AsWrittenShippedNote(cfg: Config, site: string)
    requires cfg.backup.root == "f:/" && cfg.backup.siteRoot && !cfg.backup.includeLibrary
    requires cfg.backup.siteName == site && SanitizeFs(site) == site
    requires cfg.backupEnabled && cfg.dry && !cfg.debugDryrunSave && cfg.deleteMode
    ensures DryNoteAsWritten(cfg, "photo", ".JPG") == WouldDelete("f:/" + site + "_2k.JPG")
  {
    DefaultBackupBase(cfg.backup);
    assert "f:/" + site + ResizedTag + ".JPG" == "f:/" + site + "_2k.JPG";
  }

  /** The corrected delete-mode report for `photo.JPG` names `photo_2k.JPG`. */
  lemma CorrectedShippedNote(cfg: Config, name: string)
    requires name == "photo.JPG" && cfg.deleteMode
    ensures DryNoteFor(cfg, name) == WouldDelete("photo_2k.JPG")
  {
    ExampleSplit(name);
    assert "photo" + ResizedTag + ".JPG" == "photo_2k.JPG";
  }

  /** For `photo.JPG`, with the shipped backup root `f:/`, a safe site
      name as sub-directory, no library sub-directory and `DEBUG_DRYRUN_SAVE`
      off, the dry run in delete mode reports `f:/<site>_2k.JPG` where a real run uploads
      `photo_2k.JPG`. */
  lemma DryNoteAsWrittenNamesBackupDir(cfg: Config, site: string, name: string)
    requires name == "photo.JPG"
    requires cfg.backup.root == "f:/" && cfg.backup.siteRoot && !cfg.backup.includeLibrary
    requires cfg.backup.siteName == site && SanitizeFs(site) == site
    requires cfg.backupEnabled && cfg.dry && !cfg.debugDryrunSave && cfg.deleteMode
    ensures DryNoteAsWritten(cfg, SplitExt(name).0, SplitExt(name).1) == WouldDelete("f:/" + site + "_2k.JPG")
    ensures DryNoteFor(cfg, name) == WouldDelete("photo_2k.JPG")
    ensures DryNoteAsWritten(cfg, SplitExt(name).0, SplitExt(name).1) != DryNoteFor(cfg, name)
  {
    ExampleSplit(name);
    AsWrittenShippedNote(cfg, site);
    CorrectedShippedNote(cfg, name);
    assert ("f:/" + site + "_2k.JPG")[0] != "photo_2k.JPG"[0];
  }

  /** The site name of the shipped settings is already a safe name, so the
      example above applies to it. */
  lemma SitenameSafe(s: string)
    requires s == "sitename"
    ensures SanitizeFs(s) == s
  {
    assert NoForbidden(s);
    assert !IsSpace(s[0]) && !IsSpace(s[|s| - 1]);
    SanitizeKeepsSafeName(s);
  }

  lemma ExampleSplit(name: string)
    requires name == "photo.JPG"
    ensures SplitExt(name) == ("photo", ".JPG")
  {
    var base, ext := "photo", ".JPG";
    assert name == [] + base + ext;
    assert PlainTag(base) && ExtensionShape(ext);
    ExtensionInsert([], base, ext);
    assert [] + base == base;
  }

  /** The number of candidates among `items`. */
  function Candidates(items: seq<Item>): (n: nat)
    ensures n <= |items|
  {
    if items == [] then 0
    else Candidates(items[..|items| - 1]) + (if Select(items[|items| - 1]).Candidate? then 1 else 0)
  }

  /** The number of images among `items` that already carry the tag. */
  function Tagged(items: seq<Item>): (n: nat)
    ensures n <= |items|
  {
    if items == [] then 0
    else Tagged(items[..|items| - 1]) + (if Select(items[|items| - 1]).AlreadySuffixed? then 1 else 0)
  }

  /** The uploads among `ops`. */
  function Uploads(ops: seq<RemoteOp>): nat {
    if ops == [] then 0
    else Uploads(ops[..|ops| - 1]) + (if ops[|ops| - 1].UploadAs? then 1 else 0)
  }

  lemma {:induction false} UploadsConcat(a: seq<RemoteOp>, b: seq<RemoteOp>)
    ensures Uploads(a + b) == Uploads(a) + Uploads(b)
    decreases |b|
  {
    if b == [] {
      assert a + b == a;
    } else {
      assert (a + b)[..|a + b| - 1] == a + b[..|b| - 1];
      UploadsConcat(a, b[..|b| - 1]);
    }
  }

  /** The actions add one upload exactly when they end `Done`. */
  lemma ActionsUploads(cfg: Config, it: Item, resized: Bytes, env: Env)
    ensures Uploads(Actions(cfg, it, resized, env).1) == if Actions(cfg, it, resized, env).0 == Done then 1 else 0
  {
    var ops := Actions(cfg, it, resized, env).1;
    if |ops| == 2 {
      assert ops[..1] == [ops[0]];
      assert Uploads([ops[0]]) == Uploads([]) + 0;
    } else if |ops| == 1 {
      assert Uploads(ops) == Uploads(ops[..0]) + 0;
    }
  }

  /** One item adds one upload exactly when it ends `Done`. */
  lemma ItemUploads(cfg: Config, failing: set<string>, fs: FileSystem, it: Item, env: Env)
    ensures Uploads(ItemEffect(cfg, failing, fs, it, env).ops) == if ItemEffect(cfg, failing, fs, it, env).fate == Done then 1 else 0
  {
    if Select(it).Candidate? && !(!cfg.deleteMode && cfg.skipIfExists && env.resizedExists) && env.download.Some? {
      var content := env.download.value;
      var (fs1, event) := BackupStep(cfg, fs, failing, it, content);
      assert ItemEffect(cfg, failing, fs, it, env) == ShrinkEffect(cfg, it, Select(it).ext, content, env, fs1, event);
      if env.encoded.Some? {
        ActionsUploads(cfg, it, env.encoded.value, env);
      }
    }
  }

  /** The counters of a run: `total` counts the candidates, `created`
      counts the uploads made, and `created <= processed <= total`. */
  lemma {:induction false} RunCounters(cfg: Config, failing: set<string>, fs: FileSystem, items: seq<Item>, envOf: nat -> Env)
    ensures RunSpec(cfg, failing, fs, items, envOf).summary.total == Candidates(items)
    ensures RunSpec(cfg, failing, fs, items, envOf).summary.created == Uploads(RunSpec(cfg, failing, fs, items, envOf).ops)
    ensures RunSpec(cfg, failing, fs, items, envOf).summary.created <= RunSpec(cfg, failing, fs, items, envOf).summary.processed
    ensures RunSpec(cfg, failing, fs, items, envOf).summary.processed <= RunSpec(cfg, failing, fs, items, envOf).summary.total
    decreases |items|
  {
    if items != [] {
      var n := |items| - 1;
      RunCounters(cfg, failing, fs, items[..n], envOf);
      var st := RunSpec(cfg, failing, fs, items[..n], envOf);
      var r := ItemEffect(cfg, failing, st.files, items[n], envOf(n));
      ItemUploads(cfg, failing, st.files, items[n], envOf(n));
      UploadsConcat(st.ops, r.ops);
    }
  }

  /** Each counter of `s` counts the results of its kind: the backup
      counters count the saved and the already present copies, the errors
      count the failed steps and the failed backups, and the byte totals
      add up the sizes of each item. */
  predicate Accounts(s: Summary, rs: seq<ItemResult>) {
    && s.total == CountOf(rs, Counted)
    && s.processed == CountOf(rs, Finished)
    && s.skipped == CountOf(rs, PassedOver)
    && s.created == CountOf(rs, IsDone)
    && s.errors == CountOf(rs, FailedStep) + CountOf(rs, FailedBackup)
    && s.backupSaved == CountOf(rs, SavedBackup)
    && s.backupSkipped == CountOf(rs, KeptBackup)
    && s.origBytes == OrigBytesOf(rs)
    && s.newBytes == NewBytesOf(rs)
  }

  /** Tallying one more result keeps the summary accounting for the results. */
  lemma TallyAccounts(s: Summary, rs: seq<ItemResult>, r: ItemResult)
    requires Accounts(s, rs)
    ensures Accounts(Tally(s, r), rs + [r])
  {
    CountOfSnoc(rs, r, Counted);
    CountOfSnoc(rs, r, Finished);
    CountOfSnoc(rs, r, PassedOver);
    CountOfSnoc(rs, r, IsDone);
    CountOfSnoc(rs, r, FailedStep);
    CountOfSnoc(rs, r, FailedBackup);
    CountOfSnoc(rs, r, SavedBackup);
    CountOfSnoc(rs, r, KeptBackup);
    BytesOfSnoc(rs, r);
  }

  lemma CountOfSnoc(rs: seq<ItemResult>, r: ItemResult, p: ItemResult -> bool)
    ensures CountOf(rs + [r], p) == CountOf(rs, p) + (if p(r) then 1 else 0)
  {
    assert (rs + [r])[..|rs|] == rs;
  }

  lemma BytesOfSnoc(rs: seq<ItemResult>, r: ItemResult)
    ensures OrigBytesOf(rs + [r]) == OrigBytesOf(rs) + r.origBytes
    ensures NewBytesOf(rs + [r]) == NewBytesOf(rs) + r.newBytes
  {
    assert (rs + [r])[..|rs|] == rs;
  }

  /** The summary of a run accounts for the results of its items. */
  lemma {:induction false} RunAccounting(cfg: Config, failing: set<string>, fs: FileSystem, items: seq<Item>, envOf: nat -> Env)
    ensures Accounts(RunSpec(cfg, failing, fs, items, envOf).summary, Results(cfg, failing, fs, items, envOf))
    decreases |items|
  {
    if items != [] {
      var n := |items| - 1;
      RunAccounting(cfg, failing, fs, items[..n], envOf);
      var st := RunSpec(cfg, failing, fs, items[..n], envOf);
      var r := ItemEffect(cfg, failing, st.files, items[n], envOf(n));
      TallyAccounts(st.summary, Results(cfg, failing, fs, items[..n], envOf), r);
    }
  }

  /** The results split into those finished, passed over and failed, which
      are the counted ones and the suffixed ones. */
  lemma {:induction false} CountPartition(rs: seq<ItemResult>)
    ensures CountOf(rs, Finished) + CountOf(rs, PassedOver) + CountOf(rs, FailedStep) ==
      CountOf(rs, Counted) + CountOf(rs, WasSuffixed)
    decreases |rs|
  {
    if rs != [] {
      CountPartition(rs[..|rs| - 1]);
    }
  }

  /** The summary balances: `processed + skipped + errors` is `total`,
      plus the tagged items (skipped but not counted) and the failed
      backups (an error on top of the item's own outcome). */
  lemma RunBalance(cfg: Config, failing: set<string>, fs: FileSystem, items: seq<Item>, envOf: nat -> Env)
    ensures var s := RunSpec(cfg, failing, fs, items, envOf).summary;
      var rs := Results(cfg, failing, fs, items, envOf);
      s.processed + s.skipped + s.errors == s.total + Tagged(items) + CountOf(rs, FailedBackup)
  {
    RunAccounting(cfg, failing, fs, items, envOf);
    CountPartition(Results(cfg, failing, fs, items, envOf));
    SuffixedTagged(cfg, failing, fs, items, envOf);
  }

  /** The effect of the k-th item on the files the items before it left. */
  function EffectAt(cfg: Config, failing: set<string>, fs: FileSystem, items: seq<Item>, envOf: nat -> Env, k: nat): ItemResult
    requires k < |items|
  {
    ItemEffect(cfg, failing, RunSpec(cfg, failing, fs, items[..k], envOf).files, items[k], envOf(k))
  }

  /** The suffixed results are the tagged items. */
  lemma {:induction false} SuffixedTagged(cfg: Config, failing: set<string>, fs: FileSystem, items: seq<Item>, envOf: nat -> Env)
    ensures CountOf(Results(cfg, failing, fs, items, envOf), WasSuffixed) == Tagged(items)
    decreases |items|
  {
    if items != [] {
      var n := |items| - 1;
      SuffixedTagged(cfg, failing, fs, items[..n], envOf);
      CountOfSnoc(Results(cfg, failing, fs, items[..n], envOf), EffectAt(cfg, failing, fs, items, envOf, n), WasSuffixed);
    }
  }
}

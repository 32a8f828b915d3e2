/**
 * The control flow of `backup_odoo_and_upload_to_drive`: the backup
 * phase, which returns early on any failure; the upload and prune phase,
 * where the first call that raises skips the rest of the block; and the
 * `finally` clause, which removes the local archive when it exists.
 *
 * Every external call is reduced to the event it issues and an outcome
 * given in advance by a `World` value: the trace of events is what the
 * model observes.
 */
module BackupJob {
  import opened Wrappers
  import opened Naming
  import opened Pruning

  /** The parameters of `backup_odoo_and_upload_to_drive`. */
  datatype Config = Config(
    odooServer: string,
    masterPassword: string,
    dbName: string,
    folderId: string,
    credentialsPath: string,
    maxBackups: int)

  /** How the backup phase ends. */
  datatype BackupOutcome =
    | Saved               // the POST succeeded and every chunk was written
    | FailedBeforeOpen    // the POST, `raise_for_status` or `open` raised: nothing was written
    | FailedWhileWriting  // the stream or a write raised after `open`: a partial file is on disk

  /** What each external call of one run does. */
  datatype World = World(
    localFileBefore: bool,         // whether the archive path already exists when the run starts
    backup: BackupOutcome,
    authenticates: bool,           // whether `authenticate_gdrive_service_account` returns
    createdId: Option<string>,     // the id `files().create` returns, or None when it raises
    listing: Option<seq<Entry>>,   // `results.get('files', [])`, or None when `files().list` raises
    failingDelete: Option<nat>)    // the position of the first `files().delete` that raises, if any

  /** The calls a run issues, in order. */
  datatype Event =
    | BackupRequest(url: string, masterPassword: string, dbName: string, backupFormat: string)
    | Authenticate(credentialsPath: string)
    | Create(name: string, parent: string)
    | List(parent: string)
    | Delete(id: string)
    | RemoveLocal(path: string)

  /** One `files().delete(fileId=item['id'])` per entry, in order. */
  function DeleteCalls(s: seq<Entry>): (r: seq<Event>)
    ensures |r| == |s|
    ensures forall i :: 0 <= i < |s| ==> r[i] == Delete(s[i].id)
  {
    if s == [] then [] else DeleteCalls(s[..|s| - 1]) + [Delete(s[|s| - 1].id)]
  }

  /** How many of `n` deletes are issued when the one at `failingDelete` raises. */
  function Attempted(n: nat, failingDelete: Option<nat>): (k: nat)
    ensures k <= n
  {
    match failingDelete
    case Some(f) => if f < n then f + 1 else n
    case None => n
  }

  /** Whether all `n` deletes go through. */
  predicate AllSucceed(n: nat, failingDelete: Option<nat>)
  {
    failingDelete.None? || failingDelete.value >= n
  }

  /** The number of `files().create` calls in a trace. */
  function Creates(t: seq<Event>): nat
  {
    if t == [] then 0 else Creates(t[..|t| - 1]) + (if t[|t| - 1].Create? then 1 else 0)
  }

  /** The ids passed to `files().delete`, in call order. */
  function DeletedIds(t: seq<Event>): seq<string>
  {
    if t == [] then []
    else DeletedIds(t[..|t| - 1]) + (if t[|t| - 1].Delete? then [t[|t| - 1].id] else [])
  }

  /** The ids of a list of entries. */
  function Ids(s: seq<Entry>): (r: seq<string>)
    ensures |r| == |s|
    ensures forall i :: 0 <= i < |s| ==> r[i] == s[i].id
  {
    if s == [] then [] else Ids(s[..|s| - 1]) + [s[|s| - 1].id]
  }

  /**
   * The calls of the upload and prune block: authentication, the upload,
   * the listing and the deletes, up to and including the first that raises.
   */
  function DriveCalls(cfg: Config, name: string, world: World): seq<Event>
  {
    var auth, create, list := Authenticate(cfg.credentialsPath), Create(name, cfg.folderId), List(cfg.folderId);
    if !world.authenticates then [auth]
    else if world.createdId.None? then [auth, create]
    else if world.listing.None? then [auth, create, list]
    else
      var doomed := ToDelete(world.listing.value, cfg.maxBackups);
      [auth, create, list] + DeleteCalls(doomed[..Attempted(|doomed|, world.failingDelete)])
  }

  // ---------------------------------------------------------------------
  // The imperative steps.
  // ---------------------------------------------------------------------

  /** The loop `for item in items[:-max_backups]`, which stops at the first delete that raises. */
  method IssueDeletes(doomed: seq<Entry>, failingDelete: Option<nat>) returns (calls: seq<Event>, ok: bool)
    ensures calls == DeleteCalls(doomed[..Attempted(|doomed|, failingDelete)])
    ensures ok == AllSucceed(|doomed|, failingDelete)
  {
    calls := [];
    var i := 0;
    while i < |doomed|
      invariant 0 <= i <= |doomed|
      invariant failingDelete.Some? ==> i <= failingDelete.value
      invariant calls == DeleteCalls(doomed[..i])
    {
      calls := calls + [Delete(doomed[i].id)];
      assert doomed[..i + 1][..i] == doomed[..i];
      if failingDelete == Some(i) {
        return calls, false;
      }
      i := i + 1;
    }
    assert doomed[..i] == doomed;
    ok := true;
  }

  /** Lines 88-92: sort the listing in place, then delete the slice `items[:-max_backups]`. */
  method PruneFolder(items: seq<Entry>, maxBackups: int, failingDelete: Option<nat>) returns (calls: seq<Event>, ok: bool)
    ensures var doomed := ToDelete(items, maxBackups);
      calls == DeleteCalls(doomed[..Attempted(|doomed|, failingDelete)]) &&
      ok == AllSucceed(|doomed|, failingDelete)
  {
    calls, ok := [], true;
    if |items| > maxBackups {
      var a := new Entry[|items|](i requires 0 <= i < |items| => items[i]);
      assert a[..] == items;
      SortInPlace(a);
      calls, ok := IssueDeletes(a[..SliceStop(-maxBackups, a.Length)], failingDelete);
    }
  }

  /** Lines 55-95: the body of the second `try`, which stops at the first call that raises. */
  method UploadAndPrune(cfg: Config, name: string, world: World) returns (calls: seq<Event>)
    ensures calls == DriveCalls(cfg, name, world)
  {
    calls := [Authenticate(cfg.credentialsPath)];
    if !world.authenticates {
      return;
    }
    calls := calls + [Create(name, cfg.folderId)];
    if world.createdId.None? {
      return;
    }
    calls := calls + [List(cfg.folderId)];
    if world.listing.None? {
      return;
    }
    var deletes, _ := PruneFolder(world.listing.value, cfg.maxBackups, world.failingDelete);
    calls := calls + deletes;
    assert calls == [Authenticate(cfg.credentialsPath), Create(name, cfg.folderId), List(cfg.folderId)] + deletes;
  }

  /**
   * One run of `backup_odoo_and_upload_to_drive`: the issued calls, and
   * whether the local archive exists afterwards.
   */
  method Run(cfg: Config, now: DateTime, world: World) returns (trace: seq<Event>, localFileLeft: bool)
    requires ValidDateTime(now)
    ensures trace != [] && trace[0] == BackupRequest(BackupUrl(cfg.odooServer), cfg.masterPassword, cfg.dbName, "zip")
    // A failed backup returns at once: no Drive call, and no cleanup.
    ensures world.backup != Saved ==>
      trace == [trace[0]] &&
      localFileLeft == (world.backup == FailedWhileWriting || world.localFileBefore)
    // A saved backup runs the upload block, then the `finally` clause removes the archive.
    ensures world.backup == Saved ==>
      var path := BackupFilePath(cfg.dbName, Timestamp(now));
      trace == [trace[0]] + DriveCalls(cfg, BaseName(path), world) + [RemoveLocal(path)] &&
      !localFileLeft
  {
    var timestamp := Timestamp(now);
    var path := BackupFilePath(cfg.dbName, timestamp);
    var url := BackupUrl(cfg.odooServer);
    var localFile := world.localFileBefore;

    trace := [BackupRequest(url, cfg.masterPassword, cfg.dbName, "zip")];
    match world.backup {
      case FailedBeforeOpen =>
        return trace, localFile;
      case FailedWhileWriting =>
        return trace, true;
      case Saved =>
        localFile := true;
    }

    var calls := UploadAndPrune(cfg, BaseName(path), world);
    trace := trace + calls;

    if localFile {
      trace := trace + [RemoveLocal(path)];
      localFile := false;
    }
    localFileLeft := localFile;
  }

  // ---------------------------------------------------------------------
  // What a run's trace promises.
  // ---------------------------------------------------------------------

  lemma {:induction false} CreatesConcat(a: seq<Event>, b: seq<Event>)
    ensures Creates(a + b) == Creates(a) + Creates(b)
    decreases |b|
  {
    if b == [] {
      assert a + b == a;
    } else {
      assert (a + b)[..|a + b| - 1] == a + b[..|b| - 1];
      CreatesConcat(a, b[..|b| - 1]);
    }
  }

  lemma {:induction false} DeletedIdsConcat(a: seq<Event>, b: seq<Event>)
    ensures DeletedIds(a + b) == DeletedIds(a) + DeletedIds(b)
    decreases |b|
  {
    if b == [] {
      assert a + b == a;
    } else {
      assert (a + b)[..|a + b| - 1] == a + b[..|b| - 1];
      DeletedIdsConcat(a, b[..|b| - 1]);
    }
  }

  /** A run of deletes issues no upload and names exactly the deleted entries. */
  lemma {:induction false} DeleteCallsContents(s: seq<Entry>)
    ensures Creates(DeleteCalls(s)) == 0
    ensures DeletedIds(DeleteCalls(s)) == Ids(s)
  {
    if s != [] {
      var init := s[..|s| - 1];
      DeleteCallsContents(init);
      CreatesConcat(DeleteCalls(init), [Delete(s[|s| - 1].id)]);
      DeletedIdsConcat(DeleteCalls(init), [Delete(s[|s| - 1].id)]);
      assert [Delete(s[|s| - 1].id)][..0] == [];
    }
  }

  lemma SingleCallCounts(e: Event)
    ensures Creates([e]) == (if e.Create? then 1 else 0)
    ensures DeletedIds([e]) == (if e.Delete? then [e.id] else [])
  {
    assert [e][..0] == [];
  }

  /** Authentication, upload and listing: one upload and no delete. */
  lemma HeaderCounts(a: Event, c: Event, l: Event)
    requires a.Authenticate? && c.Create? && l.List?
    ensures Creates([a]) == 0 && Creates([a, c]) == 1 && Creates([a, c, l]) == 1
    ensures DeletedIds([a]) == [] && DeletedIds([a, c]) == [] && DeletedIds([a, c, l]) == []
  {
    SingleCallCounts(a);
    SingleCallCounts(c);
    SingleCallCounts(l);
    assert [a, c] == [a] + [c];
    assert [a, c, l] == [a, c] + [l];
    CreatesConcat([a], [c]);
    CreatesConcat([a, c], [l]);
    DeletedIdsConcat([a], [c]);
    DeletedIdsConcat([a, c], [l]);
  }

  /**
   * The upload block issues exactly one create call, which may itself
   * fail, when authentication succeeds, and none otherwise; after a failed
   * call it issues no further Drive call: no listing after a failed
   * create, no delete after a failed listing.
   */
  lemma DriveCallsStopAtFirstFailure(cfg: Config, name: string, world: World)
    ensures var calls := DriveCalls(cfg, name, world);
      calls[0] == Authenticate(cfg.credentialsPath) &&
      Creates(calls) == (if world.authenticates then 1 else 0) &&
      (!world.authenticates ==> |calls| == 1) &&
      (world.authenticates ==> calls[1] == Create(name, cfg.folderId)) &&
      (world.authenticates && world.createdId.None? ==> |calls| == 2) &&
      (world.authenticates && world.createdId.Some? ==> calls[2] == List(cfg.folderId)) &&
      (world.listing.None? ==> DeletedIds(calls) == [])
  {
    var a, c, l := Authenticate(cfg.credentialsPath), Create(name, cfg.folderId), List(cfg.folderId);
    HeaderCounts(a, c, l);
    if world.authenticates && world.createdId.Some? && world.listing.Some? {
      var doomed := ToDelete(world.listing.value, cfg.maxBackups);
      var deletes := DeleteCalls(doomed[..Attempted(|doomed|, world.failingDelete)]);
      DeleteCallsContents(doomed[..Attempted(|doomed|, world.failingDelete)]);
      CreatesConcat([a, c, l], deletes);
    }
  }

  /**
   * The deletes a listing leads to: the oldest entries, oldest first, up
   * to and including the first delete that raises; all of `ToDelete` when
   * none raises.
   */
  lemma DriveCallsDeletes(cfg: Config, name: string, world: World, items: seq<Entry>)
    requires world.authenticates && world.createdId.Some? && world.listing == Some(items)
    ensures var doomed := ToDelete(items, cfg.maxBackups);
      DeletedIds(DriveCalls(cfg, name, world)) == Ids(doomed[..Attempted(|doomed|, world.failingDelete)]) &&
      (AllSucceed(|doomed|, world.failingDelete) ==> DeletedIds(DriveCalls(cfg, name, world)) == Ids(doomed))
  {
    var a, c, l := Authenticate(cfg.credentialsPath), Create(name, cfg.folderId), List(cfg.folderId);
    var doomed := ToDelete(items, cfg.maxBackups);
    var deletes := DeleteCalls(doomed[..Attempted(|doomed|, world.failingDelete)]);
    assert DriveCalls(cfg, name, world) == [a, c, l] + deletes;
    DeletedIdsConcat([a, c, l], deletes);
    DeleteCallsContents(doomed[..Attempted(|doomed|, world.failingDelete)]);
    HeaderCounts(a, c, l);
    if AllSucceed(|doomed|, world.failingDelete) {
      assert doomed[..|doomed|] == doomed;
    }
  }

  /**
   * A fully successful run with `max_backups >= 1` and a listing longer
   * than it uploads once and deletes `len(items) - max_backups` entries,
   * the oldest ones. That it then leaves no local archive is part of
   * `Run`'s contract.
   */
  lemma SuccessfulRunSummary(cfg: Config, now: DateTime, world: World, items: seq<Entry>)
    requires ValidDateTime(now)
    requires world.backup == Saved && world.authenticates && world.createdId.Some?
    requires world.listing == Some(items) && |items| > cfg.maxBackups >= 1
    requires AllSucceed(|items| - cfg.maxBackups, world.failingDelete)
    ensures var calls := DriveCalls(cfg, BaseName(BackupFilePath(cfg.dbName, Timestamp(now))), world);
      Creates(calls) == 1 &&
      |DeletedIds(calls)| == |items| - cfg.maxBackups &&
      DeletedIds(calls) == Ids(SortByTime(items)[..|items| - cfg.maxBackups])
  {
    var name := BaseName(BackupFilePath(cfg.dbName, Timestamp(now)));
    var calls := DriveCalls(cfg, name, world);
    var doomed := ToDelete(items, cfg.maxBackups);
    assert Creates(calls) == 1 by { DriveCallsStopAtFirstFailure(cfg, name, world); }
    assert doomed == SortByTime(items)[..|items| - cfg.maxBackups] by { DeleteCount(items, cfg.maxBackups); }
    assert DeletedIds(calls) == Ids(doomed) by { DriveCallsDeletes(cfg, name, world, items); }
  }
}

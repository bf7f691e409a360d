/** The `DataSource` and `DataFile` models: a source's state, its readiness,
    its URL check, and the synchronisation that reconciles its DataFile rows
    with a local replica of the remote data. */
module Data {
  import opened Common
  import opened PyStr
  import opened Glob
  import opened Fs
  import opened Records
  import opened SyncSpec
  import Urls
  import Utf8

  /** `DataSourceStatusChoices`. */
  datatype Status = New | Queued | Syncing | Completed | Failed

  /** `DataSourceTypeChoices.LOCAL`. */
  const LocalType := "local"

  /** What `refresh_from_disk` does: report whether the file changed, or raise
      the error opening it raised. */
  datatype RefreshResult = Checked(modified: bool) | OpenError(error: Entry)

  /** What `data_as_string` yields: the text, `None` for data that is not
      UTF-8, or the `AttributeError` of calling `tobytes()` on `bytes`. */
  datatype DataText = Text(value: string) | NotUtf8 | NoToBytes

  /** One DataFile, as the ORM loads or builds it. */
  class DataFile {
    const path: string
    var created: Option<Time>
    var lastUpdated: Option<Time>
    var size: Option<nat>
    var hash: string
    var data: Bytes
    /** Whether `data` is the `memoryview` the database driver returns for a
        BinaryField, rather than a `bytes` object assigned in memory. */
    var dataIsView: bool

    /** A DataFile loaded from its stored row. */
    constructor Load(rec: FileRecord)
      ensures path == rec.path && created == Some(rec.created) && lastUpdated == Some(rec.lastUpdated)
      ensures size == Some(rec.size) && hash == rec.hash && data == rec.data && dataIsView
    {
      path := rec.path;
      created := Some(rec.created);
      lastUpdated := Some(rec.lastUpdated);
      size := Some(rec.size);
      hash := rec.hash;
      data := rec.data;
      dataIsView := true;
    }

    /** `DataFile(source=..., path=path)`: the field defaults, nothing stored yet. */
    constructor (path: string)
      ensures this.path == path && created == None && lastUpdated == None && size == None
      ensures hash == [] && data == [] && !dataIsView
    {
      this.path := path;
      created := None;
      lastUpdated := None;
      size := None;
      hash := [];
      data := [];
      dataIsView := false;
    }

    /** `data_as_string`: `tobytes()` of the data, decoded as strict UTF-8;
        `None` when the decoding fails. Only a `memoryview` has `tobytes()`:
        on `bytes` the call raises an `AttributeError`, which is not caught. */
    function DataAsString(): (s: DataText)
      reads this
      ensures s.NoToBytes? <==> !dataIsView
      ensures s.Text? ==> Utf8.Encode(s.value) == data
      ensures dataIsView ==> (s.NotUtf8? <==> !(exists t :: Utf8.Encode(t) == data))
    {
      if !dataIsView then NoToBytes
      else
        var d := Utf8.Decode(data);
        if d.Some? then
          Utf8.EncodeDecode(data);
          Text(d.value)
        else
          assert forall t :: Utf8.Encode(t) != data by {
            forall t ensures Utf8.Encode(t) != data {
              Utf8.DecodeEncode(t);
            }
          }
          NotUtf8
    }

    /** The DataFile as a stored row. */
    function Row(): FileRecord
      reads this
      requires created.Some? && lastUpdated.Some? && size.Some?
    {
      FileRecord(path, size.value, hash, data, created.value, lastUpdated.value)
    }

    /** `refresh_from_disk(source_root)`: hash the file at the DataFile's path;
        when the hash differs from the stored one, take the new update time,
        size, hash and content. Opening the file may raise, before anything
        changes. */
    method RefreshFromDisk(r: Replica, sha: Bytes -> Digest, now: Time) returns (res: RefreshResult)
      modifies this
      ensures res.OpenError? <==> !Lookup(r, path).File?
      ensures res.OpenError? ==> res.error == Lookup(r, path)
      ensures res.Checked? ==> res.modified == (sha(r.files[path]) != old(hash))
      ensures res == Checked(true) ==>
        && lastUpdated == Some(now) && size == Some(|r.files[path]|)
        && hash == sha(r.files[path]) && data == r.files[path] && !dataIsView && created == old(created)
      ensures res != Checked(true) ==> unchanged(this)
    {
      var entry := Lookup(r, path);
      if !entry.File? {
        return OpenError(entry);
      }
      var fileHash := sha(entry.content);
      if fileHash != hash {
        lastUpdated := Some(now);
        size := Some(|entry.content|);
        hash := fileHash;
        data := entry.content;
        dataIsView := false;
        return Checked(true);
      }
      return Checked(false);
    }
  }

  /** The refresh loop's result: the rows to update and the paths to delete,
      or the known path whose file could not be opened. */
  datatype Staged = Staged(updated: Table, deleted: set<string>) | StageFailed(path: string, error: Entry)

  /** The creation loop's result: the rows to insert, the new path whose
      DataFile failed `full_clean()`, or the new path whose file could not be
      opened. */
  datatype Creation =
    | Created(rows: Table)
    | Rejection(path: string, errors: set<FieldError>)
    | Unopened(path: string, error: Entry)

  /** One new path after `DataFile(...)`, `refresh_from_disk` and
      `full_clean()`: the errors found and the row to insert, or the error
      opening its file, raised before `full_clean()` is reached. */
  datatype NewFile = Built(errors: set<FieldError>, row: FileRecord) | OpenRaised(error: Entry)

  /** How `clean()` ends: it passes, raises a `ValidationError` naming a
      field, or lets the `ValueError` of `urlparse` escape. */
  datatype CleanResult = Passes | ValidationError(field: string) | UrlValueError

  /** How a call of `sync()` ends. */
  datatype SyncOutcome =
    | NotReady                                        // SyncError: not enabled, or already queued/syncing
    | FetchFailed                                     // the backend's fetch raised
    | OpenFailed(path: string, error: Entry)          // a known file could not be opened
    | Invalid(path: string, errors: set<FieldError>)  // a new DataFile failed full_clean()
    | Synced

  class DataSource {
    var name: string
    var sourceType: string
    var sourceUrl: string
    var status: Status
    var enabled: bool
    var ignoreRules: string
    var parameters: Option<map<string, string>>
    var lastSynced: Option<Time>
    /** The source's DataFile rows, by path. */
    var datafiles: Table

    /** Each DataFile row is stored under its own path. */
    predicate Valid()
      reads this
    {
      ValidTable(datafiles)
    }

    /** A new source with the model's defaults. */
    constructor (name: string, sourceType: string, sourceUrl: string)
      ensures this.name == name && this.sourceType == sourceType && this.sourceUrl == sourceUrl
      ensures status == New && enabled && ignoreRules == [] && parameters == None
      ensures lastSynced == None && datafiles == map[]
      ensures Valid()
    {
      this.name := name;
      this.sourceType := sourceType;
      this.sourceUrl := sourceUrl;
      status := New;
      enabled := true;
      ignoreRules := [];
      parameters := None;
      lastSynced := None;
      datafiles := map[];
    }

    /** `url_scheme`: the lower-cased scheme of the source URL, or the
        `ValueError` `urlparse` raises. */
    function UrlScheme(): (r: Urls.SchemeResult)
      reads this
      ensures r.Scheme? ==> forall j :: 0 <= j < |r.value| ==> Urls.IsSchemeChar(r.value[j]) && !IsAsciiUpper(r.value[j])
      ensures r.InvalidUrl? ==> '[' in sourceUrl || ']' in sourceUrl
    {
      Urls.UrlScheme(sourceUrl)
    }

    /** `ready_for_sync`: enabled, and neither queued nor syncing. */
    predicate ReadyForSync()
      reads this
      ensures ReadyForSync() <==> enabled && (status == New || status == Completed || status == Failed)
    {
      enabled && status != Queued && status != Syncing
    }

    /** `clean()`: a local source's URL must use the `file` scheme or none,
        and the error names the `url` field; computing the scheme of a local
        source's URL may raise. Other types are not checked. */
    function Clean(): (result: CleanResult)
      reads this
      ensures result.ValidationError? ==> result.field == "url" && sourceType == LocalType
      ensures sourceType != LocalType ==> result == Passes
      ensures result.UrlValueError? ==> sourceType == LocalType && ('[' in sourceUrl || ']' in sourceUrl)
    {
      if sourceType != LocalType then Passes
      else
        match UrlScheme()
        case InvalidUrl => UrlValueError
        case Scheme(scheme) => if scheme != "file" && scheme != "" then ValidationError("url") else Passes
    }

    /** `enqueue_sync_job()`: mark the source queued (the job itself is not
        modelled). */
    method EnqueueSyncJob()
      modifies this
      ensures status == Queued && !ReadyForSync()
      ensures name == old(name) && sourceType == old(sourceType) && sourceUrl == old(sourceUrl)
      ensures enabled == old(enabled) && ignoreRules == old(ignoreRules) && parameters == old(parameters)
      ensures lastSynced == old(lastSynced) && datafiles == old(datafiles)
    {
      status := Queued;
    }

    /** `_ignore(filename)`. */
    method Ignore(filename: string) returns (ignored: bool)
      ensures ignored == Ignored(filename, ignoreRules)
    {
      if StartsWith(filename, ".") {
        return true;
      }
      var rules := SplitLines(ignoreRules);
      var i := 0;
      while i < |rules|
        invariant 0 <= i <= |rules|
        invariant forall k :: 0 <= k < i ==> !FnMatchCase(filename, rules[k])
      {
        if FnMatchCase(filename, rules[i]) {
          return true;
        }
        i := i + 1;
      }
      return false;
    }

    /** `_walk(root)`: every file `os.walk` lists whose directory's relative
        path does not start with a dot and whose name is not ignored. */
    method Walk(r: Replica) returns (paths: set<string>)
      requires ValidReplica(r)
      ensures paths == WalkSpec(r, ignoreRules)
    {
      var listing := OsWalk(r);
      var todo := listing.Keys;
      paths := {};
      while todo != {}
        invariant todo <= listing.Keys
        invariant paths == WalkedBelow(r, ignoreRules, listing.Keys - todo)
        decreases |todo|
      {
        var d :| d in todo;
        var found := WalkDirectory(r, d, listing[d]);
        WalkedBelowStep(r, ignoreRules, listing.Keys, todo, d);
        paths := paths + found;
        todo := todo - {d};
      }
      WalkedBelowAll(r, ignoreRules, listing.Keys - todo);
    }

    /** One directory `os.walk` yielded: skipped when its relative path starts
        with a dot, otherwise its files that are not ignored. */
    method WalkDirectory(r: Replica, d: string, entry: WalkEntry) returns (found: set<string>)
      requires ValidReplica(r) && d in OsWalk(r) && entry == OsWalk(r)[d]
      ensures found == WalkedIn(r, ignoreRules, d)
    {
      var rel := RelativeDir(entry.dirPath, r.root);
      WalkedDirectory(r, ignoreRules, d);
      if StartsWith(rel, ".") {
        found := {};
      } else {
        found := KeepFiles(rel, entry.fileNames);
      }
    }

    /** The inner loop of `_walk`: the paths in directory `d` of the names
        that are not ignored. */
    method KeepFiles(d: string, names: set<string>) returns (kept: set<string>)
      ensures kept == KeptIn(d, names, ignoreRules)
    {
      var todo := names;
      ghost var seen: set<string> := {};
      kept := {};
      while todo != {}
        invariant todo <= names && seen == names - todo
        invariant kept == KeptIn(d, seen, ignoreRules)
        decreases |todo|
      {
        var n :| n in todo;
        var ignored := Ignore(n);
        if !ignored {
          kept := kept + {PathJoin(d, n)};
        }
        KeptInStep(d, seen, n, ignoreRules);
        todo := todo - {n};
        seen := seen + {n};
      }
    }

    /** The refresh loop of `sync()`: refresh each known DataFile from disk,
        collecting the modified ones and the ones whose file is gone; any
        other error opening a file escapes. */
    method CheckKnownFiles(r: Replica, sha: Bytes -> Digest, now: Time) returns (s: Staged)
      requires Valid()
      ensures s.StageFailed? <==> OpenFails(datafiles, r)
      ensures s.StageFailed? ==> s.path in datafiles && s.error == Lookup(r, s.path)
                                 && (s.error.IsADirectory? || s.error.NotADirectory?)
      ensures s.Staged? ==> s.updated == ChangedRows(datafiles, r, sha, now) && s.deleted == DeletedPaths(datafiles, r)
    {
      var known := datafiles;
      var todo := known.Keys;
      var updated: Table := map[];
      var deleted: set<string> := {};
      while todo != {}
        invariant todo <= known.Keys
        invariant !OpenFails(known - todo, r)
        invariant updated == ChangedRows(known - todo, r, sha, now)
        invariant deleted == DeletedPaths(known - todo, r)
        decreases |todo|
      {
        var p :| p in todo;
        var rec := known[p];
        var res, row := RefreshedKnownFile(rec, r, sha, now);
        ghost var seen := known - todo;
        ExtendSeen(known, todo, p);
        if res.OpenError? {
          if !res.error.NotFound? {
            assert p in known && (Lookup(r, p).IsADirectory? || Lookup(r, p).NotADirectory?);
            return StageFailed(p, res.error);
          }
          StepVanished(seen, p, rec, r, sha, now);
          deleted := deleted + {p};
        } else {
          StepPresent(seen, p, rec, r, sha, now);
          if res.modified {
            updated := updated[p := row];
          }
        }
        todo := todo - {p};
      }
      assert known - todo == known;
      return Staged(updated, deleted);
    }

    /** The creation loop of `sync()`: build, refresh and `full_clean()` a
        DataFile for each new path, against the table as it stands; the first
        failure escapes, whether `full_clean()` rejects the DataFile or
        opening its file raises. */
    method CreateNewFiles(newPaths: set<string>, r: Replica, sha: Bytes -> Digest, now: Time) returns (c: Creation)
      ensures c.Created? <==> newPaths <= r.files.Keys && Rejected(newPaths, r, sha, datafiles.Keys) == {}
      ensures c.Created? ==> c.rows == NewRows(newPaths, r, sha, now)
      ensures c.Rejection? ==>
        c.path in Rejected(newPaths, r, sha, datafiles.Keys)
        && c.errors == CleanErrors(c.path, |r.files[c.path]|, sha(r.files[c.path]), datafiles.Keys)
      ensures c.Unopened? ==> c.path in newPaths && c.path !in r.files && c.error == Lookup(r, c.path)
      ensures newPaths <= r.files.Keys ==> (c.Rejection? <==> Rejected(newPaths, r, sha, datafiles.Keys) != {})
    {
      var existing := datafiles.Keys;
      var todo := newPaths;
      var rows: Table := map[];
      while todo != {}
        invariant todo <= newPaths && rows.Keys == newPaths - todo
        invariant AllPrepared(rows, r, sha, now, existing)
        decreases |todo|
      {
        var p :| p in todo;
        var built := PrepareNewFile(p, r, sha, now, existing);
        if built.OpenRaised? {
          assert !(newPaths <= r.files.Keys);
          return Unopened(p, built.error);
        }
        var errors, row := built.errors, built.row;
        if errors != {} {
          assert p in Rejected(newPaths, r, sha, existing);
          assert Rejected(newPaths, r, sha, existing) != {};
          return Rejection(p, errors);
        }
        PreparedStep(rows, p, row, r, sha, now, existing);
        rows := rows[p := row];
        todo := todo - {p};
      }
      assert newPaths <= r.files.Keys;
      CreatedAll(newPaths, rows, r, sha, now, existing);
      return Created(rows);
    }

    /** A stored DataFile, loaded and refreshed from disk: the row it would
        write back. */
    method RefreshedKnownFile(rec: FileRecord, r: Replica, sha: Bytes -> Digest, now: Time) returns (res: RefreshResult, row: FileRecord)
      ensures res.OpenError? <==> rec.path !in r.files
      ensures res.OpenError? ==> res.error == Lookup(r, rec.path)
      ensures res.Checked? ==> res.modified == (sha(r.files[rec.path]) != rec.hash)
      ensures res.Checked? ==> row == if res.modified then Refreshed(rec, r.files[rec.path], sha, now) else rec
    {
      var df := new DataFile.Load(rec);
      res := df.RefreshFromDisk(r, sha, now);
      row := if res.OpenError? then rec else df.Row();
    }

    /** The body of the creation loop: `DataFile(source=self, path=path)`,
        `refresh_from_disk` and `full_clean()`. Opening a path that is not a
        file raises. A new file always differs from the empty stored hash, so
        it takes the file's size, hash and content; `created` is stamped when
        `bulk_create` inserts its row. */
    method PrepareNewFile(p: string, r: Replica, sha: Bytes -> Digest, now: Time, existing: set<string>)
      returns (b: NewFile)
      ensures b.OpenRaised? <==> p !in r.files
      ensures b.OpenRaised? ==> b.error == Lookup(r, p)
      ensures b.Built? ==> b.errors == CleanErrors(p, |r.files[p]|, sha(r.files[p]), existing)
      ensures b.Built? ==> (b.errors == {} <==> Admissible(p, |r.files[p]|, existing))
      ensures b.Built? ==> b.row == NewRecord(p, r.files[p], sha, now)
    {
      var df := new DataFile(p);
      var res := df.RefreshFromDisk(r, sha, now);
      if res.OpenError? {
        return OpenRaised(res.error);
      }
      assert |sha(r.files[p])| == 64;
      var errors := CleanErrors(df.path, df.size.value, df.hash, existing);
      CleansExactlyWithoutErrors(df.path, df.size.value, df.hash, existing);
      CleansDigest(df.path, df.size.value, sha(r.files[p]), existing);
      df.created := Some(now);
      return Built(errors, df.Row());
    }

    /** `sync()`. `replica` is what the backend's `fetch()` yields, or None
        when it raises. */
    method Sync(replica: Option<Replica>, sha: Bytes -> Digest, now: Time) returns (outcome: SyncOutcome)
      requires Valid()
      requires replica.Some? ==> ValidReplica(replica.value)
      modifies this
      ensures Valid()
      ensures outcome == NotReady <==> !old(ReadyForSync())
      ensures outcome == NotReady ==> unchanged(this)
      ensures outcome != NotReady ==> status == (if outcome == Synced then Completed else Syncing)
      ensures name == old(name) && sourceType == old(sourceType) && sourceUrl == old(sourceUrl)
      ensures enabled == old(enabled) && ignoreRules == old(ignoreRules) && parameters == old(parameters)
      ensures lastSynced == (if outcome == Synced then Some(now) else old(lastSynced))
      ensures outcome == FetchFailed <==> old(ReadyForSync()) && replica.None?
      ensures outcome.FetchFailed? || outcome.OpenFailed? ==> datafiles == old(datafiles)
      ensures outcome.OpenFailed? <==> old(ReadyForSync()) && replica.Some? && OpenFails(old(datafiles), replica.value)
      ensures outcome.OpenFailed? ==>
        outcome.path in old(datafiles) && outcome.error == Lookup(replica.value, outcome.path)
      ensures outcome.Invalid? <==>
        && old(ReadyForSync()) && replica.Some? && !OpenFails(old(datafiles), replica.value)
        && RejectedPaths(old(datafiles), replica.value, ignoreRules, sha, now) != {}
      ensures outcome.Invalid? ==>
        && datafiles == AfterRefresh(old(datafiles), replica.value, sha, now)
        && outcome.path in RejectedPaths(old(datafiles), replica.value, ignoreRules, sha, now)
        && outcome.errors == CleanErrors(outcome.path, |replica.value.files[outcome.path]|,
                                         sha(replica.value.files[outcome.path]), datafiles.Keys)
      ensures outcome == Synced ==> datafiles == SyncedTable(old(datafiles), replica.value, ignoreRules, sha, now)
    {
      if !ReadyForSync() {
        return NotReady;
      }
      status := Syncing;
      if replica.None? {
        return FetchFailed;
      }
      outcome := SyncReplica(replica.value, sha, now);
    }

    /** `sync()` once the backend has fetched the replica `r` and the source
        is marked syncing: refresh the known files, delete the vanished ones,
        then create the new ones. */
    method SyncReplica(r: Replica, sha: Bytes -> Digest, now: Time) returns (outcome: SyncOutcome)
      requires Valid() && ValidReplica(r)
      modifies this
      ensures Valid()
      ensures outcome.OpenFailed? || outcome.Invalid? || outcome.Synced?
      ensures status == (if outcome == Synced then Completed else old(status))
      ensures name == old(name) && sourceType == old(sourceType) && sourceUrl == old(sourceUrl)
      ensures enabled == old(enabled) && ignoreRules == old(ignoreRules) && parameters == old(parameters)
      ensures lastSynced == (if outcome == Synced then Some(now) else old(lastSynced))
      ensures outcome.OpenFailed? <==> OpenFails(old(datafiles), r)
      ensures outcome.OpenFailed? ==>
        && datafiles == old(datafiles)
        && outcome.path in old(datafiles) && outcome.error == Lookup(r, outcome.path)
      ensures outcome.Invalid? <==> !OpenFails(old(datafiles), r) && RejectedPaths(old(datafiles), r, ignoreRules, sha, now) != {}
      ensures outcome.Invalid? ==>
        && datafiles == AfterRefresh(old(datafiles), r, sha, now)
        && outcome.path in RejectedPaths(old(datafiles), r, ignoreRules, sha, now)
        && outcome.errors == CleanErrors(outcome.path, |r.files[outcome.path]|, sha(r.files[outcome.path]), datafiles.Keys)
      ensures outcome == Synced ==> datafiles == SyncedTable(old(datafiles), r, ignoreRules, sha, now)
    {
      var known := datafiles;
      var staged := CheckKnownFiles(r, sha, now);
      if staged.StageFailed? {
        return OpenFailed(staged.path, staged.error);
      }
      // bulk_update, then the bulk delete
      datafiles := datafiles + staged.updated;
      datafiles := datafiles - staged.deleted;
      BulkUpdateThenDelete(known, r, sha, now);
      AfterRefreshValid(known, r, sha, now);
      var walked := Walk(r);
      WalkedPathsAreFiles(r, ignoreRules);
      var creation := CreateNewFiles(walked - known.Keys, r, sha, now);
      if creation.Rejection? {
        return Invalid(creation.path, creation.errors);
      }
      // the walk names only files, so no new path fails to open
      assert creation.Created?;
      datafiles := datafiles + creation.rows;
      SyncedTableValid(known, r, ignoreRules, sha, now);
      status := Completed;
      lastSynced := Some(now);
      return Synced;
    }
  }

  // ---------------------------------------------------------------- walk bookkeeping

  /** The paths of `w` whose directory is one of `ds`. */
  ghost function InDirectories(w: set<string>, ds: set<string>): set<string>
  {
    set p | p in w && DirOf(p) in ds
  }

  /** The paths of `w` in directory `d`. */
  ghost function InDirectory(w: set<string>, d: string): set<string>
  {
    set p | p in w && DirOf(p) == d
  }

  /** The walked paths whose directory is one of `ds`. */
  ghost function WalkedBelow(r: Replica, ignoreRules: string, ds: set<string>): set<string>
  {
    InDirectories(WalkSpec(r, ignoreRules), ds)
  }

  /** The walked paths in directory `d`. */
  ghost function WalkedIn(r: Replica, ignoreRules: string, d: string): set<string>
  {
    InDirectory(WalkSpec(r, ignoreRules), d)
  }

  /** The paths in directory `d` of the names in `names` that are not ignored. */
  ghost function KeptIn(d: string, names: set<string>, ignoreRules: string): set<string>
  {
    set m | m in names && !Ignored(m, ignoreRules) :: PathJoin(d, m)
  }

  lemma KeptInStep(d: string, seen: set<string>, n: string, ignoreRules: string)
    ensures KeptIn(d, seen + {n}, ignoreRules)
            == KeptIn(d, seen, ignoreRules) + (if Ignored(n, ignoreRules) then {} else {PathJoin(d, n)})
  {
  }

  /** The kept names of a directory that is not skipped give exactly the
      walked paths in it. */
  lemma KeptInDirectory(r: Replica, ignoreRules: string, d: string)
    requires ValidReplica(r) && ValidDir(d) && !StartsWith(d, ".")
    ensures KeptIn(d, FilesIn(r, d), ignoreRules) == WalkedIn(r, ignoreRules, d)
  {
    var lhs := KeptIn(d, FilesIn(r, d), ignoreRules);
    var rhs := WalkedIn(r, ignoreRules, d);
    forall q | q in lhs ensures q in rhs {
      var m :| m in FilesIn(r, d) && !Ignored(m, ignoreRules) && q == PathJoin(d, m);
      FileInDirectory(r, d, m);
    }
    forall p | p in rhs ensures p in lhs {
      DirBaseOfValidPath(p);
      assert BaseOf(p) in FilesIn(r, d);
    }
  }

  /** What the walker sees of the directory `d` of the listing: its relative
      path is `d` itself, and the files it keeps there are the walked paths in it. */
  lemma WalkedDirectory(r: Replica, ignoreRules: string, d: string)
    requires ValidReplica(r) && d in OsWalk(r)
    ensures StartsWith(OsWalk(r)[d].dirPath, r.root)
    ensures RelativeDir(OsWalk(r)[d].dirPath, r.root) == d
    ensures OsWalk(r)[d].fileNames == FilesIn(r, d)
    ensures StartsWith(d, ".") ==> WalkedIn(r, ignoreRules, d) == {}
    ensures !StartsWith(d, ".") ==> KeptIn(d, FilesIn(r, d), ignoreRules) == WalkedIn(r, ignoreRules, d)
  {
    assert ValidDir(d);
    RelativeDirOfDirPath(r.root, d);
    if !StartsWith(d, ".") {
      KeptInDirectory(r, ignoreRules, d);
    }
  }

  lemma WalkedBelowStep(r: Replica, ignoreRules: string, all: set<string>, todo: set<string>, d: string)
    requires d in todo
    ensures WalkedBelow(r, ignoreRules, all - (todo - {d}))
            == WalkedBelow(r, ignoreRules, all - todo) + (if d in all then WalkedIn(r, ignoreRules, d) else {})
  {
    InDirectoriesStep(WalkSpec(r, ignoreRules), all, todo, d);
  }

  lemma InDirectoriesStep(w: set<string>, all: set<string>, todo: set<string>, d: string)
    requires d in todo
    ensures InDirectories(w, all - (todo - {d}))
            == InDirectories(w, all - todo) + (if d in all then InDirectory(w, d) else {})
  {
  }

  lemma WalkedBelowAll(r: Replica, ignoreRules: string, ds: set<string>)
    requires ValidReplica(r) && ds == {[]} + r.dirs
    ensures WalkedBelow(r, ignoreRules, ds) == WalkSpec(r, ignoreRules)
  {
  }

  // ---------------------------------------------------------------- sync bookkeeping

  lemma ExtendSeen(known: Table, todo: set<string>, p: string)
    requires p in todo && todo <= known.Keys
    ensures known - (todo - {p}) == (known - todo)[p := known[p]]
  {
  }

  /** One more known row whose file has vanished: it is staged for deletion. */
  lemma StepVanished(seen: Table, p: string, rec: FileRecord, r: Replica, sha: Bytes -> Digest, now: Time)
    requires p !in seen && Lookup(r, p).NotFound?
    ensures !OpenFails(seen, r) ==> !OpenFails(seen[p := rec], r)
    ensures DeletedPaths(seen[p := rec], r) == DeletedPaths(seen, r) + {p}
    ensures ChangedRows(seen[p := rec], r, sha, now) == ChangedRows(seen, r, sha, now)
  {
  }

  /** One more known row whose file exists: it is staged for update when its
      hash has changed. */
  lemma StepPresent(seen: Table, p: string, rec: FileRecord, r: Replica, sha: Bytes -> Digest, now: Time)
    requires p !in seen && p in r.files
    ensures !OpenFails(seen, r) ==> !OpenFails(seen[p := rec], r)
    ensures DeletedPaths(seen[p := rec], r) == DeletedPaths(seen, r)
    ensures ChangedRows(seen[p := rec], r, sha, now)
            == if sha(r.files[p]) != rec.hash
               then ChangedRows(seen, r, sha, now)[p := Refreshed(rec, r.files[p], sha, now)]
               else ChangedRows(seen, r, sha, now)
  {
  }

  /** Every row built so far is admissible and is the new record of its file. */
  ghost predicate AllPrepared(rows: Table, r: Replica, sha: Bytes -> Digest, now: Time, existing: set<string>)
  {
    forall q :: q in rows ==>
      q in r.files && Admissible(q, |r.files[q]|, existing) && rows[q] == NewRecord(q, r.files[q], sha, now)
  }

  lemma PreparedStep(rows: Table, p: string, row: FileRecord, r: Replica, sha: Bytes -> Digest, now: Time, existing: set<string>)
    requires AllPrepared(rows, r, sha, now, existing)
    requires p in r.files && Admissible(p, |r.files[p]|, existing) && row == NewRecord(p, r.files[p], sha, now)
    ensures AllPrepared(rows[p := row], r, sha, now, existing)
  {
  }

  lemma CreatedAll(paths: set<string>, rows: Table, r: Replica, sha: Bytes -> Digest, now: Time, existing: set<string>)
    requires paths <= r.files.Keys && rows.Keys == paths
    requires AllPrepared(rows, r, sha, now, existing)
    ensures Rejected(paths, r, sha, existing) == {}
    ensures rows == NewRows(paths, r, sha, now)
  {
    forall q | q in paths ensures Cleans(q, |r.files[q]|, sha(r.files[q]), existing) {
      CleansDigest(q, |r.files[q]|, sha(r.files[q]), existing);
    }
  }

  lemma AfterRefreshValid(known: Table, r: Replica, sha: Bytes -> Digest, now: Time)
    requires ValidTable(known)
    ensures ValidTable(AfterRefresh(known, r, sha, now))
  {
  }

  // ---------------------------------------------------------------- properties of the source

  /** `clean()` of a local source whose URL is `scheme:rest` accepts it exactly
      when the scheme is `file` in any case and `rest` does not start a
      network location with an unbalanced bracket; that case raises. */
  lemma CleanOfLocalSchemeUrl(ds: DataSource, scheme: string, rest: string)
    requires ds.sourceType == LocalType && ds.sourceUrl == scheme + ":" + rest
    requires Urls.IsScheme(scheme)
    ensures ds.Clean().UrlValueError? <==> Urls.UnbalancedNetloc(Urls.RemoveUnsafe(rest))
    ensures ds.Clean().Passes? <==> Lower(scheme) == "file" && !Urls.UnbalancedNetloc(Urls.RemoveUnsafe(rest))
  {
    Urls.SchemeOfComposedUrl(scheme, rest);
    if !Urls.UnbalancedNetloc(Urls.RemoveUnsafe(rest)) {
      assert ds.UrlScheme() == Urls.Scheme(Lower(scheme));
      assert Lower(scheme) != "" by { assert |Lower(scheme)| == |scheme| > 0; }
    }
  }

  /** A local source whose URL has no colon has no scheme, and is accepted,
      unless its URL starts a network location with an unbalanced bracket. */
  lemma CleanOfLocalBarePath(ds: DataSource)
    requires ds.sourceType == LocalType
    requires forall j :: 0 <= j < |ds.sourceUrl| ==> ds.sourceUrl[j] != ':'
    ensures ds.Clean() == if Urls.UnbalancedNetloc(Urls.Cleaned(ds.sourceUrl)) then UrlValueError else Passes
  {
    Urls.NoColonNoScheme(ds.sourceUrl);
  }

  /** A local source whose URL opens a bracket it never closes makes `clean()`
      raise the `ValueError` of `urlparse`, with the `file` scheme or without. */
  lemma CleanRaisesOnUnclosedBracket(ds: DataSource, h: string)
    requires ds.sourceType == LocalType && Urls.PlainHost(h)
    requires ds.sourceUrl == "file://[" + h || ds.sourceUrl == "//[" + h
    ensures ds.Clean() == UrlValueError
  {
    Urls.UnclosedBracketRaises(h);
  }

  /** Only local sources have their URL checked. */
  lemma CleanOfOtherTypes(ds: DataSource)
    requires ds.sourceType != LocalType
    ensures ds.Clean().Passes?
  {
  }
}

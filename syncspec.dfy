/** What `DataSource._ignore`, `DataSource._walk` and `DataSource.sync` compute,
    stated on values, with the properties the synchronisation promises. */
module SyncSpec {
  import opened Common
  import opened PyStr
  import opened Glob
  import opened Fs
  import opened Records

  /** `_ignore(filename)`: dot-files always; otherwise any line of the rules
      that matches the name case-sensitively. */
  predicate Ignored(filename: string, ignoreRules: string)
    ensures StartsWith(filename, ".") ==> Ignored(filename, ignoreRules)
    ensures SplitLines(ignoreRules) == [] ==> (Ignored(filename, ignoreRules) <==> StartsWith(filename, "."))
  {
    StartsWith(filename, ".")
    || exists rule :: rule in SplitLines(ignoreRules) && FnMatchCase(filename, rule)
  }

  /** `_walk(root)`: every file whose directory's relative path does not start
      with a dot and whose name is not ignored, by root-relative path. */
  function WalkSpec(r: Replica, ignoreRules: string): (walked: set<string>)
    ensures walked <= r.files.Keys
    ensures forall p :: p in walked ==> !StartsWith(p, ".") && !Ignored(BaseOf(p), ignoreRules)
  {
    var walked := set p | p in r.files && !StartsWith(DirOf(p), ".") && !Ignored(BaseOf(p), ignoreRules);
    assert forall p :: p in walked ==> !StartsWith(p, ".") by {
      forall p | p in walked ensures !StartsWith(p, ".") {
        NoLeadingDot(p);
      }
    }
    walked
  }

  /** A path starts with a dot only when its directory or, at top level, its
      name does. */
  lemma NoLeadingDot(p: string)
    requires !StartsWith(DirOf(p), ".") && !StartsWith(BaseOf(p), ".")
    ensures !StartsWith(p, ".")
  {
    var i := LastSlash(p);
    if i < 0 {
      assert BaseOf(p) == p;
    } else if i > 0 {
      assert DirOf(p)[..1] == p[..1];
    }
  }

  // ---------------------------------------------------------------- ignore rules

  /** A file whose name starts with a dot is ignored whatever the rules say. */
  lemma DotFilesAlwaysIgnored(filename: string, ignoreRules: string)
    requires StartsWith(filename, ".")
    ensures Ignored(filename, ignoreRules)
  {
  }

  /** Only which lines the rules hold matters, not their order or repetition. */
  lemma RuleOrderIrrelevant(filename: string, rules1: string, rules2: string)
    requires forall rule :: rule in SplitLines(rules1) <==> rule in SplitLines(rules2)
    ensures Ignored(filename, rules1) <==> Ignored(filename, rules2)
  {
  }

  /** A name without a leading dot and no rules to match is kept. */
  lemma NoRulesIgnoreOnlyDotFiles(filename: string)
    ensures Ignored(filename, "") <==> StartsWith(filename, ".")
  {
  }

  lemma TxtRuleIsOneLine()
    ensures SplitLines("*.txt") == ["*.txt"]
  {
    SplitLinesOfOneLine("*.txt");
  }

  lemma TxtRuleMatchesLowerCase()
    ensures FnMatchCase("notes.txt", "*.txt")
  {
    assert "*.txt" == "*" + ".txt";
    StarSuffixMatchesEndings("notes.txt", ".txt");
    assert "notes.txt"[5..] == ".txt";
  }

  lemma TxtRuleSkipsUpperCase()
    ensures !FnMatchCase("notes.TXT", "*.txt")
  {
    assert "*.txt" == "*" + ".txt";
    StarSuffixMatchesEndings("notes.TXT", ".txt");
    assert "notes.TXT"[5..][1] != ".txt"[1];
  }

  /** With a single rule, a name is ignored exactly when it is a dot-file or matches that rule. */
  lemma IgnoredBySingleRule(filename: string, ignoreRules: string, rule: string)
    requires SplitLines(ignoreRules) == [rule]
    ensures Ignored(filename, ignoreRules) <==> StartsWith(filename, ".") || FnMatchCase(filename, rule)
  {
  }

  /** The rule `*.txt` ignores `notes.txt` but not `notes.TXT`. */
  lemma TxtRuleIsCaseSensitive()
    ensures Ignored("notes.txt", "*.txt")
    ensures !Ignored("notes.TXT", "*.txt")
  {
    TxtRuleIsOneLine();
    IgnoredBySingleRule("notes.txt", "*.txt", "*.txt");
    IgnoredBySingleRule("notes.TXT", "*.txt", "*.txt");
    TxtRuleMatchesLowerCase();
    TxtRuleSkipsUpperCase();
    assert !StartsWith("notes.TXT", ".") by { assert "notes.TXT"[0] != '.'; }
  }

  // ---------------------------------------------------------------- the walker

  /** Every walked path names a file of the replica. */
  lemma WalkedPathsAreFiles(r: Replica, ignoreRules: string)
    ensures WalkSpec(r, ignoreRules) <= r.files.Keys
  {
  }

  /** Nothing below a top-level directory whose name starts with a dot is
      walked, and neither is a top-level dot-file: whatever starts with `.`. */
  lemma WalkSkipsTopLevelDotEntries(r: Replica, ignoreRules: string, p: string)
    requires StartsWith(p, ".")
    ensures p !in WalkSpec(r, ignoreRules)
  {
  }

  /** Skipping tests the relative directory path only: a file below a nested
      dot-directory is still walked when its own name is not ignored. */
  lemma WalkKeepsNestedDotDirectories(r: Replica, ignoreRules: string)
    requires "sub/.hidden/c.txt" in r.files
    requires !Ignored("c.txt", ignoreRules)
    ensures "sub/.hidden/c.txt" in WalkSpec(r, ignoreRules)
  {
    var p := "sub/.hidden/c.txt";
    LastSlashOfAppend("sub/.hidden", "c.txt");
    assert p == "sub/.hidden" + "/" + "c.txt";
    assert DirOf(p) == "sub/.hidden";
    assert BaseOf(p) == "c.txt";
    assert !StartsWith("sub/.hidden", ".") by { assert "sub/.hidden"[0] == 's'; }
  }

  // ---------------------------------------------------------------- the walker as written

  /** The relative path `_walk` computes, as written, for directory `d` of
      the listing: `path.split(root)[1].lstrip('/')`. */
  function AsWrittenDir(r: Replica, d: string): string
  {
    var dp := DirPath(r.root, d);
    if r.root != [] && StartsWith(dp, r.root) then RelativeDirAsWritten(dp, r.root) else d
  }

  /** `_walk(root)` with its relative directory as written: the files of each
      listed directory that are not ignored, joined to the relative path the
      code computes, unless that path starts with a dot. */
  function WalkAsWritten(r: Replica, ignoreRules: string): set<string>
  {
    set d, n | d in OsWalk(r) && n in OsWalk(r)[d].fileNames
                 && !StartsWith(AsWrittenDir(r, d), ".") && !Ignored(n, ignoreRules)
      :: PathJoin(AsWrittenDir(r, d), n)
  }

  lemma WalkedAsWritten(r: Replica, ignoreRules: string, d: string, n: string)
    requires d in OsWalk(r) && n in FilesIn(r, d)
    requires !StartsWith(AsWrittenDir(r, d), ".") && !Ignored(n, ignoreRules)
    ensures PathJoin(AsWrittenDir(r, d), n) in WalkAsWritten(r, ignoreRules)
  {
  }

  /** The root string occurs in no sub-directory's path after the root itself. */
  predicate RootDoesNotRecur(r: Replica)
  {
    forall d :: d in r.dirs ==>
      var dp := DirPath(r.root, d);
      |r.root| <= |dp| && Find(dp[|r.root|..], r.root) < 0
  }

  lemma AsWrittenDirOfListed(r: Replica, d: string)
    requires ValidReplica(r) && RootDoesNotRecur(r) && d in OsWalk(r)
    ensures AsWrittenDir(r, d) == d
  {
    var dp := DirPath(r.root, d);
    assert ValidDir(d);
    RelativeDirOfDirPath(r.root, d);
    if d == [] {
      assert dp[|r.root|..] == [];
    }
    AsWrittenAgreesWithoutRecurrence(dp, r.root);
  }

  /** While the root string does not recur below the root, the walk as
      written is exactly `WalkSpec`. */
  lemma WalkAsWrittenAgrees(r: Replica, ignoreRules: string)
    requires ValidReplica(r) && RootDoesNotRecur(r)
    ensures WalkAsWritten(r, ignoreRules) == WalkSpec(r, ignoreRules)
  {
    forall q | q in WalkAsWritten(r, ignoreRules) ensures q in WalkSpec(r, ignoreRules) {
      var d, n :| d in OsWalk(r) && n in OsWalk(r)[d].fileNames
                  && !StartsWith(AsWrittenDir(r, d), ".") && !Ignored(n, ignoreRules)
                  && q == PathJoin(AsWrittenDir(r, d), n);
      AsWrittenDirOfListed(r, d);
      assert ValidDir(d);
      FileInDirectory(r, d, n);
    }
    forall p | p in WalkSpec(r, ignoreRules) ensures p in WalkAsWritten(r, ignoreRules) {
      var d, n := DirOf(p), BaseOf(p);
      DirBaseOfValidPath(p);
      assert d in OsWalk(r);
      assert n in OsWalk(r)[d].fileNames;
      AsWrittenDirOfListed(r, d);
    }
  }

  /** A replica with root `/data` that holds only the file `database/f`. */
  predicate IsDatabaseReplica(r: Replica)
  {
    r.root == "/data" && r.files == map["database/f" := []] && r.dirs == {"database"}
  }

  lemma DatabaseReplicaIsValid(r: Replica)
    requires IsDatabaseReplica(r)
    ensures ValidReplica(r)
    ensures DirOf("database/f") == "database" && BaseOf("database/f") == "f"
  {
    LastSlashOfAppend("database", "f");
    assert "database/f" == "database" + "/" + "f";
    LastSlashNone("database");
    assert ValidRelPath("database");
    assert ValidRelPath("database/f") by {
      forall j | 0 <= j < |"database/f"| && "database/f"[j] == '/'
        ensures 0 < j < |"database/f"| - 1 && "database/f"[j + 1] != '/'
      {
        assert j == 8;
      }
    }
    assert r.files.Keys == {"database/f"};
    assert "database/f"[..8] == "database";
    assert DirOf("database/f") in r.dirs;
  }

  /** The files of the replica by directory. */
  lemma DatabaseReplicaFiles(r: Replica)
    requires IsDatabaseReplica(r)
    ensures FilesIn(r, []) == {}
    ensures FilesIn(r, "database") == {"f"}
    ensures OsWalk(r).Keys == {[], "database"}
  {
    DatabaseReplicaIsValid(r);
    assert r.files.Keys == {"database/f"};
  }

  /** The directories of the replica, as the code walks them: both the root
      and `database` are taken for the root itself. */
  lemma DatabaseReplicaAsWritten(r: Replica)
    requires IsDatabaseReplica(r)
    ensures AsWrittenDir(r, []) == []
    ensures AsWrittenDir(r, "database") == []
  {
    RootAsWritten(r.root);
    DatabaseAsWritten(r);
  }

  /** The root itself is split into two empty pieces. */
  lemma RootAsWritten(root: string)
    requires root != []
    ensures StartsWith(root, root) && RelativeDirAsWritten(root, root) == []
  {
    assert OccursAt(root, root, 0);
    SplitAtFront(root, root);
    assert root[|root|..] == [];
    SplitFirstPiece([], root);
  }

  lemma DatabaseAsWritten(r: Replica)
    requires IsDatabaseReplica(r)
    ensures StartsWith(DirPath(r.root, "database"), r.root)
    ensures RelativeDirAsWritten(DirPath(r.root, "database"), r.root) == []
  {
    var tail := "/database";
    assert DirPath(r.root, "database") == r.root + tail;
    assert StartsWith(tail, r.root) by { assert tail[..5] == r.root; }
    AsWrittenOfDoubledRoot(r.root, tail);
  }

  /** The code walks the file `database/f` of a root `/data` as `f` (when the
      rules do not ignore `f`): a path the replica does not hold, so opening
      it for the new DataFile raises `FileNotFoundError`, while `database/f`
      itself is never walked. */
  lemma AsWrittenWalkNamesMissingFile(r: Replica, ignoreRules: string)
    requires IsDatabaseReplica(r) && !Ignored("f", ignoreRules)
    ensures ValidReplica(r)
    ensures "database/f" in WalkSpec(r, ignoreRules)
    ensures WalkAsWritten(r, ignoreRules) == {"f"}
    ensures Lookup(r, "f").NotFound?
  {
    DatabaseReplicaIsValid(r);
    DatabaseFileIsWalked(r, ignoreRules);
    DatabaseWalkHasF(r, ignoreRules);
    DatabaseWalkOnlyF(r, ignoreRules);
    DatabaseLookupOfF(r);
  }

  lemma DatabaseFileIsWalked(r: Replica, ignoreRules: string)
    requires IsDatabaseReplica(r) && !Ignored("f", ignoreRules)
    ensures "database/f" in WalkSpec(r, ignoreRules)
  {
    DatabaseReplicaIsValid(r);
    assert !StartsWith("database", ".");
  }

  lemma DatabaseWalkHasF(r: Replica, ignoreRules: string)
    requires IsDatabaseReplica(r) && !Ignored("f", ignoreRules)
    ensures "f" in WalkAsWritten(r, ignoreRules)
  {
    DatabaseReplicaFiles(r);
    assert "database" in OsWalk(r);
    assert "f" in FilesIn(r, "database");
    DatabaseReplicaAsWritten(r);
    assert !StartsWith(AsWrittenDir(r, "database"), ".");
    assert PathJoin([], "f") == "f";
    WalkedAsWritten(r, ignoreRules, "database", "f");
  }

  lemma DatabaseWalkOnlyF(r: Replica, ignoreRules: string)
    requires IsDatabaseReplica(r)
    ensures forall q :: q in WalkAsWritten(r, ignoreRules) ==> q == "f"
  {
    forall q | q in WalkAsWritten(r, ignoreRules) ensures q == "f" {
      var d, n :| d in OsWalk(r) && n in OsWalk(r)[d].fileNames
                  && !StartsWith(AsWrittenDir(r, d), ".") && !Ignored(n, ignoreRules)
                  && q == PathJoin(AsWrittenDir(r, d), n);
      DatabaseListedNameIsF(r, d, n);
    }
  }

  lemma DatabaseListedNameIsF(r: Replica, d: string, n: string)
    requires IsDatabaseReplica(r) && d in OsWalk(r) && n in OsWalk(r)[d].fileNames
    ensures PathJoin(AsWrittenDir(r, d), n) == "f"
  {
    DatabaseReplicaFiles(r);
    assert n in FilesIn(r, d);
    assert d == "database";
    assert n == "f";
    DatabaseReplicaAsWritten(r);
  }

  lemma DatabaseLookupOfF(r: Replica)
    requires IsDatabaseReplica(r)
    ensures Lookup(r, "f").NotFound?
  {
    assert "f" !in r.dirs && "f" !in r.files;
  }

  // ---------------------------------------------------------------- reconciliation

  /** The DataFile rows of one source, by path. */
  type Table = map<string, FileRecord>

  /** Each row is stored under its own path, so `(source, path)` is unique. */
  predicate ValidTable(t: Table)
  {
    forall p :: p in t ==> t[p].path == p
  }

  /** A row after `refresh_from_disk` found different content. */
  function Refreshed(rec: FileRecord, content: Bytes, sha: Bytes -> Digest, now: Time): FileRecord
  {
    rec.(size := |content|, hash := sha(content), data := content, lastUpdated := now)
  }

  /** A known row whose path cannot be opened for a reason other than absence:
      the error escapes `sync`. */
  predicate OpenFails(known: Table, r: Replica)
  {
    exists p :: p in known && (Lookup(r, p).IsADirectory? || Lookup(r, p).NotADirectory?)
  }

  /** The known paths whose file no longer exists: staged for deletion. */
  function DeletedPaths(known: Table, r: Replica): set<string>
  {
    set p | p in known && Lookup(r, p).NotFound?
  }

  /** The known paths whose file has a different hash: staged for update. */
  function ChangedPaths(known: Table, r: Replica, sha: Bytes -> Digest): set<string>
  {
    set p | p in known && p in r.files && sha(r.files[p]) != known[p].hash
  }

  /** The rows `bulk_update` writes: the changed ones, refreshed. */
  function ChangedRows(known: Table, r: Replica, sha: Bytes -> Digest, now: Time): Table
  {
    map p | p in ChangedPaths(known, r, sha) :: Refreshed(known[p], r.files[p], sha, now)
  }

  /** The table after the bulk update and the bulk delete. */
  function AfterRefresh(known: Table, r: Replica, sha: Bytes -> Digest, now: Time): Table
  {
    map p | p in known && p in r.files ::
      if sha(r.files[p]) == known[p].hash then known[p] else Refreshed(known[p], r.files[p], sha, now)
  }

  /** Writing the changed rows, then deleting the vanished ones, leaves
      exactly the refreshed table, when no open failed. */
  lemma BulkUpdateThenDelete(known: Table, r: Replica, sha: Bytes -> Digest, now: Time)
    requires !OpenFails(known, r)
    ensures (known + ChangedRows(known, r, sha, now)) - DeletedPaths(known, r) == AfterRefresh(known, r, sha, now)
  {
    var lhs := (known + ChangedRows(known, r, sha, now)) - DeletedPaths(known, r);
    forall p | p in known
      ensures p in lhs <==> p in r.files
    {
      if p !in r.files {
        assert !Lookup(r, p).IsADirectory? && !Lookup(r, p).NotADirectory?;
      }
    }
  }

  /** `_walk(root) - known_paths`, against the paths known before the sync. */
  function NewPaths(known: Table, r: Replica, ignoreRules: string): set<string>
  {
    WalkSpec(r, ignoreRules) - known.Keys
  }

  /** The row `bulk_create` inserts for a new path. */
  function NewRecord(p: string, content: Bytes, sha: Bytes -> Digest, now: Time): FileRecord
  {
    FileRecord(p, |content|, sha(content), content, now, now)
  }

  /** The rows `bulk_create` inserts for the given paths. */
  function NewRows(paths: set<string>, r: Replica, sha: Bytes -> Digest, now: Time): Table
  {
    map p | p in paths && p in r.files :: NewRecord(p, r.files[p], sha, now)
  }

  /** The given paths whose fresh DataFile fails `full_clean()` in a table
      that holds `existing`. */
  function Rejected(paths: set<string>, r: Replica, sha: Bytes -> Digest, existing: set<string>): set<string>
  {
    set p | p in paths && p in r.files && !Cleans(p, |r.files[p]|, sha(r.files[p]), existing)
  }

  function CreatedRows(known: Table, r: Replica, ignoreRules: string, sha: Bytes -> Digest, now: Time): Table
  {
    NewRows(NewPaths(known, r, ignoreRules), r, sha, now)
  }

  /** The new paths whose DataFile fails `full_clean()`, against the table as
      the bulk update and the bulk delete left it. */
  function RejectedPaths(known: Table, r: Replica, ignoreRules: string, sha: Bytes -> Digest, now: Time): set<string>
  {
    Rejected(NewPaths(known, r, ignoreRules), r, sha, AfterRefresh(known, r, sha, now).Keys)
  }

  /** The table after a successful sync. */
  function SyncedTable(known: Table, r: Replica, ignoreRules: string, sha: Bytes -> Digest, now: Time): (t: Table)
    ensures t.Keys == (known.Keys * r.files.Keys) + NewPaths(known, r, ignoreRules)
    ensures forall p :: p in t ==> p in r.files && t[p].hash == sha(r.files[p])
    ensures ValidTable(known) ==> ValidTable(t)
  {
    var refreshed := AfterRefresh(known, r, sha, now);
    var created := CreatedRows(known, r, ignoreRules, sha, now);
    RefreshedAndCreatedKeys(known, r, ignoreRules, sha, now);
    RefreshedAndCreatedHashes(known, r, ignoreRules, sha, now);
    UnionOfMatchingTables(refreshed, created, r, sha);
    refreshed + created
  }

  /** Every row of `t` is a file of the replica carrying that file's digest. */
  predicate MatchesDisk(t: Table, r: Replica, sha: Bytes -> Digest)
  {
    forall p :: p in t ==> p in r.files && t[p].hash == sha(r.files[p])
  }

  lemma UnionOfMatchingTables(a: Table, b: Table, r: Replica, sha: Bytes -> Digest)
    requires MatchesDisk(a, r, sha) && MatchesDisk(b, r, sha)
    ensures (a + b).Keys == a.Keys + b.Keys
    ensures MatchesDisk(a + b, r, sha)
    ensures ValidTable(a) && ValidTable(b) ==> ValidTable(a + b)
  {
  }

  lemma RefreshedAndCreatedKeys(known: Table, r: Replica, ignoreRules: string, sha: Bytes -> Digest, now: Time)
    ensures AfterRefresh(known, r, sha, now).Keys == known.Keys * r.files.Keys
    ensures CreatedRows(known, r, ignoreRules, sha, now).Keys == NewPaths(known, r, ignoreRules)
  {
  }

  lemma RefreshedAndCreatedHashes(known: Table, r: Replica, ignoreRules: string, sha: Bytes -> Digest, now: Time)
    ensures MatchesDisk(AfterRefresh(known, r, sha, now), r, sha)
    ensures ValidTable(known) ==> ValidTable(AfterRefresh(known, r, sha, now))
    ensures MatchesDisk(CreatedRows(known, r, ignoreRules, sha, now), r, sha)
    ensures ValidTable(CreatedRows(known, r, ignoreRules, sha, now))
  {
  }

  /** A successful sync keeps each row under its own path. */
  lemma SyncedTableValid(known: Table, r: Replica, ignoreRules: string, sha: Bytes -> Digest, now: Time)
    requires ValidTable(known)
    ensures ValidTable(SyncedTable(known, r, ignoreRules, sha, now))
  {
  }

  /** A known row is deleted exactly when its file has vanished from disk. */
  lemma SyncDeletesExactlyVanished(known: Table, r: Replica, ignoreRules: string, sha: Bytes -> Digest, now: Time)
    requires !OpenFails(known, r)
    ensures forall p :: p in known ==>
      (p in SyncedTable(known, r, ignoreRules, sha, now) <==> p !in DeletedPaths(known, r))
  {
    forall p | p in known
      ensures p in r.files <==> p !in DeletedPaths(known, r)
    {
      if p !in r.files {
        assert !Lookup(r, p).IsADirectory? && !Lookup(r, p).NotADirectory?;
      }
    }
  }

  /** A changed file's row carries its new size, hash, content and update
      time, and keeps its path and creation time. */
  lemma SyncRefreshesChanged(known: Table, r: Replica, ignoreRules: string, sha: Bytes -> Digest, now: Time)
    ensures var t := SyncedTable(known, r, ignoreRules, sha, now);
      forall p :: p in ChangedPaths(known, r, sha) ==>
        p in t && t[p] == FileRecord(known[p].path, |r.files[p]|, sha(r.files[p]), r.files[p], known[p].created, now)
  {
  }

  /** A file whose hash has not changed keeps its row exactly. */
  lemma SyncKeepsUnchanged(known: Table, r: Replica, ignoreRules: string, sha: Bytes -> Digest, now: Time)
    ensures var t := SyncedTable(known, r, ignoreRules, sha, now);
      forall p :: p in known && p in r.files && sha(r.files[p]) == known[p].hash ==> p in t && t[p] == known[p]
  {
  }

  /** The rows a sync adds are exactly the walked paths that were not known,
      each holding the file's content and its hash, created and updated now. */
  lemma SyncCreatesExactlyNew(known: Table, r: Replica, ignoreRules: string, sha: Bytes -> Digest, now: Time)
    ensures var t := SyncedTable(known, r, ignoreRules, sha, now);
      && t.Keys - known.Keys == WalkSpec(r, ignoreRules) - known.Keys
      && forall p :: p in t && p !in known ==>
           t[p] == FileRecord(p, |r.files[p]|, sha(r.files[p]), r.files[p], now, now)
  {
  }

  /** New paths are computed against the rows known before the sync, so none
      of them is still in the table when it is created: `bulk_create` never
      meets an existing `(source, path)`, and `full_clean()` never reports one. */
  lemma NoPathCreatedTwice(known: Table, r: Replica, ignoreRules: string, sha: Bytes -> Digest, now: Time)
    ensures NewPaths(known, r, ignoreRules) !! AfterRefresh(known, r, sha, now).Keys
    ensures forall p :: p in NewPaths(known, r, ignoreRules) ==>
      DuplicatePath !in CleanErrors(p, |r.files[p]|, sha(r.files[p]), AfterRefresh(known, r, sha, now).Keys)
  {
  }

  /** A known file stays and is refreshed even when the walk would now skip it
      (a new ignore rule, a dot-directory): only absence from disk deletes. */
  lemma KnownFilesAreKeptWhateverTheRules(known: Table, r: Replica, ignoreRules: string, sha: Bytes -> Digest, now: Time, p: string)
    requires p in known && p in r.files
    ensures p in SyncedTable(known, r, ignoreRules, sha, now)
    ensures SyncedTable(known, r, ignoreRules, sha, now)[p].hash == sha(r.files[p])
            || SyncedTable(known, r, ignoreRules, sha, now)[p] == known[p]
  {
  }

  /** After a sync every row's hash is the digest of its file on disk. */
  lemma SyncedHashesMatchDisk(known: Table, r: Replica, ignoreRules: string, sha: Bytes -> Digest, now: Time)
    ensures var t := SyncedTable(known, r, ignoreRules, sha, now);
      forall p :: p in t ==> p in r.files && t[p].hash == sha(r.files[p])
  {
  }

  /** The rows a successful sync leaves: the known paths still on disk and
      the new paths. */
  lemma SyncedKeys(known: Table, r: Replica, ignoreRules: string, sha: Bytes -> Digest, now: Time)
    ensures SyncedTable(known, r, ignoreRules, sha, now).Keys
            == (known.Keys * r.files.Keys) + NewPaths(known, r, ignoreRules)
  {
  }

  /** A table that agrees with the disk is left as it is by the refresh step. */
  lemma RefreshOfMatchingTable(t: Table, r: Replica, sha: Bytes -> Digest, later: Time)
    requires forall p :: p in t ==> p in r.files && t[p].hash == sha(r.files[p])
    ensures !OpenFails(t, r)
    ensures DeletedPaths(t, r) == {}
    ensures ChangedPaths(t, r, sha) == {}
    ensures AfterRefresh(t, r, sha, later) == t
  {
    assert forall p :: p in t ==> Lookup(r, p).File?;
  }

  /** Every walked path has a row after a sync. */
  lemma WalkedPathsAreSynced(known: Table, r: Replica, ignoreRules: string, sha: Bytes -> Digest, now: Time)
    ensures NewPaths(SyncedTable(known, r, ignoreRules, sha, now), r, ignoreRules) == {}
  {
    var t := SyncedTable(known, r, ignoreRules, sha, now);
    SyncedKeys(known, r, ignoreRules, sha, now);
    forall p | p in WalkSpec(r, ignoreRules) ensures p in t {
      if p !in known {
        assert p in NewPaths(known, r, ignoreRules);
      }
    }
  }

  /** A table that agrees with the disk and already holds every walked path
      is a fixed point of the sync. */
  lemma SyncOfSettledTable(t: Table, r: Replica, ignoreRules: string, sha: Bytes -> Digest, later: Time)
    requires forall p :: p in t ==> p in r.files && t[p].hash == sha(r.files[p])
    requires WalkSpec(r, ignoreRules) <= t.Keys
    ensures NewPaths(t, r, ignoreRules) == {}
    ensures SyncedTable(t, r, ignoreRules, sha, later) == t
  {
    RefreshOfMatchingTable(t, r, sha, later);
    assert NewPaths(t, r, ignoreRules) == {};
    assert CreatedRows(t, r, ignoreRules, sha, later) == map[];
  }

  /** Syncing again with nothing changed on disk deletes, updates and creates
      nothing and leaves every row as it was. */
  lemma {:induction false} SecondSyncChangesNothing(known: Table, r: Replica, ignoreRules: string,
                                                    sha: Bytes -> Digest, now: Time, later: Time)
    ensures var t := SyncedTable(known, r, ignoreRules, sha, now);
      && !OpenFails(t, r)
      && DeletedPaths(t, r) == {}
      && ChangedPaths(t, r, sha) == {}
      && NewPaths(t, r, ignoreRules) == {}
      && SyncedTable(t, r, ignoreRules, sha, later) == t
  {
    var t := SyncedTable(known, r, ignoreRules, sha, now);
    SyncedHashesMatchDisk(known, r, ignoreRules, sha, now);
    RefreshOfMatchingTable(t, r, sha, later);
    WalkedPathsAreSynced(known, r, ignoreRules, sha, now);
    SyncOfSettledTable(t, r, ignoreRules, sha, later);
  }
}

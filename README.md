# NetBox data sources: synchronisation and the data source form

This project models the part of NetBox's `core` application that keeps a
*data source* in step with the files of its remote replica:

- `DataSource` has a readiness check, a URL check and a sync job request.
  Its `sync()` refreshes the known DataFiles from the local replica the
  backend fetched. It deletes the rows whose file is gone, walks the replica
  (skipping dot-directories, dot-files and files matching the ignore rules),
  and creates a DataFile for every new path.
- `DataFile` has its stored fields, `full_clean()` validation, the UTF-8 view
  of its data and `refresh_from_disk()`.
- `DataSourceForm` selects the backend that governs it and adds one
  `backend_<name>` field for each backend parameter. On save it turns those
  fields back into the source's `parameters`.

The model works in four layers:

- **Python built-ins, on values.** `PyStr` models `str` (`startswith`,
  `lstrip`, `find`, `split`, `splitlines`, `lower`). `Glob` models
  `fnmatch.fnmatchcase`. `Urls` models the scheme from `urlparse`. `Utf8`
  models strict `bytes.decode('utf-8')`. `Fs` models `os.path.join`, opening a
  file and `os.walk` over a replica tree.
- **Rows and validation.** `Records` holds the DataFile row and what
  `full_clean()` checks.
- **The specification of a sync.** `SyncSpec` gives the ignore rule, the walked
  set and the table after a sync as functions, with the properties a sync
  promises proved as lemmas.
- **The objects.** `Data` holds the classes `DataSource` and `DataFile`. Their
  methods do what the source does, loop by loop, and are proved against
  `SyncSpec`. `Forms` holds the class `DataSourceForm`.

Each status change is modelled:

- `sync()` leaves the source `Syncing` when the fetch or a refresh raises.
- When a new DataFile fails `full_clean()`, the bulk update and the bulk
  delete have already been applied. `sync()` persists that partial state and
  leaves the source `Syncing`.
- A successful sync ends `Completed`, with `lastSynced` set.

`_walk` tests only whether the relative directory *starts* with a dot
(data.py:209), so `sub/.hidden/c.txt` is walked
(`SyncSpec.WalkKeepsNestedDotDirectories`).

The model follows the code, with one exception: the relative directory at
data.py:208. The code
computes it as `path.split(root)[1]`, which goes wrong when the root string
occurs again below the root (see "## Findings"). The walk that `Walk`, `Sync`
and `SyncSpec` use removes the root prefix instead. `SyncSpec.WalkAsWritten`
models the code as written. `SyncSpec.WalkAsWrittenAgrees` proves that the two
walks agree whenever the root does not recur. "## Left out" names the members
that rely on the corrected walk.

## Model

| member | source | states |
|---|---|---|
| PyStr.SplitLinesOfJoined | netbox/core/models/data.py:225 | lines ended by `\n` or by `\r\n` (as a text area submits them) split back into exactly those lines, so each stored rule is one rule line |
| Glob.PlainPatternMatchesOnlyItself | netbox/core/models/data.py:226 | a rule without `*`, `?` or `[` ignores exactly the file with that name |
| Glob.StarSuffixMatchesEndings | netbox/core/models/data.py:226 | a rule `*` + plain suffix ignores exactly the names ending in that suffix |
| Glob.StarMatchesEverything | netbox/core/models/data.py:226 | the rule `*` matches every name, the empty one included |
| Glob.BracketMatchesOneCharacter | netbox/core/models/data.py:226 | a bracket expression matches a one-character name exactly when the character is (or, negated, is not) in the set |
| Urls.UrlScheme | netbox/core/models/data.py:94-96 | a scheme is made of lower-case letters, digits, `+`, `-` and `.`; `urlparse` raises `ValueError` only for a URL that holds a bracket |
| Urls.SchemeOfComposedUrl | netbox/core/models/data.py:94-96 | the scheme of `scheme:rest` is the scheme lower-cased; `urlparse` raises `ValueError` instead exactly when `rest` starts with `//` and its network location has an unbalanced bracket |
| Urls.NoColonNoScheme | netbox/core/models/data.py:94-96 | a URL without a colon has the empty scheme, or raises `ValueError` exactly when it starts with `//` and its network location has an unbalanced bracket |
| Urls.SchemeUrlWithUnclosedBracket | netbox/core/models/data.py:94-96 | with any valid scheme, `scheme://[h` raises `ValueError` when `h` holds no `]`, no delimiter and no colon |
| Urls.UnclosedBracketRaises | netbox/core/models/data.py:94-96 | `file://[h` and `//[h` both raise `ValueError` when `h` holds no `]`, no delimiter and no colon |
| Utf8.DecodeEncode | netbox/core/models/data.py:286-291 | decoding the UTF-8 encoding of any text gives that text back |
| Utf8.EncodeDecode | netbox/core/models/data.py:286-291 | bytes the strict decoder accepts are the canonical encoding of what it returns |
| Fs.Lookup | netbox/core/models/data.py:305-306 | opening a path yields the file's content exactly when the replica has a file there, and says which error otherwise |
| Fs.OsWalk | netbox/core/models/data.py:207 | `os.walk` yields the root and every sub-directory, each with its file names |
| Fs.DirBaseOfValidPath | netbox/core/models/data.py:213 | every relative file path is `os.path.join` of its directory and its name |
| Fs.DirBaseOfJoin | netbox/core/models/data.py:213 | joining a directory and a name gives a path whose directory and name are those two |
| Fs.RelativeDirOfDirPath | netbox/core/models/data.py:207-208 | removing the root prefix and the slashes after it from a walked directory gives back that directory's relative path |
| Fs.AsWrittenAgreesWithoutRecurrence | netbox/core/models/data.py:208 | `path.split(root)[1].lstrip('/')` agrees with removing the prefix while the root string does not occur again |
| Fs.AsWrittenLosesNestedDirectory | netbox/core/models/data.py:208 | with root `/d`, the directory `x/dd` is taken as `x` by the code as written |
| Records.HashValidatorsAcceptExactlyDigests | netbox/core/models/data.py:256-263 | the max-length and regex validators together accept a non-empty hash exactly when it is 64 lowercase hex digits |
| Records.CleanErrorsOfDigest | netbox/core/models/data.py:248-274 | a DataFile hashed from disk fails `full_clean()` exactly for a path over 1000 characters, a size over the integer range, or a path already in the table |
| Records.CleansExactlyWithoutErrors | netbox/core/models/data.py:248-274 | `full_clean()` reports no error exactly when path length, hash, size and uniqueness are all acceptable |
| Records.CleanErrors | netbox/core/models/data.py:248-263 | `full_clean()` reports each error exactly for its violated limit: a path over 1000 characters, a hash over 64 characters, a non-empty hash the pattern rejects, a size over the integer range, and a duplicate only for a path within its limit |
| Records.CleansDigest | netbox/core/models/data.py:256-263 | for a SHA-256 digest, cleaning depends only on the path, the size and uniqueness |
| SyncSpec.Ignored | netbox/core/models/data.py:218-228 | a dot-file is always ignored, and with no rule lines exactly the dot-files are |
| SyncSpec.DotFilesAlwaysIgnored | netbox/core/models/data.py:223-224 | a name starting with `.` is ignored whatever the rules |
| SyncSpec.RuleOrderIrrelevant | netbox/core/models/data.py:225-227 | only the set of rule lines decides what is ignored |
| SyncSpec.NoRulesIgnoreOnlyDotFiles | netbox/core/models/data.py:223-228 | with no rules, exactly the dot-files are ignored |
| SyncSpec.IgnoredBySingleRule | netbox/core/models/data.py:223-228 | with one rule line, a name is ignored exactly when it is a dot-file or matches that line |
| SyncSpec.TxtRuleIsCaseSensitive | netbox/core/models/data.py:225-226 | the rule `*.txt` ignores `notes.txt` and not `notes.TXT` |
| SyncSpec.WalkSpec | netbox/core/models/data.py:200-216 | every walked path is a file of the replica, none starts with a dot, and no walked file's name is ignored |
| SyncSpec.WalkedPathsAreFiles | netbox/core/models/data.py:207-216 | every path of the corrected walk is a file of the replica |
| SyncSpec.WalkSkipsTopLevelDotEntries | netbox/core/models/data.py:208-210 | no path starting with `.` is walked: neither a top-level dot-file nor anything below a top-level dot-directory |
| SyncSpec.WalkKeepsNestedDotDirectories | netbox/core/models/data.py:208-213 | a file below `sub/.hidden` is walked when its name is not ignored |
| SyncSpec.WalkAsWrittenAgrees | netbox/core/models/data.py:207-213 | while the root string does not occur again below the root, the walk as the code writes it is exactly `SyncSpec.WalkSpec` |
| SyncSpec.AsWrittenWalkNamesMissingFile | netbox/core/models/data.py:207-213 | with root `/data`, the code walks the file `database/f` as `f` and nothing else, and opening `f` fails with `FileNotFoundError` |
| SyncSpec.BulkUpdateThenDelete | netbox/core/models/data.py:161-176 | writing the changed rows and then deleting the vanished ones leaves exactly the known rows still on disk, refreshed where their hash changed |
| SyncSpec.SyncedTable | netbox/core/models/data.py:136-198 | after a successful sync the rows are the known paths still on disk plus the new walked paths, each row with the digest of its file, and each row stays under its own path |
| SyncSpec.SyncedTableValid | netbox/core/models/data.py:270-274 | after a sync each row is still stored under its own path |
| SyncSpec.SyncDeletesExactlyVanished | netbox/core/models/data.py:161-176 | a known row is deleted exactly when its file no longer exists |
| SyncSpec.SyncRefreshesChanged | netbox/core/models/data.py:164-172 | a changed file's row takes the new size, hash, content and update time, and keeps its path and creation time |
| SyncSpec.SyncKeepsUnchanged | netbox/core/models/data.py:164-172 | a file whose hash is unchanged keeps its row exactly |
| SyncSpec.SyncCreatesExactlyNew | netbox/core/models/data.py:180-189 | the rows a sync adds are exactly the walked paths not known before, each with the file's size, hash and content, created and updated now |
| SyncSpec.NoPathCreatedTwice | netbox/core/models/data.py:180-189 | no new path is already in the table, so `full_clean()` never reports a duplicate for it |
| SyncSpec.KnownFilesAreKeptWhateverTheRules | netbox/core/models/data.py:161-180 | a known file still on disk stays, and is refreshed, even when the walk would now skip it |
| SyncSpec.SyncedHashesMatchDisk | netbox/core/models/data.py:161-189 | after a sync every row's hash is the digest of its file on disk |
| SyncSpec.SyncedKeys | netbox/core/models/data.py:161-189 | after a sync the rows are the known paths still on disk plus the new walked paths |
| SyncSpec.RefreshOfMatchingTable | netbox/core/models/data.py:161-176 | a table that agrees with the disk has nothing to update or delete and no failing open |
| SyncSpec.WalkedPathsAreSynced | netbox/core/models/data.py:180-189 | after a sync no walked path is new |
| SyncSpec.SyncOfSettledTable | netbox/core/models/data.py:136-198 | a table that agrees with the disk and holds every walked path is a fixed point of the sync |
| SyncSpec.SecondSyncChangesNothing | netbox/core/models/data.py:136-198 | syncing again with the disk unchanged deletes, updates and creates nothing |
| Data.DataFile.Load | netbox/core/models/data.py:236-264 | a DataFile loaded from a row holds that row's fields, its data as the `memoryview` the database driver returns |
| Data.DataFile.constructor | netbox/core/models/data.py:236-264 | a new DataFile has its path, empty `bytes` data, and no stored size, hash or times |
| Data.DataFile.DataAsString | netbox/core/models/data.py:286-291 | `AttributeError` escapes exactly when the data is `bytes` rather than a `memoryview`; otherwise the text returned encodes back to the data, and `None` comes back exactly when no text encodes to the data |
| Data.DataFile.RefreshFromDisk | netbox/core/models/data.py:300-316 | an open error is raised exactly when the path is not a file; otherwise the result says whether the hash changed, and only then are update time, size, hash and data replaced, the data by `bytes` |
| Data.DataSource.constructor | netbox/core/models/data.py:36-70 | a new source is `New`, enabled, with no rules, parameters, sync time or files |
| Data.DataSource.UrlScheme | netbox/core/models/data.py:94-96 | the source's scheme is made of lower-case scheme characters, and `ValueError` is raised only when the URL holds a bracket |
| Data.DataSource.ReadyForSync | netbox/core/models/data.py:98-103 | a source is ready exactly when it is enabled and neither `Queued` nor `Syncing`, that is `New`, `Completed` or `Failed` |
| Data.DataSource.Clean | netbox/core/models/data.py:105-111 | `clean()` passes every source that is not local; its `ValidationError` names the `url` field and is raised only for a local source; the `ValueError` of `urlparse` escapes only for a local source whose URL holds a bracket |
| Data.CleanOfLocalSchemeUrl | netbox/core/models/data.py:105-111 | for a local source with URL `scheme:rest`, `clean()` raises `ValueError` exactly when `rest` starts a network location with an unbalanced bracket; otherwise it passes exactly when the scheme is `file` in any case |
| Data.CleanOfLocalBarePath | netbox/core/models/data.py:105-111 | a local source whose URL has no colon passes `clean()`, or raises `ValueError` exactly when its URL starts with `//` and its network location has an unbalanced bracket |
| Data.CleanRaisesOnUnclosedBracket | netbox/core/models/data.py:105-111 | a local source with URL `file://[h` or `//[h` makes `clean()` raise `ValueError` |
| Data.CleanOfOtherTypes | netbox/core/models/data.py:105-111 | other source types pass `clean()` whatever their URL |
| Data.DataSource.EnqueueSyncJob | netbox/core/models/data.py:113-128 | the source becomes `Queued` and so not ready for another sync; nothing else changes |
| Data.DataSource.Ignore | netbox/core/models/data.py:218-228 | the loop's answer is the ignore rule |
| Data.DataSource.Walk | netbox/core/models/data.py:200-216 | the walk loop returns exactly the corrected walk `SyncSpec.WalkSpec` |
| Data.DataSource.WalkDirectory | netbox/core/models/data.py:207-213 | one directory from `os.walk` contributes exactly the paths the corrected walk takes inside it |
| Data.DataSource.KeepFiles | netbox/core/models/data.py:211-213 | the inner loop returns the joined paths of the names that are not ignored |
| Data.DataSource.CheckKnownFiles | netbox/core/models/data.py:154-169 | the refresh loop raises exactly when some known path cannot be opened for a reason other than absence, and otherwise stages exactly the changed rows and the vanished paths |
| Data.DataSource.RefreshedKnownFile | netbox/core/models/data.py:161-169 | a stored DataFile refreshed from disk reports absence, or whether it changed, with the row it would write |
| Data.DataSource.CreateNewFiles | netbox/core/models/data.py:183-188 | the creation loop builds exactly the new rows when every new path is a file that passes `full_clean()`; otherwise it stops at a new path that is not a file, with the error opening it, or at one that fails `full_clean()`, with its errors; when every new path is a file, it fails exactly when some new path fails `full_clean()` |
| Data.DataSource.PrepareNewFile | netbox/core/models/data.py:185-188 | opening the new path raises exactly when it is not a file, with its open error; otherwise the DataFile refreshed from disk and cleaned yields the `full_clean()` errors and the row `bulk_create` writes |
| Data.DataSource.Sync | netbox/core/models/data.py:136-198 | `sync()` refuses exactly when the source is not ready; otherwise it states, for each way the call can end over the corrected walk, the status, the sync time and the table |
| Data.DataSource.SyncReplica | netbox/core/models/data.py:154-198 | once the replica is fetched, the call fails on an open error with nothing written, fails on a rejected new file with the refresh persisted, or stores the table synced over the corrected walk and completes |
| Forms.SelectBackendType | netbox/core/forms/model_forms.py:55-63 | the bound type if registered, else the initial type if registered, else the field default |
| Forms.FieldName | netbox/core/forms/model_forms.py:67 | a parameter's field name carries the `backend_` prefix followed by the parameter name |
| Forms.ParameterName | netbox/core/forms/model_forms.py:76-78 | `name[8:]` of a prefixed field is the parameter whose field it is |
| Forms.ParameterNameInjective | netbox/core/forms/model_forms.py:76-78 | distinct prefixed fields save under distinct parameter names |
| Forms.BackendFieldNames | netbox/core/forms/model_forms.py:65-68 | one field per parameter, in parameter order |
| Forms.WithStoredInitial | netbox/core/forms/model_forms.py:69-71 | when the source stores parameters, a field's initial value becomes the stored value, or nothing when that parameter is not stored |
| Forms.SavedParameters | netbox/core/forms/model_forms.py:75-79 | one entry for each prefixed field, under its parameter name, holding that field's cleaned value |
| Forms.DataSourceForm.constructor | netbox/core/forms/model_forms.py:52-71 | the form's fields are its own followed by one field per parameter of the selected backend, each installed with its stored initial value |
| Forms.DataSourceForm.Fieldsets | netbox/core/forms/model_forms.py:40-50 | the 'Source' group always, and a 'Backend' group exactly when the backend added fields |
| Forms.DataSourceForm.Save | netbox/core/forms/model_forms.py:73-81 | the source's parameters become the saved parameters of the form's fields; no other field of the source changes |
| Forms.SaveStoresBackendParameters | netbox/core/forms/model_forms.py:65-79 | saving inverts the naming: the stored keys are exactly the backend's parameter names, each with its own field's value |
| Forms.ReopenedFormShowsSavedValues | netbox/core/forms/model_forms.py:65-79 | a form opened again on the saved source shows in every backend field the value just saved |

## Left out

- Backends: `get_backend`, the registry lookup and `backend.fetch()` clone or download the remote data. That is foreign I/O. `Sync` takes the fetched replica as `Option<Replica>`, with None meaning the fetch raised.
- The replica is assumed to be a well-formed directory tree (`Fs.ValidReplica`): every file sits in the root or a listed directory. Symbolic links are not modelled. The root path is assumed non-empty. With an empty root, `os.walk('')` yields nothing, and `os.path.join('', path)` makes `refresh_from_disk` read the path relative to the working directory.
- SHA-256 itself is a parameter `sha` that returns a 64-digit lowercase hex digest. Its internals are not modelled.
- `timezone.now()` is the one parameter `now` of a sync. Every call is taken to return the same instant: `last_updated` of each changed known file (data.py:164, through data.py:310), `last_updated` of each new file (data.py:186, through data.py:310), `created` stamped by `auto_now_add` in `bulk_create` (data.py:189, set in `PrepareNewFile`), and `last_synced` (data.py:194).
- The ORM is modelled as the source's table of rows keyed by path. Querysets, primary keys, `batch_size`, transactions and the database update of `status` at data.py:147 and data.py:195 are not modelled. The in-memory status is modelled.
- `enqueue_sync_job` does not save the source. The model sets only the in-memory status. Creating the `JobResult` is out of scope.
- The `pre_sync` and `post_sync` signals and all logging are not modelled. This includes data.py:177, which logs the number of updated files where it means the deleted ones.
- `get_data` (YAML parsing), `get_absolute_url`, `docs_url` and the colour helpers are presentation only and are not modelled.
- The database driver is taken to return BinaryField data as a `memoryview` (`Data.DataFile.Load`), whose `tobytes()` gives its byte sequence. Which Python type the data has is a flag of the DataFile. The byte values are the same either way.
- Concurrency between the sync job and requests is not modelled.
- `DataSourceForm`: the fields Django builds from `Meta`, custom fields, tags and the `comments` field are names only. Their validation (`cleaned_data`) is a parameter of `Save`, and `super().save()` writing the row is not modelled.
- Forms.DataSourceForm.constructor: assumes the model instance is always present, as Django's model forms create one.
- Forms.SelectBackendType: the type field's default is the local type, and its backend is required to be registered.
- Urls.SchemeOfComposedUrl: follows `urlsplit` as of Python 3.11. Older versions accepted some schemes differently. It inherits the `Urls.UrlScheme` gap for bracketed hosts and NFKC.
- Urls.UrlScheme: models only the unbalanced-bracket `ValueError` of `urlsplit`. Two other checks also raise `ValueError`, and the model gives those URLs a scheme instead. The first is the validation of a bracketed host that later 3.11 releases add: the host must be an IP address or a `v` future address, with nothing before the `[` and only a port after the `]`. The second is the NFKC check of a non-ASCII network location, which needs Unicode normalisation.
- Urls.NoColonNoScheme: same gap as `Urls.UrlScheme`. A colon-free URL such as `//[::1x]` or one with a non-ASCII network location can still raise where the model gives the empty scheme.
- Data.DataSource.UrlScheme: same gap as `Urls.UrlScheme`.
- Data.DataSource.Clean: same gap as `Urls.UrlScheme`. For a local source's URL with a bracketed host, or a non-ASCII network location, `clean()` can raise `ValueError` where the model passes it or rejects it with the `url` error.
- Data.CleanOfLocalSchemeUrl: same gap as `Urls.UrlScheme`. Only the unbalanced-bracket `ValueError` is excluded from the passing case.
- Data.CleanOfLocalBarePath: same gap as `Urls.UrlScheme`. Only the unbalanced-bracket `ValueError` is excluded from the passing case.
- Data.DataSource.WalkDirectory: takes a directory's relative path by removing the root prefix (`Fs.RelativeDir`). This is the corrected form of data.py:208 (see "## Findings"). When the root string occurs again in the directory's path, the code takes a different, shorter path. `SyncSpec.WalkAsWrittenAgrees` proves that the two agree whenever the root does not recur.
- Data.DataSource.Walk: returns the corrected walk `SyncSpec.WalkSpec`, not the code's `SyncSpec.WalkAsWritten`. The two differ only when the root string recurs below the root.
- Data.DataSource.SyncReplica: syncs the corrected walk. The code's walk differs when the root string recurs below the root. It can then name a path the replica does not hold. For such a path, `refresh_from_disk` at data.py:186 raises `FileNotFoundError`, which nothing catches, so the source stays `Syncing` with the bulk update and delete already written. The code can also name a file at the wrong place: that file is synced instead of the one actually walked, which never gets a row. For these inputs the model reports `Synced` with the corrected table (`SyncSpec.AsWrittenWalkNamesMissingFile`). `Data.DataSource.CreateNewFiles` reports a new path that is not a file as `Unopened`, but over the corrected walk that outcome cannot arise.
- Data.DataSource.Sync: same gap as `Data.DataSource.SyncReplica`, where the root string recurs below the root.
- SyncSpec.WalkSpec: is the corrected walk. The walk as written is `SyncSpec.WalkAsWritten`, equal to it whenever the root does not recur (`SyncSpec.WalkAsWrittenAgrees`). The lemmas about `SyncSpec.SyncedTable` describe a sync over the corrected walk.
- SyncSpec.WalkedPathsAreFiles: holds of the corrected walk. With a recurring root, the code's walk can name a path that is not a file (`SyncSpec.AsWrittenWalkNamesMissingFile`).

## Findings

| source | as written | input that shows it | evidently intended | confidence | as-written member | corrected member |
|---|---|---|---|---|---|---|
| netbox/core/models/data.py:208 | the relative directory is `path.split(root)[1].lstrip('/')`, the text between the first and the second occurrence of the root string | root `/data` with only the file `database/f`: `/data/database` splits into `['', '', 'base']`, so the file is walked as `f`; the replica holds no `f`, so `refresh_from_disk` at data.py:186 raises an uncaught `FileNotFoundError` and the source stays `Syncing`. If an `f` does exist, it is synced and `database/f` never is. With root `/d`, the directory `x/dd` is taken as `x` (`Fs.AsWrittenLosesNestedDirectory`) | strip the root prefix only, giving `database` and `x/dd` | medium, not executed | SyncSpec.AsWrittenWalkNamesMissingFile | Fs.RelativeDirOfDirPath |

# Odoo backup to Google Drive, modelled in Dafny

`backup_drive.py` takes a zip backup of an Odoo database over HTTP, uploads
it to a Google Drive folder, and then deletes the oldest entries of the
folder listing beyond `max_backups`. This project models the parts of
`backup_odoo_and_upload_to_drive` that can be stated and proved:

- **Naming** (`naming.dfy`). The `%Y%m%d_%H%M%S` timestamp, the local path
  `/tmp/{db_name}_backup_{timestamp}.zip`, the endpoint
  `{odoo_server}/web/database/backup`, and the remote file name, which is
  `os.path.basename` of the local path.
- **String order** (`string_order.dfy`). Python's `<=` on `str`, which is
  the order the `createdTime` key sorts by.
- **Pruning** (`pruning.dfy`). The guard `len(items) > max_backups`, the
  in-place stable sort `items.sort(key=lambda x: x['createdTime'])`, and
  the slice `items[:-max_backups]`, which holds the entries to delete.
  - The sort is an insertion sort on an `array<Entry>`. It is proved equal
    to the function `SortByTime`.
  - `SortByTime` is proved ordered, a permutation and stable.
  - It is also proved to be the only list with those three properties.
    So it is the list Python's own stable sort produces.
  - `max_backups` is an unbounded `int`, and Python's slice rules are
    modelled for every value.
  - With `max_backups == 0`, `items[:-0]` is `items[:0]`, which is empty.
    The code then deletes nothing and keeps every backup. The model states
    this as the code behaves; it does not model the "keep zero" a reader
    might expect.
- **Phases** (`backup_job.dfy`). Each run issues a trace of events:
  `BackupRequest`, `Authenticate`, `Create`, `List`, `Delete` and
  `RemoveLocal`. The outcome of every external call is an input of type
  `World`.
  - The backup phase returns early on failure. It then removes nothing,
    so a partly written archive stays on disk.
  - In the upload-and-prune block, the first call that raises skips the
    rest of the block.
  - The `finally` clause removes the archive when it exists.

The script's docstring (line 26) describes `max_backups` as the maximum
number of backups to keep in Drive. The code promises less than that, and
the model follows the code:

- Any `int` is accepted as `max_backups`, including zero and negative values.
- A listing longer than N loses `count - N` entries only when N >= 1.
  - With N == 0, `items[:-0]` is empty, so nothing is deleted
    (`ZeroRetentionDeletesNothing`).
  - A negative N deletes the `-N` oldest entries
    (`NegativeRetentionDeletesOldest`).
- The listing is requested with `orderBy='createdTime'`, but the code sorts
  it again locally. The model relies only on the local sort.
- The listing is the single page that one `files().list` call returns
  (lines 73-78). No `nextPageToken` is requested or followed. In a folder
  with more archives than one page holds, only the oldest page is pruned,
  and the folder can keep more than `max_backups` archives.

## Model

| member | source | states |
|---|---|---|
| `StringOrder.StrLe` | backup_drive.py:89 | definition: Python's `<=` on `str`, code point by code point, with a proper prefix first |
| `StringOrder.StrLeRefl` | backup_drive.py:89 | the `createdTime` comparison is reflexive |
| `StringOrder.StrLeTotal` | backup_drive.py:89 | any two `createdTime` strings are comparable |
| `StringOrder.StrLeAntisymmetric` | backup_drive.py:89 | two times each `<=` the other are the same string |
| `StringOrder.StrLeTransitive` | backup_drive.py:89 | the comparison is transitive |
| `Pruning.Insert` | backup_drive.py:89 | definition: stable insertion of the next entry after every entry whose time is not later; the result is one longer |
| `Pruning.SortByTime` | backup_drive.py:89 | definition: the listing as the stable sort by `createdTime` leaves it, built by repeated `Insert`; same length as the listing |
| `Pruning.Prunes` | backup_drive.py:88 | definition: the guard `len(items) > max_backups` |
| `Pruning.SliceStop` | backup_drive.py:90 | definition: Python's clipping of the stop of `s[:stop]`, where a negative stop counts from the end and both ends are clipped; the result is at most the length (`DeleteCount` gives the resulting slice length in closed form) |
| `Pruning.ToDelete` | backup_drive.py:88-90 | definition: when the guard holds, the prefix `items[:-max_backups]` of the sorted listing; otherwise nothing |
| `Pruning.Kept` | backup_drive.py:88-90 | definition: when the guard holds, the rest of the sorted listing; otherwise the listing as it came |
| `Pruning.SortByTimePermutes` | backup_drive.py:89 | sorting only rearranges the listing: same multiset of entries |
| `Pruning.SortByTimeSorted` | backup_drive.py:89 | after the sort, every entry's time is `<=` that of every later entry |
| `Pruning.SortByTimeStable` | backup_drive.py:89 | entries with equal `createdTime` keep their listed order (the sort is stable) |
| `Pruning.SortByTimeIsTheStableSort` | backup_drive.py:89 | any ordered list that keeps each time's entries in listed order equals `SortByTime`, so the model's sort and Python's agree |
| `Pruning.InsertInPlace` | backup_drive.py:89 | one step of the in-place sort: the next entry moves left past every later-timed entry, the rest of the array unchanged |
| `Pruning.SortInPlace` | backup_drive.py:89 | sorting the array in place leaves exactly `SortByTime` of its old contents |
| `Pruning.WithinLimitNothingDeleted` | backup_drive.py:88 | a listing no longer than `max_backups` has nothing deleted and is left as it is |
| `Pruning.DeleteCount` | backup_drive.py:88-90 | the number of deletes for every `max_backups`: `len - N` for N >= 1, none for N == 0 or a short listing, `min(-N, len)` for N < 0 |
| `Pruning.KeptCount` | backup_drive.py:88-90 | for N >= 1, exactly `min(len, N)` entries are kept |
| `Pruning.ZeroRetentionDeletesNothing` | backup_drive.py:88-90 | with `max_backups == 0` nothing is deleted and every entry is kept |
| `Pruning.NegativeRetentionDeletesOldest` | backup_drive.py:88-90 | a negative `max_backups` deletes the `-N` oldest entries, or all of them |
| `Pruning.DeletedThenKeptIsSorted` | backup_drive.py:89-90 | when pruning, the deleted entries followed by the kept ones are the sorted listing: deletes take the oldest prefix |
| `Pruning.PrunePartition` | backup_drive.py:89-90 | deleted plus kept entries are a permutation of the listing: nothing is deleted twice or lost |
| `Pruning.DeletedAreOldest` | backup_drive.py:88-91 | every deleted entry is at least as old as every kept entry |
| `Pruning.DeletesOldestFirstStable` | backup_drive.py:89-91 | deletes are issued oldest first; for each time, deleted-then-kept entries are in listed order |
| `Pruning.SortRestoresCreationOrder` | backup_drive.py:89 | a listing T3, T1, T4, T2 with T1 < T2 < T3 < T4 sorts to T1, T2, T3, T4 |
| `Pruning.FourBackupsKeepTwoNewest` | backup_drive.py:88-91 | with `max_backups == 2` that listing deletes T1 then T2 and keeps T3 and T4 |
| `Naming.BackupFileName` | backup_drive.py:29 | definition: `{db_name}_backup_{timestamp}.zip` |
| `Naming.BackupFilePath` | backup_drive.py:29 | definition: that file name under `/tmp/` |
| `Naming.BackupUrl` | backup_drive.py:30 | definition: `{odoo_server}/web/database/backup` |
| `Naming.BaseName` | backup_drive.py:59 | definition: POSIX `os.path.basename`, the text after the last `/` |
| `Naming.PadDecimal` | backup_drive.py:28 | a zero-padded field has exactly its width in decimal digits |
| `Naming.PadDecimalRoundTrip` | backup_drive.py:28 | reading a padded field back gives the number |
| `Naming.Timestamp` | backup_drive.py:28 | the timestamp is 8 digits, `_`, 6 digits |
| `Naming.TimestampRoundTrip` | backup_drive.py:28 | the timestamp determines the date and time it was made from |
| `Naming.BackupUrlRoundTrip` | backup_drive.py:30 | the backup URL is the server address followed by `/web/database/backup`, and the server can be read back |
| `Naming.BaseNameIsLastComponent` | backup_drive.py:59 | the base name is the longest suffix without `/`: it has no `/`, and a `/` precedes it when it is not the whole path |
| `Naming.BaseNameWithoutSlash` | backup_drive.py:59 | a name without `/` is its own base name |
| `Naming.BaseNameConcat` | backup_drive.py:59 | the base name of `x + y` is that of `y` when `y` has a `/`, else the base name of `x` followed by `y` |
| `Naming.RemoteNameOfPath` | backup_drive.py:59 | the uploaded name is `basename(db_name) + "_backup_" + ts + ".zip"` |
| `Naming.RemoteNameOfPlainPath` | backup_drive.py:59 | for a `db_name` without `/`, the uploaded name is the local path minus `/tmp/` |
| `Naming.TimestampHasNoSlash` | backup_drive.py:28 | a timestamp contains no `/`, so it cannot change the path's base name |
| `Naming.RemoteNameOfRun` | backup_drive.py:28-29 | for a `db_name` without `/`, the name uploaded at time `t` is `{db_name}_backup_{timestamp}.zip` built from that time |
| `Naming.BackupNameRoundTrip` | backup_drive.py:29 | the database name and the time can be read back from the archive's file name |
| `Naming.BackupNamesDistinct` | backup_drive.py:28-29 | runs for different databases or at different seconds produce different file names |
| `BackupJob.Attempted` | backup_drive.py:90-91 | definition: how many deletes are issued when the one at position f raises: f + 1, the raising one included, or all of them when f is past the end; never more than all |
| `BackupJob.Ids` | backup_drive.py:91 | the ids of a list of entries, position by position |
| `BackupJob.DriveCalls` | backup_drive.py:55-94 | definition: authenticate, create, list and the attempted deletes, cut after the first call that raises |
| `BackupJob.DeleteCalls` | backup_drive.py:91 | one delete per entry, by id, in the entries' order |
| `BackupJob.IssueDeletes` | backup_drive.py:90-92 | the delete loop issues the deletes in order up to and including the first that raises, and reports whether all succeeded |
| `BackupJob.PruneFolder` | backup_drive.py:88-92 | guard, in-place sort and slice issue deletes for a prefix of `ToDelete`, stopping at the first failure |
| `BackupJob.UploadAndPrune` | backup_drive.py:55-94 | the upload block issues authenticate, create, list and deletes in that order and stops at the first call that raises |
| `BackupJob.Run` | backup_drive.py:28-99 | a failed backup issues only the POST and removes nothing, so a partial file is left; a saved backup runs the upload block and then removes the archive |
| `BackupJob.DeleteCallsContents` | backup_drive.py:90-91 | the delete calls upload nothing and delete exactly the given ids |
| `BackupJob.DriveCallsStopAtFirstFailure` | backup_drive.py:55-94 | exactly one create call, possibly failing, when authentication succeeds, and none otherwise; nothing after a failed create; no delete after a failed listing |
| `BackupJob.DriveCallsDeletes` | backup_drive.py:88-94 | the ids deleted are the oldest entries, oldest first, up to the first failing delete; all of `ToDelete` when none fails |
| `BackupJob.SuccessfulRunSummary` | backup_drive.py:55-99 | a fully successful run with N >= 1 uploads once and deletes exactly the `len - N` oldest entries |

## Left out

- The HTTP POST, response streaming and 8192-byte chunk writes (lines 34-47) are network and file I/O. They are reduced to a `BackupOutcome`: saved, failed before `open`, or failed while writing.
- Google authentication, the `credentials.json` path join and the Drive client (`authenticate_gdrive_service_account`, `build`, `MediaFileUpload`, `files().create/list/delete`) are foreign library calls. Each is an event with an outcome given by `World`. A `MediaFileUpload` failure counts as a failed create.
- The query string, `spaces`, `fields`, mimetype and server-side `orderBy` of the list call (lines 73-78) are evaluated by the server. The listing is an input: the single page `files().list` returns. `nextPageToken` is ignored, so that page may hold only part of the folder's archives, and nothing is stated about the archives outside it.
- The Drive folder's contents are not modelled across runs, because the listing is an input. So nothing is stated about what a second run finds after a first one.
- `datetime.now()` is a `DateTime` parameter, and file existence is a boolean. `os.remove` is assumed to succeed. An exception it raised would escape the function.
- `Naming.Timestamp`: years before 1000 are printed with four digits. `%Y` there depends on the C library's `strftime`.
- A listing entry without `name`, `createdTime` or `id` would raise a `KeyError` at line 85, 89, 91 or 92, which is caught at line 94. Drive returns these fields when `fields` asks for them, and the model's `Entry` always has all three.
- Exceptions outside `Exception` (for example `KeyboardInterrupt`) and concurrent runs against one folder are not modelled.
- All `print` output (lines 49, 51, 70, 83-85, 92, 95) and the hard-coded configuration under `__main__` (lines 101-116) are left out.
- Python's sort algorithm (Timsort) is not modelled. An insertion sort takes its place. `SortByTimeIsTheStableSort` shows that every stable sort gives the same list.

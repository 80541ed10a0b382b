# Duplicate file removal, modelled in Dafny

DuplicateFileRemovalTool finds duplicate files under a directory and deletes
the younger copies. It comes in two versions that share one idea:

1. list every file under the chosen path;
2. build a table of `file_path`, `file_size`, `create_date` and
   `modify_date`, skipping directories and empty files;
3. keep the rows whose size occurs more than once;
4. hash those files with md5 and keep the rows whose digest occurs more
   than once;
5. sort by (`create_date`, `modify_date`) and mark each row whose digest
   already appeared earlier as a duplicate (`duplicated(keep="first")`);
6. delete the marked rows.

The **library version** (`DuplicateFileRemoval.run`, module `RemovalTool`):
- lists files with `ScanFiles` (an `os.scandir` walk);
- builds the table in one piece for at most 32 paths, and otherwise in
  `np.array_split` chunks;
- handles each shared size group through `remove_duplicate_files_by_md5`;
- moves files to the trash with `send2trash`, and `move_to_trash` swallows
  its errors.

The **GUI version** (`WorkerThread.run`, module `GuiWorker`):
- lists files with `glob(path + '/**', recursive=True)`;
- always splits the list into chunks;
- works on the whole table at once;
- deletes with `os.remove`, where the first failure aborts the run;
- can be stopped by `stop()`, which clears a flag that `run` checks at five
  points.

Modelling choices:
- **The file system** is a tree of `FileTree.Node` values: files with
  bytes, integer times and a readable flag; directories with a listable flag.
  Deletions are recorded in a `FileTree.Deletions` object. Its
  `SendToTrash` and `Remove` may fail, and the boolean they return is the
  environment's choice. The tree itself is not changed by deleting. Every
  library method that may call send2trash states, with
  `FileTree.TrashFollows`, that the trash keeps what it held and gains only a
  subsequence of the paths requested during the call (`Sequences.Subsequence`).
- **Distinct names.** `FileTree.WellFormed` says that the entries of every
  directory have distinct names, as on any real file system. `Node` does not
  build it in. The lemmas that say a kept copy survives assume it: on a tree
  with two entries of the same name, a listing names one file twice, and
  both of its rows are then the same file. From that assumption the model
  proves that both listings hold distinct paths (`Listing.ScanAtDistinct`,
  `Listing.GlobAtDistinct`). It follows that every table built from them has
  one row per path (`Sequences.UniqueIds` over `Records.PathKey`).
- **md5** is a function parameter `md5: Content -> Digest`. Because of that,
  "same digest" is not claimed to mean "same bytes".
- **The CPU count** is a parameter `cpu`. Where `stop()` arrives is a
  parameter `stopAt`: a value from 1 to 5 means the call lands just before
  the checkpoint at `tools/gui/MainForm.py` lines 66, 86, 100, 117 or 128;
  any other value means it never lands.
- **pandas** operations are functions on sequences of rows, in module
  `Grouping`:
  - `groupby` yields groups in ascending key order;
  - `filter(len > 1)` keeps the rows of shared keys in table order;
  - `duplicated(keep="first")` flags every row whose key occurred earlier;
  - `sort_values` is a stable sort (module `Ordering`).
  - The `pd.concat` of a generator that yields nothing raises. The GUI
    relies on that at lines 97 and 111.
- **`remove_duplicate_files_by_md5` is modelled as written.** The `return`
  sits inside its `for` loop (line 50), so each size group moves only the
  group of its smallest shared digest to the trash. Another shared digest
  of the same size keeps all its copies (`Md5RemovalFirstGroup`).
- **Ways each version can end:**
  - both raise `FileNotFoundError` when the listing is empty;
  - a missing path makes `os.path.getsize` raise, and a file that cannot
    be opened makes `calc_md5` raise. In the library version the
    size-group loop stops at the first such failure.
  - In the GUI, the "no duplicate file" log lines at 93-95 and 107-109
    almost never fire:
    - `groupby` has no groups only when the table is empty;
    - after that, a table without a shared size or digest makes `pd.concat`
      raise instead (`LogOnlyEndings`, `UniqueRowsRaise`).

Every method is proved against a function of its inputs:
- `ScanAt` and `GlobAt` for the listings;
- `Collect` for `collect_file_info`;
- `GroupRemoval` and `SweepGroups` for the library loop;
- `ToolPlan` for the library `run`;
- `WorkerPlan` for the GUI `run`.

Lemmas then prove what those functions mean: which paths each listing
yields, which rows the table holds, which files are deleted, that a copy of
every duplicated digest is kept and is no younger than the deleted ones, and
the counts the log reports.

## Model

| member | source | states |
|---|---|---|
| FileTree.Deletions.SendToTrash | src/tools/utils/duplicate_file_removal_tool.py:23-27 | every call is recorded as a trash request; the file is trashed only when the call succeeds; nothing is removed |
| FileTree.Deletions.Remove | tools/gui/MainForm.py:132 | the path is added to the removed files exactly when os.remove succeeds; the trash is untouched |
| RemovalTool.MoveToTrash | src/tools/utils/duplicate_file_removal_tool.py:23-27 | move_to_trash always returns normally: a failing send2trash is swallowed, the request is recorded, and the trash keeps its old contents and gains the path or nothing |
| Listing.ScanFiles.constructor | src/tools/utils/duplicate_file_removal_tool.py:79-82 | ScanFiles(path).file_list is the walk of the entry at path, and empty when path does not exist |
| Listing.ScanFiles.Scan | src/tools/utils/duplicate_file_removal_tool.py:84-92 | scan(dir) appends, in directory order, the paths of the walk below dir: it descends into directories not named '.…' or '$…' and lists every other entry itself; an unlistable directory adds nothing |
| Listing.ScanListMeaning | src/tools/utils/duplicate_file_removal_tool.py:84-92 | a path is in the walk iff it lies below the directory and is reached through listable, non-hidden directories, ending at an entry scan does not descend into |
| Listing.ScannedSkipsHidden | src/tools/utils/duplicate_file_removal_tool.py:87 | no listed path passes through a directory whose name starts with '.' or '$' |
| Listing.ScanListsEntry | src/tools/utils/duplicate_file_removal_tool.py:87-90 | every entry of a listable directory that scan does not descend into, a hidden directory included, is listed |
| Listing.GlobListMeaning | tools/gui/MainForm.py:60 | the recursive glob yields below the directory exactly the paths reached through listable directories by names that do not start with '.' |
| Listing.GlobbedHidesDotNames | tools/gui/MainForm.py:60 | no name on a path the glob yields below the directory starts with '.' |
| Listing.ScanAtDistinct | src/tools/utils/duplicate_file_removal_tool.py:84-92 | on a disk whose directories hold distinct names, ScanFiles lists no path twice |
| Listing.GlobAtDistinct | tools/gui/MainForm.py:60 | on such a disk, the recursive glob yields no path twice |
| Records.CollectFileInfo | src/tools/utils/duplicate_file_removal_tool.py:55-76 | the loop of collect_file_info computes the table Collect defines, or the first exception |
| Records.CollectRows | tools/gui/MainForm.py:21-42 | collect_file_info succeeds iff every path exists; its rows are then exactly the non-empty regular files, in list order, each with its file's size and times |
| Records.CollectOnePerPath | tools/gui/MainForm.py:21-42 | given distinct paths, collect_file_info builds a table in which no two rows have the same file_path |
| Records.CollectError | src/tools/utils/duplicate_file_removal_tool.py:60 | when collect_file_info raises, the error names the first path that does not exist |
| Records.CollectAppend | src/tools/utils/duplicate_file_removal_tool.py:118-123 | collecting a list in two parts and concatenating the tables gives the table of the whole list, or the first part's exception first |
| Records.CollectStopsAtError | tools/gui/MainForm.py:24-26 | once a prefix of the list raises, the whole list raises the same error |
| Records.HashAllMeaning | tools/gui/MainForm.py:104 | the md5 column is computed iff every file can be opened; each row then gets the digest of its own file's bytes, in table order |
| Records.HashAllOnePerPath | tools/gui/MainForm.py:104 | adding the md5 column keeps one row per file_path |
| Records.HashAllError | src/tools/utils/duplicate_file_removal_tool.py:34 | when hashing raises, it is for the first row whose file cannot be opened |
| Chunks.UsableCpus | src/tools/utils/duplicate_file_removal_tool.py:115 | the usable CPU count is at least 1 and at least cpu_count() - 2, and equals one of the two: their maximum |
| Chunks.Workers | tools/gui/MainForm.py:71-75 | one worker for at most 32 paths; otherwise min(usable CPUs, paths), so never more workers than paths or usable CPUs |
| Chunks.ArraySplit | tools/gui/MainForm.py:77 | np.array_split yields exactly the requested number of chunks, and they concatenate back to the list |
| Chunks.ChunkSizes | src/tools/utils/duplicate_file_removal_tool.py:118 | chunk i has n / k elements, plus one for the first n % k chunks |
| Chunks.CollectInChunks | tools/gui/MainForm.py:79-82 | collecting chunk by chunk and concatenating in chunk order gives the table or exception of collecting the whole list |
| Grouping.GroupByGroups | src/tools/utils/duplicate_file_removal_tool.py:140 | each group of groupby is non-empty and is exactly the rows with its key, in table order |
| Grouping.GroupByAscending | src/tools/utils/duplicate_file_removal_tool.py:140-144 | groupby yields its groups in strictly ascending key order |
| Grouping.GroupByCovers | tools/gui/MainForm.py:91-92 | there is one group per distinct key, and the groups together hold every row |
| Grouping.KeepSharedMembers | src/tools/utils/duplicate_file_removal_tool.py:130 | filter(len(group) > 1) keeps a row iff its key occurs more than once |
| Grouping.KeepSharedExact | src/tools/utils/duplicate_file_removal_tool.py:35 | after the filter, the rows with a key are all rows with that key if it was shared, and none otherwise |
| Grouping.KeepSharedEmpty | src/tools/utils/duplicate_file_removal_tool.py:36-39 | the filter leaves nothing iff every key occurs at most once |
| Grouping.SharedGroupsAreKeepShared | tools/gui/MainForm.py:97 | concatenating the groups longer than one holds the same rows as the filter |
| Grouping.SharedGroupCount | tools/gui/MainForm.py:97 | the number of groups longer than one is the number of shared keys |
| Grouping.SharedGroupsEmpty | tools/gui/MainForm.py:97 | the generator yields nothing iff no key is shared |
| Grouping.Duplicated | tools/gui/MainForm.py:121 | duplicated(keep="first") flags a row iff an earlier row has the same key |
| Grouping.KeepFirst | tools/gui/MainForm.py:121-124 | each flagged row has an earlier unflagged row with its key; unflagged rows have distinct keys; marked rows number rows minus distinct keys |
| Grouping.MarkedOneKey | src/tools/utils/duplicate_file_removal_tool.py:46-47 | on a group with a single key, the duplicates are all rows but the first |
| Ordering.SortByTimeSorts | tools/gui/MainForm.py:112 | sort_values by (create_date, modify_date) yields an ascending permutation of the rows |
| Ordering.SortByTimeStable | src/tools/utils/duplicate_file_removal_tool.py:45 | rows with equal times keep their relative order |
| RemovalTool.Md5RemovalEmpty | src/tools/utils/duplicate_file_removal_tool.py:34-39 | a size group moves nothing to the trash iff no two of its rows share a digest |
| RemovalTool.Md5RemovalFirstGroup | src/tools/utils/duplicate_file_removal_tool.py:41-50 | otherwise only the group of the smallest shared digest d is handled: its rows sorted by time less the first go to the trash, their number is the group's size less one, and the kept row is no younger than any trashed row |
| RemovalTool.Md5RemovalRows | src/tools/utils/duplicate_file_removal_tool.py:43-48 | every trashed row belongs to the size group and has a shared digest. The row kept of that digest is a row of the group with the same digest and is no younger. When no two rows share a file_path, the kept row's file is not among those trashed |
| RemovalTool.GroupKeeper | src/tools/utils/duplicate_file_removal_tool.py:45-47 | the first row in time order of a digest's rows is a row of the group with that digest. With one row per file_path, no later row has its file |
| RemovalTool.TrashAll | src/tools/utils/duplicate_file_removal_tool.py:48 | apply(move_to_trash) requests the trash for every path of the column, in order; the trash keeps its old contents and gains a subsequence of those paths |
| RemovalTool.RemoveDuplicateFilesByMd5 | src/tools/utils/duplicate_file_removal_tool.py:30-50 | a hashing failure raises before any trash request and leaves the trash as it was; otherwise the selected rows are requested in order, their number is returned, and the trash gains a subsequence of their paths |
| RemovalTool.OutcomesMeaning | src/tools/utils/duplicate_file_removal_tool.py:144-145 | the k-th round of the loop is remove_duplicate_files_by_md5 on the k-th size group |
| RemovalTool.SweepStops | src/tools/utils/duplicate_file_removal_tool.py:144-145 | once a group raises, the loop's requests and result are those at that point |
| RemovalTool.SweepCount | src/tools/utils/duplicate_file_removal_tool.py:142-145 | when the loop finishes, the summed count equals the number of trash requests made |
| RemovalTool.TallyRequests | src/tools/utils/duplicate_file_removal_tool.py:144-145 | every trash request of the loop comes from the selection of one round |
| RemovalTool.SweepLoop | src/tools/utils/duplicate_file_removal_tool.py:142-145 | the loop over the size groups makes exactly the requests and returns exactly the result its rounds define; the trash gains a subsequence of those requests |
| RemovalTool.SweepSizeGroups | src/tools/utils/duplicate_file_removal_tool.py:140-145 | the loop over the size groups, stated against SweepGroups |
| RemovalTool.DuplicateFileRemoval.constructor | src/tools/utils/duplicate_file_removal_tool.py:96-98 | stores the path |
| RemovalTool.DuplicateFileRemoval.Run | src/tools/utils/duplicate_file_removal_tool.py:100-147 | run ends as ToolPlan says and makes exactly its trash requests, whichever table-building branch it takes; the trash keeps its old contents and gains only a subsequence of those requests |
| RemovalTool.HashedGroups | src/tools/utils/duplicate_file_removal_tool.py:130-140 | each visited size group has more than one row and is every row of that size; with no shared size, run requests nothing and logs the total |
| RemovalTool.ToolPlanCount | src/tools/utils/duplicate_file_removal_tool.py:142-147 | the logged removal count equals the number of trash requests |
| RemovalTool.KeptFileNotRequested | src/tools/utils/duplicate_file_removal_tool.py:140-145 | when no two rows share a file_path, a file that one size group keeps is requested by no size group of the loop |
| RemovalTool.SweepTrashesYoungerCopies | src/tools/utils/duplicate_file_removal_tool.py:140-145 | every path the loop requests is a row of a visited size group, with a digest shared in that group, and no older than the kept row with that digest. When no two rows share a file_path, the loop never requests the kept row's file |
| RemovalTool.ToolTrashesYoungerCopies | src/tools/utils/duplicate_file_removal_tool.py:107-145 | every path run asks send2trash to move is a row of the table, in a visited size group, with a digest shared in that group. It is no older than the kept row with that digest, which is a row of the same group. On a disk whose directories hold distinct names, run never asks to move the kept row's file |
| RemovalTool.TrashedAreYoungerCopies | src/tools/utils/duplicate_file_removal_tool.py:23-27 | every path run actually moves to the trash is one of its requests, and so is such a younger copy. On a disk whose directories hold distinct names, the kept copy is not among the files run moved |
| GuiWorker.RemoveFiles | tools/gui/MainForm.py:132 | apply(os.remove) removes the paths in order, stopping at the first failure, and the trash is untouched |
| GuiWorker.WorkerThread.constructor | tools/gui/MainForm.py:46-49 | stores the path and sets the flag |
| GuiWorker.WorkerThread.Stop | tools/gui/MainForm.py:140-141 | clears the flag and changes nothing else |
| GuiWorker.WorkerThread.Run | tools/gui/MainForm.py:51-138 | run ends as WorkerPlan says and removes exactly its files, unless an os.remove fails, when the files before it are removed and run raises; the flag stays set unless run stopped |
| GuiWorker.WorkerThread.Analyse | tools/gui/MainForm.py:86-132 | the stages after the table is built, against AnalysisPlan |
| GuiWorker.Md5SortedRows | tools/gui/MainForm.py:111-112 | the sorted table is in time order and holds exactly the rows whose digest is shared, with the same digests |
| GuiWorker.RemovalKeepsOldest | tools/gui/MainForm.py:121-124 | every row marked for removal has an earlier, no younger, unmarked row with its digest; unmarked rows have distinct digests |
| GuiWorker.EveryDigestKept | tools/gui/MainForm.py:121-124 | every shared digest keeps one unmarked row |
| GuiWorker.RemovalCount | tools/gui/MainForm.py:115-127 | rows removed equal duplicate rows less distinct shared digests |
| GuiWorker.SummaryCounts | tools/gui/MainForm.py:83-138 | each count in the final log line is the number it names (rows, size groups, shared-size rows, md5 groups, shared-digest rows, removals), and the removal count is the number of files deleted |
| GuiWorker.LogOnlyEndings | tools/gui/MainForm.py:91-111 | run logs "no duplicate file (file size)" iff the table is empty and it was not stopped, and never logs "no duplicate file (md5)" |
| GuiWorker.UniqueRowsRaise | tools/gui/MainForm.py:97-111 | a table without a shared size, or whose hashed rows share no digest, makes pd.concat raise and deletes nothing |
| GuiWorker.StopPreventsRemoval | tools/gui/MainForm.py:66-130 | a stop before any checkpoint deletes nothing; a stopped run reports the checkpoint it stopped at |
| GuiWorker.HashedFromTable | tools/gui/MainForm.py:97-104 | every hashed row is a table row whose size is shared |
| GuiWorker.RemovedRows | tools/gui/MainForm.py:111-124 | every removed row was hashed, has a shared digest, and an unmarked, no younger row with its digest |
| GuiWorker.Md5SortedOnePerPath | tools/gui/MainForm.py:97-112 | when no two rows of the table share a file_path, the same holds for the hashed table and for the sorted md5 table |
| GuiWorker.UnflaggedNotRemoved | tools/gui/MainForm.py:121-132 | with one row per file_path, the file of a row that duplicated() leaves unmarked is not among the removed paths |
| GuiWorker.RemovedAreYoungerCopies | tools/gui/MainForm.py:51-132 | when run finishes, it deletes exactly the marked rows. Each is a non-empty regular file from the listing, with a shared size and digest, and has a kept copy no younger than itself. On a disk whose directories hold distinct names, that copy's file is not deleted |

## Left out

- The Qt window (`MainForm`, `Stream`, the log widget) and the ctypes thread kill are not part of this model. They are user interface and foreign calls.
- Concurrency is left out. `Pool.imap` runs the chunks in worker processes; the model collects them one after another in chunk order, which is the order `imap` returns. `tqdm` progress bars are not modelled.
- `stop()` is modelled only as arriving just before one of the five checkpoints. A call before `run` starts is overwritten by line 53, and a call after the last checkpoint has no effect, so neither changes what happens.
- `Thread.start` is left out: `run` is called directly.
- md5 is an abstract function of a file's bytes, and hashlib is not modelled. The digest is a number below 2^128 instead of a 32-character lowercase hex string. Both sort in the same order, so groupby's order is unchanged.
- Times are integers, not floats.
- Logging is left out apart from which ending is reached.
- The file system changes only through `Deletions`, which records requests. Deleting a file does not remove it from the tree. A run hashes each size group before it deletes anything from that group, and different size groups hold different rows.
- `move_to_trash` replaces '/' with '\\' before calling send2trash. The model records the path unchanged.
- The model follows Python 3.11 or later: there, `glob(p + '/**', recursive=True)` yields nothing when `p` is not a directory (`GlobAt`). Other Python versions' glob behaviour is not modelled.
- The model follows pandas before 2.0, which still has `DataFrame.append`. The source calls it at `src/tools/utils/duplicate_file_removal_tool.py` line 68 and `tools/gui/MainForm.py` line 34. pandas 2.0 removed it, so with pandas 2.0 or later those lines raise `AttributeError`, which the model does not capture.
- Symbolic links are not modelled.
- A disk with two entries of the same name in one directory cannot exist on a real file system. For such a tree the survivor lemmas (`RemovalTool.ToolTrashesYoungerCopies`, `RemovalTool.TrashedAreYoungerCopies`, `GuiWorker.RemovedAreYoungerCopies`) promise only that a kept row exists, not that its file stays.
- GlobAt assumes the chosen path contains no glob pattern characters. `tools/gui/MainForm.py` line 60 passes the path to glob without `glob.escape`, so a directory name with `*`, `?` or `[...]` would be read as a pattern. It could then match other directories, or none, which raises `FileNotFoundError` at lines 61-62.
- An `os.scandir` error partway through a directory is not modelled. A directory either lists completely or not at all.
- `pandas` in-place updates (`inplace=True`, new columns) are modelled as new values.
- DataFrame indices are not modelled. `duplicated` and boolean selection depend only on row order.
- `calc_md5` in `tools/gui/utils.py` is modelled by the same abstract digest.
- `main.py` (both copies) and `src/tools/gui/MainForm.py` are not part of this model. They are entry points and a second copy of the window.

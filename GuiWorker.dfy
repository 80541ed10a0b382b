/**
  The GUI version of the tool (tools/gui/MainForm.py): WorkerThread.run lists
  the chosen directory with glob, collects the table in chunks, keeps the rows
  whose size occurs more than once, hashes them, keeps the rows whose digest
  occurs more than once, sorts those by (create_date, modify_date) and deletes
  every row after the first of its digest with os.remove.

  Between the stages, run looks at thread_flag, which stop() clears from the
  GUI thread. The model fixes where that call falls with the parameter
  `stopAt`: stop() arrives just before checkpoint stopAt (1 to 5, in the order
  the checks appear in run); any other value means it does not arrive while run
  is working.

  Both pd.concat calls are given a generator of the groups with more than one
  row; when there is none, pd.concat raises, so run ends with an exception
  rather than with the "no duplicate file" message, and that is what the model
  does.
 */
module GuiWorker {
  import opened Wrappers
  import opened Sequences
  import opened FileTree
  import opened Grouping
  import opened Records
  import opened Ordering
  import opened Chunks
  import opened Listing

  /** The counts run logs when it finishes. */
  datatype Summary = Summary(
    total: nat,           // Total File
    sizeGroups: nat,      // Duplicate Files(File Size), first number: distinct sizes
    sizeDuplicates: nat,  // Duplicate Files(File Size), second number: rows whose size is shared
    md5Groups: nat,       // Duplicate Files(MD5), first number: distinct digests among those rows
    md5Duplicates: nat,   // Duplicate Files(MD5), second number: rows whose digest is shared
    removals: nat)        // Removal Files Count

  /** How run ends. */
  datatype WorkerEnd =
    | Raised(error: Error)     // an exception left run
    | Stopped(checkpoint: nat) // thread_flag was found cleared at this checkpoint
    | NoSizeGroups(total: nat) // 'no duplicate file (file size) exists'
    | NoMd5Groups              // 'no duplicate file (md5) exists'
    | Finished(summary: Summary)

  /** How run ends if every os.remove succeeds, and the paths it removes, in order. */
  datatype Plan = Plan(end: WorkerEnd, removals: seq<Path>)

  /** duplicate_md5_df after sort_values: the rows whose digest is shared, oldest first. */
  function Md5Sorted(hashed: seq<HashedRecord>): seq<HashedRecord>
  {
    SortByTime(Concat(SharedGroups(GroupBy(hashed, Md5Key))))
  }

  /** removal_files_df: the rows duplicated(["md5"], keep="first") flags. */
  function Removal(sorted: seq<HashedRecord>): seq<HashedRecord>
  {
    Marked(sorted, Duplicated(sorted, Md5Key))
  }

  /** The stages of run after the table has been collected. */
  function AnalysisPlan(disk: Node, md5: Content -> Digest, rows: seq<FileRecord>, stopAt: nat): Plan
  {
    if stopAt == 2 then Plan(Stopped(2), [])
    else if |GroupBy(rows, SizeKey)| == 0 then Plan(NoSizeGroups(|rows|), [])
    else if SharedGroups(GroupBy(rows, SizeKey)) == [] then Plan(Raised(NothingToConcatenate), [])
    else if stopAt == 3 then Plan(Stopped(3), [])
    else HashedPlan(disk, md5, rows, Concat(SharedGroups(GroupBy(rows, SizeKey))), stopAt)
  }

  /** The stages of run from hashing the rows of shared size, sizeDup, on. */
  function HashedPlan(disk: Node, md5: Content -> Digest, rows: seq<FileRecord>, sizeDup: seq<FileRecord>, stopAt: nat): Plan
  {
    match HashAll(disk, md5, sizeDup)
    case Err(e) => Plan(Raised(e), [])
    case Ok(hashed) =>
      if |GroupBy(hashed, Md5Key)| == 0 then Plan(NoMd5Groups, [])
      else if SharedGroups(GroupBy(hashed, Md5Key)) == [] then Plan(Raised(NothingToConcatenate), [])
      else if stopAt == 4 then Plan(Stopped(4), [])
      else if stopAt == 5 then Plan(Stopped(5), [])
      else
        var removal := Removal(Md5Sorted(hashed));
        Plan(Finished(Summary(|rows|, |GroupBy(rows, SizeKey)|, |sizeDup|, |GroupBy(hashed, Md5Key)|,
                              |Md5Sorted(hashed)|, |removal|)),
             HashedPaths(removal))
  }

  /** What WorkerThread(path).run() does when stop() arrives just before checkpoint stopAt. */
  function WorkerPlan(disk: Node, path: Path, md5: Content -> Digest, stopAt: nat): Plan
  {
    var files := GlobAt(disk, path);
    if |files| == 0 then Plan(Raised(NoFilesFound(path)), [])
    else if stopAt == 1 then Plan(Stopped(1), [])
    else
      match Collect(disk, files)
      case Err(e) => Plan(Raised(e), [])
      case Ok(rows) => AnalysisPlan(disk, md5, rows, stopAt)
  }

  /**
    removal_files_df['file_path'].apply(lambda file: os.remove(file)): removes
    the rows' files in order; the first os.remove that raises ends the loop and
    is reported as the index of its row.
   */
  method RemoveFiles(rows: seq<HashedRecord>, del: Deletions) returns (failed: Option<nat>)
    modifies del
    ensures failed.None? ==> del.removed == old(del.removed) + HashedPaths(rows)
    ensures failed.Some? ==>
              failed.value < |rows| && del.removed == old(del.removed) + HashedPaths(rows[..failed.value])
    ensures del.trashRequests == old(del.trashRequests) && del.trashed == old(del.trashed)
  {
    var i := 0;
    while i < |rows|
      invariant 0 <= i <= |rows|
      invariant del.removed == old(del.removed) + HashedPaths(rows[..i])
      invariant del.trashRequests == old(del.trashRequests) && del.trashed == old(del.trashed)
    {
      var ok := del.Remove(rows[i].file.path);
      if !ok {
        return Some(i);
      }
      assert rows[..i + 1] == rows[..i] + [rows[i]];
      HashedPathsSnoc(rows[..i], rows[i]);
      i := i + 1;
    }
    assert rows[..i] == rows;
    return None;
  }

  /** The worker thread of the GUI version. */
  class WorkerThread {
    var path: Path
    var threadFlag: bool

    constructor (path: Path)
      ensures this.path == path && threadFlag
    {
      this.path := path;
      threadFlag := true;
    }

    /** stop(): asks run to end at its next checkpoint. */
    method Stop()
      modifies this
      ensures !threadFlag && path == old(path)
    {
      threadFlag := false;
    }

    /**
      run() on a machine with `cpu` CPUs. It ends as the plan says, having
      removed the plan's files, unless an os.remove raises: then it has removed
      the files before that one and raises RemoveFailed for it. It deletes
      nothing unless it gets past every checkpoint, and sends nothing to the
      trash. thread_flag is left cleared exactly when run stopped at a checkpoint.
     */
    method Run(disk: Node, md5: Content -> Digest, cpu: nat, stopAt: nat, del: Deletions) returns (end: WorkerEnd)
      modifies this, del
      ensures path == old(path)
      ensures var plan := WorkerPlan(disk, path, md5, stopAt);
              if plan.end.Finished? then
                || (end == plan.end && del.removed == old(del.removed) + plan.removals)
                || (exists i :: 0 <= i < |plan.removals| &&
                      end == Raised(RemoveFailed(plan.removals[i])) &&
                      del.removed == old(del.removed) + plan.removals[..i])
              else end == plan.end && del.removed == old(del.removed)
      ensures threadFlag <==> !end.Stopped?
      ensures del.trashRequests == old(del.trashRequests) && del.trashed == old(del.trashed)
    {
      threadFlag := true;
      var files := GlobAt(disk, path);
      if |files| == 0 {
        return Raised(NoFilesFound(path));
      }
      if stopAt == 1 {
        Stop();
      }
      if !threadFlag {
        return Stopped(1);
      }
      var chunks := ArraySplit(files, Workers(|files|, cpu));
      var collected := CollectInChunks(disk, chunks);
      if collected.Err? {
        return Raised(collected.error);
      }
      end := Analyse(disk, md5, collected.value, stopAt, del);
    }

    /** run() after the table has been collected. */
    method Analyse(disk: Node, md5: Content -> Digest, rows: seq<FileRecord>, stopAt: nat, del: Deletions)
      returns (end: WorkerEnd)
      requires threadFlag
      modifies this, del
      ensures path == old(path)
      ensures var plan := AnalysisPlan(disk, md5, rows, stopAt);
              if plan.end.Finished? then
                || (end == plan.end && del.removed == old(del.removed) + plan.removals)
                || (exists i :: 0 <= i < |plan.removals| &&
                      end == Raised(RemoveFailed(plan.removals[i])) &&
                      del.removed == old(del.removed) + plan.removals[..i])
              else end == plan.end && del.removed == old(del.removed)
      ensures threadFlag <==> !end.Stopped?
      ensures del.trashRequests == old(del.trashRequests) && del.trashed == old(del.trashed)
    {
      if stopAt == 2 {
        Stop();
      }
      if !threadFlag {
        return Stopped(2);
      }
      var sizeGroups := GroupBy(rows, SizeKey);
      if |sizeGroups| == 0 {
        return NoSizeGroups(|rows|);
      }
      if SharedGroups(sizeGroups) == [] {
        return Raised(NothingToConcatenate);
      }
      var sizeDup := Concat(SharedGroups(sizeGroups));
      if stopAt == 3 {
        Stop();
      }
      if !threadFlag {
        return Stopped(3);
      }
      var hashed := HashAll(disk, md5, sizeDup);
      if hashed.Err? {
        return Raised(hashed.error);
      }
      var md5Groups := GroupBy(hashed.value, Md5Key);
      if |md5Groups| == 0 {
        return NoMd5Groups;
      }
      if SharedGroups(md5Groups) == [] {
        return Raised(NothingToConcatenate);
      }
      var sorted := Md5Sorted(hashed.value);
      if stopAt == 4 {
        Stop();
      }
      if !threadFlag {
        return Stopped(4);
      }
      var removal := Removal(sorted);
      if stopAt == 5 {
        Stop();
      }
      if !threadFlag {
        return Stopped(5);
      }
      var failed := RemoveFiles(removal, del);
      if failed.Some? {
        HashedPathsAt(removal);
        assert HashedPaths(removal[..failed.value]) == HashedPaths(removal)[..failed.value] by {
          HashedPathsAt(removal[..failed.value]);
        }
        return Raised(RemoveFailed(removal[failed.value].file.path));
      }
      return Finished(Summary(|rows|, |sizeGroups|, |sizeDup|, |md5Groups|, |sorted|, |removal|));
    }
  }

  // ---------------------------------------------------------------------------
  // What run promises

  /**
    The rows that go into the sort are exactly the rows whose digest occurs
    more than once, and they come out oldest first.
   */
  lemma Md5SortedRows(hashed: seq<HashedRecord>)
    ensures var sorted := Md5Sorted(hashed);
            && Sorted(sorted)
            && multiset(sorted) == multiset(KeepShared(hashed, Md5Key))
            && (forall x :: x in sorted <==> x in hashed && |WithKey(hashed, Md5Key, x.md5)| > 1)
            && KeySet(sorted, Md5Key) == SharedKeys(hashed, Md5Key)
  {
    var sorted := Md5Sorted(hashed);
    SortByTimeSorts(Concat(SharedGroups(GroupBy(hashed, Md5Key))));
    SharedGroupsAreKeepShared(hashed, Md5Key);
    KeepSharedMembers(hashed, Md5Key);
    forall x ensures x in sorted <==> x in KeepShared(hashed, Md5Key) {
      assert x in sorted <==> x in multiset(sorted);
    }
    KeySetPermutation(sorted, KeepShared(hashed, Md5Key), Md5Key);
    KeepSharedKeys(hashed, Md5Key);
  }

  /**
    Of each digest at most one row is kept, and the kept one is the oldest:
    every flagged row has an earlier, unflagged row with the same digest that
    is no younger, and no two unflagged rows share a digest.
   */
  lemma RemovalKeepsOldest(hashed: seq<HashedRecord>)
    ensures var sorted := Md5Sorted(hashed);
            var d := Duplicated(sorted, Md5Key);
            && (forall i :: 0 <= i < |sorted| && d[i] ==>
                  exists j :: 0 <= j < i && !d[j] && sorted[j].md5 == sorted[i].md5 && TimeLe(sorted[j], sorted[i]))
            && (forall i, j :: 0 <= i < j < |sorted| && !d[i] && !d[j] ==> sorted[i].md5 != sorted[j].md5)
  {
    var sorted := Md5Sorted(hashed);
    var d := Duplicated(sorted, Md5Key);
    Md5SortedRows(hashed);
    KeepFirst(sorted, Md5Key);
    forall i | 0 <= i < |sorted| && d[i]
      ensures exists j :: 0 <= j < i && !d[j] && sorted[j].md5 == sorted[i].md5 && TimeLe(sorted[j], sorted[i])
    {
      var j := FirstIndex(sorted, Md5Key, sorted[i].md5);
      assert TimeLe(sorted[j], sorted[i]);
    }
  }

  /** Every digest that occurs more than once keeps a row: one of its rows is not flagged. */
  lemma EveryDigestKept(hashed: seq<HashedRecord>)
    ensures var sorted := Md5Sorted(hashed);
            var d := Duplicated(sorted, Md5Key);
            forall x :: x in hashed && |WithKey(hashed, Md5Key, x.md5)| > 1 ==>
              exists i :: 0 <= i < |sorted| && !d[i] && sorted[i].md5 == x.md5
  {
    var sorted := Md5Sorted(hashed);
    var d := Duplicated(sorted, Md5Key);
    Md5SortedRows(hashed);
    forall x | x in hashed && |WithKey(hashed, Md5Key, x.md5)| > 1
      ensures exists i :: 0 <= i < |sorted| && !d[i] && sorted[i].md5 == x.md5
    {
      assert x in sorted;
      var k :| 0 <= k < |sorted| && sorted[k] == x;
      var j := FirstUnflagged(sorted, Md5Key, k);
      assert !d[j] && sorted[j].md5 == x.md5;
    }
  }

  /** The number of rows removed is the number of rows with a shared digest less the number of shared digests. */
  lemma RemovalCount(hashed: seq<HashedRecord>)
    ensures |Removal(Md5Sorted(hashed))| == |KeepShared(hashed, Md5Key)| - |SharedKeys(hashed, Md5Key)|
    ensures |Md5Sorted(hashed)| == |KeepShared(hashed, Md5Key)|
  {
    var sorted := Md5Sorted(hashed);
    Md5SortedRows(hashed);
    KeepFirst(sorted, Md5Key);
    assert |sorted| == |multiset(sorted)|;
  }

  /** A run that finishes has passed every stage: this is the state it finishes in. */
  lemma FinishedStages(disk: Node, md5: Content -> Digest, rows: seq<FileRecord>, stopAt: nat)
    requires AnalysisPlan(disk, md5, rows, stopAt).end.Finished?
    ensures var sizeDup := Concat(SharedGroups(GroupBy(rows, SizeKey)));
            && HashAll(disk, md5, sizeDup).Ok?
            && var hashed := HashAll(disk, md5, sizeDup).value;
               var sorted := Md5Sorted(hashed);
               AnalysisPlan(disk, md5, rows, stopAt)
               == Plan(Finished(Summary(|rows|, |GroupBy(rows, SizeKey)|, |sizeDup|, |GroupBy(hashed, Md5Key)|,
                                        |sorted|, |Removal(sorted)|)),
                       HashedPaths(Removal(sorted)))
  {
  }

  /**
    The counts a finished run logs: the rows of the table, its distinct sizes,
    the rows whose size is shared; then, over those rows hashed, the distinct
    digests, the rows whose digest is shared, and the removals, which are that
    last number less the number of shared digests, one per path removed.
   */
  lemma SummaryCounts(disk: Node, md5: Content -> Digest, rows: seq<FileRecord>, stopAt: nat)
    requires AnalysisPlan(disk, md5, rows, stopAt).end.Finished?
    ensures var s := AnalysisPlan(disk, md5, rows, stopAt).end.summary;
            var sizeDup := Concat(SharedGroups(GroupBy(rows, SizeKey)));
            && s.total == |rows|
            && s.sizeGroups == |KeySet(rows, SizeKey)|
            && multiset(sizeDup) == multiset(KeepShared(rows, SizeKey))
            && s.sizeDuplicates == |KeepShared(rows, SizeKey)|
            && HashAll(disk, md5, sizeDup).Ok?
            && var hashed := HashAll(disk, md5, sizeDup).value;
               && s.md5Groups == |KeySet(hashed, Md5Key)|
               && s.md5Duplicates == |KeepShared(hashed, Md5Key)|
               && s.removals == s.md5Duplicates - |SharedKeys(hashed, Md5Key)|
               && s.removals == |AnalysisPlan(disk, md5, rows, stopAt).removals|
  {
    FinishedStages(disk, md5, rows, stopAt);
    var sizeDup := Concat(SharedGroups(GroupBy(rows, SizeKey)));
    GroupCount(rows, SizeKey);
    SharedGroupsAreKeepShared(rows, SizeKey);
    assert |sizeDup| == |multiset(sizeDup)|;
    var hashed := HashAll(disk, md5, sizeDup).value;
    GroupCount(hashed, Md5Key);
    RemovalCount(hashed);
  }

  /**
    The "no duplicate file" endings: the size message appears exactly when the
    table is empty, and the md5 message never does, because the rows that get
    hashed always form at least one group.
   */
  lemma LogOnlyEndings(disk: Node, md5: Content -> Digest, rows: seq<FileRecord>, stopAt: nat)
    ensures AnalysisPlan(disk, md5, rows, stopAt).end.NoSizeGroups? <==> stopAt != 2 && rows == []
    ensures !AnalysisPlan(disk, md5, rows, stopAt).end.NoMd5Groups?
  {
    if stopAt != 2 {
      if rows == [] {
        assert GroupBy(rows, SizeKey) == [];
      } else {
        GroupByStep(rows, SizeKey);
        var shared := SharedGroups(GroupBy(rows, SizeKey));
        if shared != [] && stopAt != 3 {
          ConcatSharedNonEmpty(GroupBy(rows, SizeKey));
          HashedPlanEndings(disk, md5, rows, Concat(shared), stopAt);
        }
      }
    }
  }

  lemma HashedPlanEndings(disk: Node, md5: Content -> Digest, rows: seq<FileRecord>, sizeDup: seq<FileRecord>, stopAt: nat)
    requires sizeDup != []
    ensures !HashedPlan(disk, md5, rows, sizeDup, stopAt).end.NoMd5Groups?
    ensures !HashedPlan(disk, md5, rows, sizeDup, stopAt).end.NoSizeGroups?
  {
    HashAllLength(disk, md5, sizeDup);
    var h := HashAll(disk, md5, sizeDup);
    if h.Ok? {
      GroupByStep(h.value, Md5Key);
    }
  }

  /**
    When the table has rows but no two of the same size, or when the rows of a
    shared size are hashed and no two share a digest, run does not log "no
    duplicate file": it raises, because pd.concat is handed no groups.
   */
  lemma UniqueRowsRaise(disk: Node, md5: Content -> Digest, rows: seq<FileRecord>, stopAt: nat)
    requires stopAt != 2 && rows != []
    ensures KeepShared(rows, SizeKey) == [] ==>
              AnalysisPlan(disk, md5, rows, stopAt) == Plan(Raised(NothingToConcatenate), [])
    ensures var sizeDup := Concat(SharedGroups(GroupBy(rows, SizeKey)));
            KeepShared(rows, SizeKey) != [] && stopAt != 3 && HashAll(disk, md5, sizeDup).Ok? &&
            KeepShared(HashAll(disk, md5, sizeDup).value, Md5Key) == [] ==>
              AnalysisPlan(disk, md5, rows, stopAt) == Plan(Raised(NothingToConcatenate), [])
  {
    GroupByStep(rows, SizeKey);
    SharedGroupsEmpty(rows, SizeKey);
    var sizeDup := Concat(SharedGroups(GroupBy(rows, SizeKey)));
    var h := HashAll(disk, md5, sizeDup);
    if h.Ok? {
      SharedGroupsEmpty(h.value, Md5Key);
      if KeepShared(rows, SizeKey) != [] {
        SharedGroupsAreKeepShared(rows, SizeKey);
        HashAllLength(disk, md5, sizeDup);
        assert sizeDup != [] by {
          assert KeepShared(rows, SizeKey)[0] in multiset(sizeDup);
        }
        GroupByStep(h.value, Md5Key);
      }
    }
  }

  /** A stop that arrives before any checkpoint is passed means nothing is removed and the run does not finish. */
  lemma StopPreventsRemoval(disk: Node, path: Path, md5: Content -> Digest, stopAt: nat)
    requires 1 <= stopAt <= 5
    ensures WorkerPlan(disk, path, md5, stopAt).removals == []
    ensures !WorkerPlan(disk, path, md5, stopAt).end.Finished?
    ensures WorkerPlan(disk, path, md5, stopAt).end.Stopped? ==>
              WorkerPlan(disk, path, md5, stopAt).end.checkpoint == stopAt
  {
  }

  /** Every row hashed is a row of the table whose size another row shares. */
  lemma HashedFromTable(disk: Node, md5: Content -> Digest, rows: seq<FileRecord>, hashed: seq<HashedRecord>)
    requires HashAll(disk, md5, Concat(SharedGroups(GroupBy(rows, SizeKey)))) == Ok(hashed)
    ensures forall h :: h in hashed ==> h.file in rows && |WithKey(rows, SizeKey, h.file.size)| > 1
  {
    var sizeDup := Concat(SharedGroups(GroupBy(rows, SizeKey)));
    HashAllMeaning(disk, md5, sizeDup);
    SharedGroupsAreKeepShared(rows, SizeKey);
    KeepSharedMembers(rows, SizeKey);
    forall h | h in hashed ensures h.file in rows && |WithKey(rows, SizeKey, h.file.size)| > 1 {
      var k :| 0 <= k < |hashed| && hashed[k] == h;
      assert h.file == sizeDup[k];
      assert sizeDup[k] in multiset(sizeDup);
    }
  }

  /**
    Every row removed is a row of the table, hashed, whose digest another row
    shares; an unflagged row with the same digest, no younger, stays.
   */
  lemma RemovedRows(hashed: seq<HashedRecord>)
    ensures var sorted := Md5Sorted(hashed);
            forall r :: r in Removal(sorted) ==>
              r in hashed && |WithKey(hashed, Md5Key, r.md5)| > 1 &&
              exists j :: 0 <= j < |sorted| && !Duplicated(sorted, Md5Key)[j] &&
                sorted[j].md5 == r.md5 && TimeLe(sorted[j], r)
  {
    var sorted := Md5Sorted(hashed);
    var d := Duplicated(sorted, Md5Key);
    MarkedAt(sorted, d);
    Md5SortedRows(hashed);
    RemovalKeepsOldest(hashed);
    forall r | r in Removal(sorted)
      ensures r in hashed && |WithKey(hashed, Md5Key, r.md5)| > 1
      ensures exists j :: 0 <= j < |sorted| && !d[j] && sorted[j].md5 == r.md5 && TimeLe(sorted[j], r)
    {
      var i :| 0 <= i < |sorted| && d[i] && sorted[i] == r;
      assert r in sorted;
    }
  }

  /**
    When the table has one row per file, so has every table made from it, down
    to the sorted md5 table.
   */
  lemma Md5SortedOnePerPath(disk: Node, md5: Content -> Digest, rows: seq<FileRecord>, hashed: seq<HashedRecord>)
    requires UniqueIds(rows, PathKey)
    requires HashAll(disk, md5, Concat(SharedGroups(GroupBy(rows, SizeKey)))) == Ok(hashed)
    ensures UniqueIds(hashed, HashedPathKey)
    ensures UniqueIds(Md5Sorted(hashed), HashedPathKey)
  {
    var sizeDup := Concat(SharedGroups(GroupBy(rows, SizeKey)));
    SharedGroupsAreKeepShared(rows, SizeKey);
    SelectWithin(rows, SizeKey, SharedKeys(rows, SizeKey));
    UniqueIdsWithin(sizeDup, rows, PathKey);
    HashAllOnePerPath(disk, md5, sizeDup);
    Md5SortedRows(hashed);
    SelectWithin(hashed, Md5Key, SharedKeys(hashed, Md5Key));
    UniqueIdsWithin(Md5Sorted(hashed), hashed, HashedPathKey);
  }

  /**
    When no two rows of the sorted table are for the same file, the file of a
    row duplicated() leaves unflagged is not among the paths removed.
   */
  lemma UnflaggedNotRemoved(sorted: seq<HashedRecord>, j: nat)
    requires UniqueIds(sorted, HashedPathKey) && j < |sorted| && !Duplicated(sorted, Md5Key)[j]
    ensures sorted[j].file.path !in HashedPaths(Removal(sorted))
  {
    var d := Duplicated(sorted, Md5Key);
    var removal := Removal(sorted);
    MarkedAt(sorted, d);
    forall y | y in removal ensures HashedPathKey(y) != HashedPathKey(sorted[j]) {
      var i :| 0 <= i < |sorted| && d[i] && sorted[i] == y;
      assert i != j;
    }
    HashedPathsAt(removal);
    forall k | 0 <= k < |removal| ensures HashedPaths(removal)[k] != sorted[j].file.path {
      assert removal[k] in removal;
    }
  }

  /**
    Every path run removes is a file of the table whose size and digest other
    rows share, and a row with that digest that is no younger is not removed.
    On a disk whose directories hold distinct names, that row's file is not
    removed either: every digest run deletes from keeps a file.
   */
  lemma RemovedAreYoungerCopies(disk: Node, path: Path, md5: Content -> Digest, stopAt: nat)
    requires WorkerPlan(disk, path, md5, stopAt).end.Finished?
    ensures Collect(disk, GlobAt(disk, path)).Ok?
    ensures var rows := Collect(disk, GlobAt(disk, path)).value;
            var sizeDup := Concat(SharedGroups(GroupBy(rows, SizeKey)));
            && HashAll(disk, md5, sizeDup).Ok?
            && var hashed := HashAll(disk, md5, sizeDup).value;
               var sorted := Md5Sorted(hashed);
               && WorkerPlan(disk, path, md5, stopAt).removals == HashedPaths(Removal(sorted))
               && forall r :: r in Removal(sorted) ==>
                    && r.file in rows
                    && |WithKey(rows, SizeKey, r.file.size)| > 1
                    && |WithKey(hashed, Md5Key, r.md5)| > 1
                    && exists j :: 0 <= j < |sorted| && !Duplicated(sorted, Md5Key)[j] &&
                         sorted[j].md5 == r.md5 && TimeLe(sorted[j], r) &&
                         (WellFormed(disk) ==> sorted[j].file.path !in WorkerPlan(disk, path, md5, stopAt).removals)
  {
    var rows := Collect(disk, GlobAt(disk, path)).value;
    assert WorkerPlan(disk, path, md5, stopAt) == AnalysisPlan(disk, md5, rows, stopAt);
    FinishedStages(disk, md5, rows, stopAt);
    var hashed := HashAll(disk, md5, Concat(SharedGroups(GroupBy(rows, SizeKey)))).value;
    HashedFromTable(disk, md5, rows, hashed);
    RemovedRows(hashed);
    if WellFormed(disk) {
      var sorted := Md5Sorted(hashed);
      GlobAtDistinct(disk, path);
      CollectOnePerPath(disk, GlobAt(disk, path));
      Md5SortedOnePerPath(disk, md5, rows, hashed);
      forall j | 0 <= j < |sorted| && !Duplicated(sorted, Md5Key)[j]
        ensures sorted[j].file.path !in HashedPaths(Removal(sorted))
      {
        UnflaggedNotRemoved(sorted, j);
      }
    }
  }
}

/**
  The library version of the tool (src/tools/utils/duplicate_file_removal_tool.py):
  scan the chosen directory, collect one row per non-empty file, keep the rows
  whose size occurs more than once, and for each size group hash the files and
  send the younger copies of a duplicated file to the trash.

  As the source is written, remove_duplicate_files_by_md5 returns from inside
  its loop over the md5 groups, so in each size group only the group of the
  smallest duplicated digest is handled; the other duplicated digests of the
  same size survive the run. The model keeps that behaviour.
 */
module RemovalTool {
  import opened Wrappers
  import opened Sequences
  import opened FileTree
  import opened Grouping
  import opened Records
  import opened Ordering
  import opened Chunks
  import opened Listing

  /** move_to_trash(p): send2trash(p), any exception being logged and dropped. */
  method MoveToTrash(p: Path, del: Deletions)
    modifies del
    ensures del.trashRequests == old(del.trashRequests) + [p]
    ensures del.trashed == old(del.trashed) || del.trashed == old(del.trashed) + [p]
    ensures TrashFollows(old(del.trashed), del.trashed, [p])
    ensures del.removed == old(del.removed)
  {
    var ok := del.SendToTrash(p);
    TrashStep(old(del.trashed), p, ok);
  }

  // ---------------------------------------------------------------------------
  // remove_duplicate_files_by_md5

  /**
    The rows remove_duplicate_files_by_md5 sends to the trash, given its size
    group with the md5 column: keep the rows whose digest occurs more than once;
    take the first md5 group (the loop returns at the end of its first round);
    sort it by (create_date, modify_date) and flag every row after the first.
   */
  function Md5Removal(hashed: seq<HashedRecord>): seq<HashedRecord>
  {
    var dup := KeepShared(hashed, Md5Key);
    if |dup| == 0 then []
    else
      GroupByStep(dup, Md5Key);
      var sorted := SortByTime(GroupBy(dup, Md5Key)[0]);
      Marked(sorted, Duplicated(sorted, Md5Key))
  }

  /** The rows that share their digest with another row of the table. */
  predicate SharesDigest(hashed: seq<HashedRecord>, x: HashedRecord)
  {
    |WithKey(hashed, Md5Key, x.md5)| > 1
  }

  /** The function removes nothing exactly when no two rows of the size group have the same digest. */
  lemma Md5RemovalEmpty(hashed: seq<HashedRecord>)
    ensures Md5Removal(hashed) == [] <==> forall x :: x in hashed ==> !SharesDigest(hashed, x)
  {
    KeepSharedEmpty(hashed, Md5Key);
    var dup := KeepShared(hashed, Md5Key);
    if |dup| > 0 {
      Md5RemovalFirstGroup(hashed);
    }
  }

  /**
    When some digest occurs twice, the function handles the group of the
    smallest such digest d and nothing else: that group is every row with
    digest d, in the table's order; the rows sent to the trash are that group
    sorted by (create_date, modify_date), less its first row; their number, the
    value returned, is the group's size less one; the kept row is no younger
    than any removed one; and every removed row has digest d.
   */
  lemma Md5RemovalFirstGroup(hashed: seq<HashedRecord>)
    requires KeepShared(hashed, Md5Key) != []
    ensures var d := MinKey(KeepShared(hashed, Md5Key), Md5Key);
            var g := WithKey(hashed, Md5Key, d);
            && |g| > 1
            && (forall x :: x in hashed && SharesDigest(hashed, x) ==> d <= x.md5)
            && Md5Removal(hashed) == SortByTime(g)[1..]
            && |Md5Removal(hashed)| == |g| - 1
            && (forall r :: r in Md5Removal(hashed) ==> r.md5 == d && TimeLe(SortByTime(g)[0], r))
  {
    var dup := KeepShared(hashed, Md5Key);
    var d := MinKey(dup, Md5Key);
    var g := WithKey(hashed, Md5Key, d);
    GroupByStep(dup, Md5Key);
    assert GroupBy(dup, Md5Key)[0] == WithKey(dup, Md5Key, d);
    KeepSharedExact(hashed, Md5Key, d);
    KeepSharedMembers(hashed, Md5Key);
    var sorted := SortByTime(g);
    SortByTimeSorts(g);
    WithKeyMembers(hashed, Md5Key, d);
    forall x | x in sorted ensures Md5Key(x) == Md5Key(sorted[0]) {
      assert x in multiset(sorted) && sorted[0] in multiset(sorted);
    }
    MarkedOneKey(sorted, Md5Key);
    forall r | r in sorted[1..] ensures r.md5 == d && TimeLe(sorted[0], r) {
      var k :| 0 <= k < |sorted[1..]| && sorted[1..][k] == r;
      assert sorted[k + 1] == r;
      assert r in multiset(sorted);
    }
  }

  /** removal_files_df['file_path'].apply(move_to_trash): one trash request per row, in order. */
  method TrashAll(rows: seq<HashedRecord>, del: Deletions)
    modifies del
    ensures del.trashRequests == old(del.trashRequests) + HashedPaths(rows)
    ensures TrashFollows(old(del.trashed), del.trashed, HashedPaths(rows))
    ensures del.removed == old(del.removed)
  {
    TrashStays(del.trashed);
    var i := 0;
    ghost var asked: seq<Path> := [];
    while i < |rows|
      invariant 0 <= i <= |rows|
      invariant asked == HashedPaths(rows[..i])
      invariant del.trashRequests == old(del.trashRequests) + asked
      invariant TrashFollows(old(del.trashed), del.trashed, asked)
      invariant del.removed == old(del.removed)
    {
      var p := rows[i].file.path;
      ghost var t := del.trashed;
      MoveToTrash(p, del);
      TrashTrans(old(del.trashed), t, asked, del.trashed, [p]);
      assert rows[..i + 1] == rows[..i] + [rows[i]];
      HashedPathsSnoc(rows[..i], rows[i]);
      asked := asked + [p];
      i := i + 1;
    }
    assert rows[..i] == rows;
  }

  /** What remove_duplicate_files_by_md5 selects for one size group, or the exception hashing raised. */
  function GroupRemoval(disk: Node, md5: Content -> Digest, group: seq<FileRecord>): Result<seq<HashedRecord>, Error>
  {
    match HashAll(disk, md5, group)
    case Err(e) => Err(e)
    case Ok(h) => Ok(Md5Removal(h))
  }

  /** remove_duplicate_files_by_md5(group): hash the group, then trash the rows Md5Removal picks; returns how many. */
  method RemoveDuplicateFilesByMd5(disk: Node, md5: Content -> Digest, group: seq<FileRecord>, del: Deletions)
    returns (r: Result<nat, Error>)
    modifies del
    ensures GroupRemoval(disk, md5, group).Err? ==>
              && r == Err(GroupRemoval(disk, md5, group).error)
              && del.trashRequests == old(del.trashRequests) && del.trashed == old(del.trashed)
    ensures GroupRemoval(disk, md5, group).Ok? ==>
              var removal := GroupRemoval(disk, md5, group).value;
              && r == Ok(|removal|)
              && del.trashRequests == old(del.trashRequests) + HashedPaths(removal)
              && TrashFollows(old(del.trashed), del.trashed, HashedPaths(removal))
    ensures del.removed == old(del.removed)
  {
    var hashed := HashAll(disk, md5, group);
    if hashed.Err? {
      return Err(hashed.error);
    }
    var removal := Md5Removal(hashed.value);
    TrashAll(removal, del);
    return Ok(|removal|);
  }

  // ---------------------------------------------------------------------------
  // DuplicateFileRemoval.run

  /** The trash requests made so far and the running removal count, or the exception that ended the loop. */
  datatype Sweep = Sweep(requests: seq<Path>, result: Result<nat, Error>)

  type Outcome = Result<seq<HashedRecord>, Error>

  /** What remove_duplicate_files_by_md5 selects in each size group, in the loop's order. */
  function Outcomes(disk: Node, md5: Content -> Digest, groups: seq<seq<FileRecord>>): (outs: seq<Outcome>)
    ensures |outs| == |groups|
  {
    if groups == [] then [] else [GroupRemoval(disk, md5, groups[0])] + Outcomes(disk, md5, groups[1..])
  }

  /** outs holds, for each size group, what remove_duplicate_files_by_md5 selects in it. */
  predicate IsOutcomes(disk: Node, md5: Content -> Digest, groups: seq<seq<FileRecord>>, outs: seq<Outcome>)
  {
    |outs| == |groups| &&
    forall k {:trigger GroupRemoval(disk, md5, groups[k])} ::
      0 <= k < |groups| ==> outs[k] == GroupRemoval(disk, md5, groups[k])
  }

  lemma {:induction false} OutcomesMeaning(disk: Node, md5: Content -> Digest, groups: seq<seq<FileRecord>>)
    ensures IsOutcomes(disk, md5, groups, Outcomes(disk, md5, groups))
  {
    if groups != [] {
      OutcomesMeaning(disk, md5, groups[1..]);
      var outs := Outcomes(disk, md5, groups);
      forall k | 0 < k < |groups| ensures outs[k] == GroupRemoval(disk, md5, groups[k]) {
        assert groups[k] == groups[1..][k - 1];
      }
    }
  }

  /** One round of the loop of run, after rounds that raised nothing. */
  function Round(s: Sweep, g: Outcome): Sweep
    requires s.result.Ok?
  {
    match g
    case Err(e) => Sweep(s.requests, Err(e))
    case Ok(removal) => Sweep(s.requests + HashedPaths(removal), Ok(s.result.value + |removal|))
  }

  /** The loop of run over the outcomes of its rounds: the first exception ends it. */
  function Tally(outs: seq<Outcome>): Sweep
    decreases |outs|
  {
    if outs == [] then Sweep([], Ok(0))
    else
      var s := Tally(outs[..|outs| - 1]);
      if s.result.Err? then s else Round(s, outs[|outs| - 1])
  }

  /** The loop of run over the size groups, one remove_duplicate_files_by_md5 call per group. */
  function SweepGroups(disk: Node, md5: Content -> Digest, groups: seq<seq<FileRecord>>): Sweep
  {
    Tally(Outcomes(disk, md5, groups))
  }

  /** Once a round raises, the loop is over: later groups add nothing. */
  lemma {:induction false} SweepStops(outs: seq<Outcome>, i: nat)
    requires i <= |outs| && Tally(outs[..i]).result.Err?
    ensures Tally(outs) == Tally(outs[..i])
    decreases |outs|
  {
    if i < |outs| {
      var n := |outs| - 1;
      assert outs[..n][..i] == outs[..i];
      SweepStops(outs[..n], i);
    } else {
      assert outs[..i] == outs;
    }
  }

  /**
    The removal count run accumulates is the number of files it asked
    send2trash to move, whether or not the moves succeeded.
   */
  lemma {:induction false} SweepCount(outs: seq<Outcome>)
    ensures Tally(outs).result.Ok? ==> Tally(outs).result.value == |Tally(outs).requests|
    decreases |outs|
  {
    if outs != [] {
      SweepCount(outs[..|outs| - 1]);
    }
  }

  /** One more round of the loop, after rounds that raised nothing. */
  lemma SweepStep(outs: seq<Outcome>, i: nat)
    requires i < |outs| && Tally(outs[..i]).result.Ok?
    ensures Tally(outs[..i + 1]) == Round(Tally(outs[..i]), outs[i])
  {
    assert outs[..i + 1][..i] == outs[..i];
  }

  /** Round i of the loop of run: remove_duplicate_files_by_md5 on size group i. */
  method SweepRound(disk: Node, md5: Content -> Digest, groups: seq<seq<FileRecord>>, ghost outs: seq<Outcome>,
                    i: nat, del: Deletions)
    returns (one: Result<nat, Error>)
    requires i < |groups| && IsOutcomes(disk, md5, groups, outs)
    modifies del
    ensures one.Err? <==> outs[i].Err?
    ensures one.Err? ==>
              && one.error == outs[i].error
              && del.trashRequests == old(del.trashRequests) && del.trashed == old(del.trashed)
    ensures one.Ok? ==>
              && one.value == |outs[i].value|
              && del.trashRequests == old(del.trashRequests) + HashedPaths(outs[i].value)
              && TrashFollows(old(del.trashed), del.trashed, HashedPaths(outs[i].value))
    ensures del.removed == old(del.removed)
  {
    one := RemoveDuplicateFilesByMd5(disk, md5, groups[i], del);
  }

  /** The loop of run over the size groups, adding up what remove_duplicate_files_by_md5 returns. */
  method SweepSizeGroups(disk: Node, md5: Content -> Digest, groups: seq<seq<FileRecord>>, del: Deletions)
    returns (r: Result<nat, Error>)
    modifies del
    ensures r == SweepGroups(disk, md5, groups).result
    ensures del.trashRequests == old(del.trashRequests) + SweepGroups(disk, md5, groups).requests
    ensures TrashFollows(old(del.trashed), del.trashed, SweepGroups(disk, md5, groups).requests)
    ensures del.removed == old(del.removed)
  {
    OutcomesMeaning(disk, md5, groups);
    r := SweepLoop(disk, md5, groups, Outcomes(disk, md5, groups), del);
  }

  method SweepLoop(disk: Node, md5: Content -> Digest, groups: seq<seq<FileRecord>>, ghost outs: seq<Outcome>,
                   del: Deletions)
    returns (r: Result<nat, Error>)
    requires IsOutcomes(disk, md5, groups, outs)
    modifies del
    ensures r == Tally(outs).result
    ensures del.trashRequests == old(del.trashRequests) + Tally(outs).requests
    ensures TrashFollows(old(del.trashed), del.trashed, Tally(outs).requests)
    ensures del.removed == old(del.removed)
  {
    TrashStays(del.trashed);
    var count := 0;
    var i := 0;
    ghost var asked: seq<Path> := [];
    while i < |groups|
      invariant 0 <= i <= |groups|
      invariant Tally(outs[..i]) == Sweep(asked, Ok(count))
      invariant del.trashRequests == old(del.trashRequests) + asked
      invariant TrashFollows(old(del.trashed), del.trashed, asked)
      invariant del.removed == old(del.removed)
    {
      SweepStep(outs, i);
      ghost var t := del.trashed;
      var one := SweepRound(disk, md5, groups, outs, i, del);
      if one.Err? {
        SweepStops(outs, i + 1);
        return Err(one.error);
      }
      ghost var more := HashedPaths(outs[i].value);
      TrashTrans(old(del.trashed), t, asked, del.trashed, more);
      AppendAssoc(old(del.trashRequests), asked, more);
      asked := asked + more;
      count := count + one.value;
      i := i + 1;
    }
    assert outs[..i] == outs;
    return Ok(count);
  }

  /** Every trash request of the loop comes from the removal of one of its rounds. */
  lemma {:induction false} TallyRequests(outs: seq<Outcome>)
    ensures forall p :: p in Tally(outs).requests ==>
              exists k :: 0 <= k < |outs| && outs[k].Ok? && p in HashedPaths(outs[k].value)
    decreases |outs|
  {
    if outs != [] {
      var n := |outs| - 1;
      TallyRequests(outs[..n]);
      forall p | p in Tally(outs).requests
        ensures exists k :: 0 <= k < |outs| && outs[k].Ok? && p in HashedPaths(outs[k].value)
      {
        if p in Tally(outs[..n]).requests {
          var k :| 0 <= k < n && outs[..n][k].Ok? && p in HashedPaths(outs[..n][k].value);
          assert outs[k] == outs[..n][k];
        } else {
          assert outs[n].Ok? && p in HashedPaths(outs[n].value);
        }
      }
    }
  }

  /** How run ends: the exception it raised, or the counts it logged. */
  datatype ToolEnd =
    | Raised(error: Error)
    | NoSizeDuplicates(total: nat)
    | Finished(total: nat, sizeDuplicates: nat, removals: nat)

  datatype ToolRun = ToolRun(requests: seq<Path>, end: ToolEnd)

  /**
    What DuplicateFileRemoval(path).run() does to the disk: the paths it asks
    send2trash to move, in order, and how it ends. The table is collected in
    one piece here; the chunked collection run uses for more than 32 paths
    yields the same table (CollectInChunks, ArraySplit).
   */
  function ToolPlan(disk: Node, path: Path, md5: Content -> Digest): ToolRun
  {
    var files := ScanAt(disk, path);
    if |files| == 0 then ToolRun([], Raised(NoFilesFound(path)))
    else
      match Collect(disk, files)
      case Err(e) => ToolRun([], Raised(e))
      case Ok(rows) =>
        var dup := KeepShared(rows, SizeKey);
        if |dup| == 0 then ToolRun([], NoSizeDuplicates(|rows|))
        else
          var s := SweepGroups(disk, md5, GroupBy(dup, SizeKey));
          match s.result
          case Err(e) => ToolRun(s.requests, Raised(e))
          case Ok(n) => ToolRun(s.requests, Finished(|rows|, |dup|, n))
  }

  /** The worker thread of the library version. */
  class DuplicateFileRemoval {
    var path: Path

    constructor (path: Path)
      ensures this.path == path
    {
      this.path := path;
    }

    /** run(): the whole pipeline, on a machine with `cpu` CPUs. */
    method Run(disk: Node, md5: Content -> Digest, cpu: nat, del: Deletions) returns (end: ToolEnd)
      modifies del
      ensures end == ToolPlan(disk, path, md5).end
      ensures del.trashRequests == old(del.trashRequests) + ToolPlan(disk, path, md5).requests
      ensures TrashFollows(old(del.trashed), del.trashed, ToolPlan(disk, path, md5).requests)
      ensures del.removed == old(del.removed)
    {
      TrashStays(del.trashed);
      var scanner := new ScanFiles(disk, path);
      var files := scanner.fileList;
      if |files| == 0 {
        return Raised(NoFilesFound(path));
      }
      var collected;
      if |files| <= 32 {
        collected := CollectFileInfo(disk, files);
      } else {
        var workers := Workers(|files|, cpu);
        var chunks := ArraySplit(files, workers);
        collected := CollectInChunks(disk, chunks);
      }
      if collected.Err? {
        return Raised(collected.error);
      }
      var rows := collected.value;
      var dup := KeepShared(rows, SizeKey);
      if |dup| == 0 {
        return NoSizeDuplicates(|rows|);
      }
      var r := SweepSizeGroups(disk, md5, GroupBy(dup, SizeKey), del);
      if r.Err? {
        return Raised(r.error);
      }
      return Finished(|rows|, |dup|, r.value);
    }
  }

  /**
    Only the rows whose size occurs more than once are hashed, a whole size
    group at a time: every group the loop visits has at least two rows, all of
    one size, and is every row of the table with that size. When no size
    occurs twice, run ends before hashing anything and asks for no deletion.
   */
  lemma HashedGroups(disk: Node, path: Path, md5: Content -> Digest, rows: seq<FileRecord>)
    requires |ScanAt(disk, path)| > 0 && Collect(disk, ScanAt(disk, path)) == Ok(rows)
    ensures forall g: seq<FileRecord> :: g in GroupBy(KeepShared(rows, SizeKey), SizeKey) ==>
              |g| > 1 && g == WithKey(rows, SizeKey, g[0].size)
    ensures KeepShared(rows, SizeKey) == [] ==>
              ToolPlan(disk, path, md5) == ToolRun([], NoSizeDuplicates(|rows|))
  {
    var dup := KeepShared(rows, SizeKey);
    GroupByGroups(dup, SizeKey);
    forall g: seq<FileRecord> | g in GroupBy(dup, SizeKey) ensures |g| > 1 && g == WithKey(rows, SizeKey, g[0].size) {
      KeepSharedExact(rows, SizeKey, g[0].size);
    }
  }

  /** A finished run reports as many removals as it made trash requests. */
  lemma ToolPlanCount(disk: Node, path: Path, md5: Content -> Digest)
    ensures ToolPlan(disk, path, md5).end.Finished? ==>
              ToolPlan(disk, path, md5).end.removals == |ToolPlan(disk, path, md5).requests|
  {
    var files := ScanAt(disk, path);
    if |files| > 0 && Collect(disk, files).Ok? {
      var rows := Collect(disk, files).value;
      SweepCount(Outcomes(disk, md5, GroupBy(KeepShared(rows, SizeKey), SizeKey)));
    }
  }

  /**
    A path one size group sends to the trash belongs to a row of that group
    whose digest is shared within the group, and that row is no older than the
    row with the same digest that stays.
   */
  lemma GroupRemovalRow(disk: Node, md5: Content -> Digest, g: seq<FileRecord>, p: Path)
    requires HashAll(disk, md5, g).Ok? && p in HashedPaths(Md5Removal(HashAll(disk, md5, g).value))
    ensures var h := HashAll(disk, md5, g).value;
            exists r :: r in Md5Removal(h) && r.file.path == p && r.file in g && SharesDigest(h, r) &&
              TimeLe(SortByTime(WithKey(h, Md5Key, r.md5))[0], r)
  {
    var h := HashAll(disk, md5, g).value;
    HashedPathsMember(Md5Removal(h), p);
    var r :| r in Md5Removal(h) && r.file.path == p;
    Md5RemovalRows(h);
    HashAllMeaning(disk, md5, g);
    var i :| 0 <= i < |h| && h[i] == r;
    assert r.file == g[i];
  }

  /**
    Every row the function removes is a row of the group whose digest is
    shared. The row kept of that digest, the first in time order, is a row of
    the group with the same digest and is no younger; when no two rows of the
    group are for the same file, its file is not among the rows removed.
   */
  lemma Md5RemovalRows(h: seq<HashedRecord>)
    ensures forall r :: r in Md5Removal(h) ==>
              && r in h && SharesDigest(h, r)
              && var keep := SortByTime(WithKey(h, Md5Key, r.md5))[0];
                 && keep in h && keep.md5 == r.md5 && TimeLe(keep, r)
                 && (UniqueIds(h, HashedPathKey) ==> keep.file.path !in HashedPaths(Md5Removal(h)))
  {
    if KeepShared(h, Md5Key) != [] {
      Md5RemovalFirstGroup(h);
      GroupKeeper(h, MinKey(KeepShared(h, Md5Key), Md5Key));
    }
  }

  /**
    The first row in time order of the rows with digest d is a row of the
    table with that digest; with one row per file, its file is not among the
    files of the rows after it.
   */
  lemma GroupKeeper(h: seq<HashedRecord>, d: int)
    requires |WithKey(h, Md5Key, d)| > 1
    ensures var s := SortByTime(WithKey(h, Md5Key, d));
            && |s| == |WithKey(h, Md5Key, d)|
            && s[0] in h && s[0].md5 == d
            && (forall r :: r in s[1..] ==> r in h)
            && (UniqueIds(h, HashedPathKey) ==> s[0].file.path !in HashedPaths(s[1..]))
  {
    var dg := WithKey(h, Md5Key, d);
    var s := SortByTime(dg);
    SortByTimeSorts(dg);
    WithKeyMembers(h, Md5Key, d);
    assert s[0] in multiset(s);
    forall r | r in s[1..] ensures r in h {
      assert r in s;
      assert r in multiset(s);
    }
    if UniqueIds(h, HashedPathKey) {
      WithKeyWithin(h, Md5Key, d);
      UniqueIdsWithin(s, h, HashedPathKey);
      FirstNotInRest(s);
    }
  }

  /** With one row per file, the file of the first row is not among the files of the others. */
  lemma FirstNotInRest(s: seq<HashedRecord>)
    requires s != [] && UniqueIds(s, HashedPathKey)
    ensures s[0].file.path !in HashedPaths(s[1..])
  {
    HashedPathsAt(s[1..]);
    forall k | 0 <= k < |s| - 1 ensures HashedPaths(s[1..])[k] != s[0].file.path {
      assert s[1..][k] == s[k + 1];
    }
  }

  /** Rows of two different size groups are rows of different files when the table has one row per file. */
  lemma GroupsApart(dup: seq<FileRecord>, g: seq<FileRecord>, g2: seq<FileRecord>, x: FileRecord, y: FileRecord)
    requires UniqueIds(dup, PathKey)
    requires g in GroupBy(dup, SizeKey) && g2 in GroupBy(dup, SizeKey) && g != g2 && x in g && y in g2
    ensures x.path != y.path
  {
    GroupByGroups(dup, SizeKey);
    WithKeyMembers(dup, SizeKey, g[0].size);
    WithKeyMembers(dup, SizeKey, g2[0].size);
    if x.path == y.path {
      UniqueIdsSame(dup, PathKey, x, y);
    }
  }

  /**
    When the table has one row per file, a row of a visited size group whose
    file that group does not send to the trash is sent there by no other
    group either: the run never requests it.
   */
  lemma KeptFileNotRequested(disk: Node, md5: Content -> Digest, rows: seq<FileRecord>, g: seq<FileRecord>, x: HashedRecord)
    requires UniqueIds(rows, PathKey)
    requires g in GroupBy(KeepShared(rows, SizeKey), SizeKey) && HashAll(disk, md5, g).Ok?
    requires x in HashAll(disk, md5, g).value
    requires x.file.path !in HashedPaths(Md5Removal(HashAll(disk, md5, g).value))
    ensures x.file.path !in SweepGroups(disk, md5, GroupBy(KeepShared(rows, SizeKey), SizeKey)).requests
  {
    var dup := KeepShared(rows, SizeKey);
    var groups := GroupBy(dup, SizeKey);
    var outs := Outcomes(disk, md5, groups);
    SelectWithin(rows, SizeKey, SharedKeys(rows, SizeKey));
    UniqueIdsWithin(dup, rows, PathKey);
    HashAllMeaning(disk, md5, g);
    var i :| 0 <= i < |HashAll(disk, md5, g).value| && HashAll(disk, md5, g).value[i] == x;
    assert x.file == g[i];
    OutcomesMeaning(disk, md5, groups);
    TallyRequests(outs);
    forall k | 0 <= k < |outs| && outs[k].Ok? ensures x.file.path !in HashedPaths(outs[k].value) {
      assert outs[k] == GroupRemoval(disk, md5, groups[k]);
      if groups[k] != g && x.file.path in HashedPaths(outs[k].value) {
        GroupRemovalRow(disk, md5, groups[k], x.file.path);
        var y :| y in Md5Removal(HashAll(disk, md5, groups[k]).value) && y.file.path == x.file.path && y.file in groups[k];
        GroupsApart(dup, g, groups[k], x.file, y.file);
      }
    }
  }

  /**
    Every path the loop over the size groups sends to the trash is a file of
    a visited group whose digest is shared within the group, and the row kept
    of that digest is a row of the group with the same digest and no younger;
    when the table has one row per file, the loop never requests the kept
    row's file.
   */
  lemma SweepTrashesYoungerCopies(disk: Node, md5: Content -> Digest, rows: seq<FileRecord>, p: Path)
    requires p in SweepGroups(disk, md5, GroupBy(KeepShared(rows, SizeKey), SizeKey)).requests
    ensures exists g :: g in GroupBy(KeepShared(rows, SizeKey), SizeKey) && HashAll(disk, md5, g).Ok? &&
              var h := HashAll(disk, md5, g).value;
              exists r :: r in Md5Removal(h) && r.file.path == p && r.file in g && SharesDigest(h, r) &&
                var keep := SortByTime(WithKey(h, Md5Key, r.md5))[0];
                keep in h && keep.md5 == r.md5 && TimeLe(keep, r) &&
                (UniqueIds(rows, PathKey) ==>
                   keep.file.path !in SweepGroups(disk, md5, GroupBy(KeepShared(rows, SizeKey), SizeKey)).requests)
  {
    var groups := GroupBy(KeepShared(rows, SizeKey), SizeKey);
    var outs := Outcomes(disk, md5, groups);
    OutcomesMeaning(disk, md5, groups);
    TallyRequests(outs);
    var k :| 0 <= k < |outs| && outs[k].Ok? && p in HashedPaths(outs[k].value);
    var g := groups[k];
    assert outs[k] == GroupRemoval(disk, md5, g);
    GroupRemovalRow(disk, md5, g, p);
    var h := HashAll(disk, md5, g).value;
    var r :| r in Md5Removal(h) && r.file.path == p && r.file in g && SharesDigest(h, r);
    Md5RemovalRows(h);
    SortByTimeSorts(WithKey(h, Md5Key, r.md5));
    var keep := SortByTime(WithKey(h, Md5Key, r.md5))[0];
    assert g in groups && HashAll(disk, md5, g).Ok?;
    if UniqueIds(rows, PathKey) {
      GroupOnePerPath(disk, md5, rows, g);
      KeptFileNotRequested(disk, md5, rows, g, keep);
    }
  }

  /**
    Every path run sends to the trash is a file of the collected table. It
    lies in a size group the loop visits (so its size is shared, by
    HashedGroups), its digest is shared within that group, and the row kept
    of that digest is a row of the group with the same digest and no younger.
    On a disk whose directories hold distinct names, the kept row's file is
    never sent to the trash: every digest run trashes from keeps a file.
   */
  lemma ToolTrashesYoungerCopies(disk: Node, path: Path, md5: Content -> Digest, p: Path)
    requires p in ToolPlan(disk, path, md5).requests
    ensures |ScanAt(disk, path)| > 0 && Collect(disk, ScanAt(disk, path)).Ok?
    ensures var rows := Collect(disk, ScanAt(disk, path)).value;
            exists g :: g in GroupBy(KeepShared(rows, SizeKey), SizeKey) && HashAll(disk, md5, g).Ok? &&
              var h := HashAll(disk, md5, g).value;
              exists r :: r in Md5Removal(h) && r.file.path == p && r.file in g && SharesDigest(h, r) &&
                var keep := SortByTime(WithKey(h, Md5Key, r.md5))[0];
                keep in h && keep.md5 == r.md5 && TimeLe(keep, r) &&
                (WellFormed(disk) ==> keep.file.path !in ToolPlan(disk, path, md5).requests)
  {
    var rows := Collect(disk, ScanAt(disk, path)).value;
    assert ToolPlan(disk, path, md5).requests == SweepGroups(disk, md5, GroupBy(KeepShared(rows, SizeKey), SizeKey)).requests;
    SweepTrashesYoungerCopies(disk, md5, rows, p);
    if WellFormed(disk) {
      ScanAtDistinct(disk, path);
      CollectOnePerPath(disk, ScanAt(disk, path));
    }
  }

  /** When the table has one row per file, so has each size group once hashed. */
  lemma GroupOnePerPath(disk: Node, md5: Content -> Digest, rows: seq<FileRecord>, g: seq<FileRecord>)
    requires UniqueIds(rows, PathKey)
    requires g in GroupBy(KeepShared(rows, SizeKey), SizeKey) && HashAll(disk, md5, g).Ok?
    ensures UniqueIds(HashAll(disk, md5, g).value, HashedPathKey)
  {
    var dup := KeepShared(rows, SizeKey);
    SelectWithin(rows, SizeKey, SharedKeys(rows, SizeKey));
    UniqueIdsWithin(dup, rows, PathKey);
    GroupByGroups(dup, SizeKey);
    WithKeyWithin(dup, SizeKey, g[0].size);
    UniqueIdsWithin(g, dup, PathKey);
    HashAllOnePerPath(disk, md5, g);
  }

  /**
    Every path run actually moves to the trash is one it asked send2trash to
    move, so it too is a younger copy; on a disk whose directories hold
    distinct names, the kept copy is not among the files run moved.
   */
  lemma TrashedAreYoungerCopies(disk: Node, path: Path, md5: Content -> Digest, t0: seq<Path>, t1: seq<Path>, p: Path)
    requires TrashFollows(t0, t1, ToolPlan(disk, path, md5).requests) && p in t1[|t0|..]
    ensures |ScanAt(disk, path)| > 0 && Collect(disk, ScanAt(disk, path)).Ok?
    ensures var rows := Collect(disk, ScanAt(disk, path)).value;
            exists g :: g in GroupBy(KeepShared(rows, SizeKey), SizeKey) && HashAll(disk, md5, g).Ok? &&
              var h := HashAll(disk, md5, g).value;
              exists r :: r in Md5Removal(h) && r.file.path == p && r.file in g && SharesDigest(h, r) &&
                var keep := SortByTime(WithKey(h, Md5Key, r.md5))[0];
                keep in h && keep.md5 == r.md5 && TimeLe(keep, r) &&
                (WellFormed(disk) ==> keep.file.path !in t1[|t0|..])
  {
    SubsequenceWithin(t1[|t0|..], ToolPlan(disk, path, md5).requests);
    ToolTrashesYoungerCopies(disk, path, md5, p);
  }
}

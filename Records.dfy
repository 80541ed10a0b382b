/**
  The rows the tool works on and how they are made: collect_file_info turns a
  list of paths into (file_path, file_size, create_date, modify_date) rows, and
  calc_md5 adds an md5 column. Both helpers are the same in the library version
  and in the GUI version of the tool.
 */
module Records {
  import opened Wrappers
  import opened FileTree
  import opened Sequences

  /** Why a run ends with an exception. */
  datatype Error =
    | NoFilesFound(path: Path)   // FileNotFoundError: the listing of the chosen path is empty
    | StatFailed(path: Path)     // os.path.getsize raised: nothing at the path
    | HashFailed(path: Path)     // open() in calc_md5 raised: missing, a directory, or unreadable
    | NothingToConcatenate       // pd.concat got an empty generator
    | RemoveFailed(path: Path)   // os.remove raised

  /** One row of the table collect_file_info builds. */
  datatype FileRecord = FileRecord(path: Path, size: nat, ctime: int, mtime: int)

  /** A row together with its md5 column. */
  datatype HashedRecord = HashedRecord(file: FileRecord, md5: Digest)

  /** The file_size column, as a grouping key. */
  function SizeKey(r: FileRecord): int
  {
    r.size
  }

  /** The md5 column, as a grouping key. */
  function Md5Key(r: HashedRecord): int
  {
    r.md5
  }

  /** The file_path column, as the identifier of a row. */
  function PathKey(r: FileRecord): Path
  {
    r.path
  }

  /** The file_path column of a row with its md5, as its identifier. */
  function HashedPathKey(h: HashedRecord): Path
  {
    h.file.path
  }

  /** The file_path column of the table collect_file_info builds. */
  function Paths(rs: seq<FileRecord>): (ps: seq<Path>)
    ensures |ps| == |rs| && forall i :: 0 <= i < |rs| ==> ps[i] == rs[i].path
  {
    if rs == [] then [] else [rs[0].path] + Paths(rs[1..])
  }

  /**
    The file_path column of the table once the md5 column is added. Its rows
    are HashedRecord rather than FileRecord, so it is a function of its own:
    the path of each row's `file` part.
   */
  function HashedPaths(hs: seq<HashedRecord>): (ps: seq<Path>)
    ensures |ps| == |hs|
  {
    if hs == [] then [] else [hs[0].file.path] + HashedPaths(hs[1..])
  }

  /** Row i of the column is the path of row i. */
  lemma {:induction false} HashedPathsAt(hs: seq<HashedRecord>)
    ensures forall i :: 0 <= i < |hs| ==> HashedPaths(hs)[i] == hs[i].file.path
  {
    if hs != [] {
      HashedPathsAt(hs[1..]);
    }
  }

  lemma HashedPathsSnoc(hs: seq<HashedRecord>, h: HashedRecord)
    ensures HashedPaths(hs + [h]) == HashedPaths(hs) + [h.file.path]
  {
    HashedPathsAt(hs + [h]);
    HashedPathsAt(hs);
  }

  /** A path in the file_path column is the path of one of its rows. */
  lemma HashedPathsMember(hs: seq<HashedRecord>, p: Path)
    requires p in HashedPaths(hs)
    ensures exists r :: r in hs && r.file.path == p
  {
    HashedPathsAt(hs);
    var i :| 0 <= i < |HashedPaths(hs)| && HashedPaths(hs)[i] == p;
    assert hs[i] in hs;
  }

  // ---------------------------------------------------------------------------
  // collect_file_info

  /** What collect_file_info makes of one path: an exception, no row, or one row. */
  function Entry(disk: Node, p: Path): Result<Option<FileRecord>, Error>
  {
    match Find(disk, p)
    case None => Err(StatFailed(p))
    case Some(n) =>
      if n.Dir? || Size(n) == 0 then Ok(None)
      else Ok(Some(FileRecord(p, Size(n), n.ctime, n.mtime)))
  }

  /** The table collect_file_info builds from `ps`, appending one row per path in turn. */
  function Collect(disk: Node, ps: seq<Path>): Result<seq<FileRecord>, Error>
    decreases |ps|
  {
    if ps == [] then Ok([])
    else
      match Collect(disk, ps[..|ps| - 1])
      case Err(e) => Err(e)
      case Ok(rs) =>
        match Entry(disk, ps[|ps| - 1])
        case Err(e) => Err(e)
        case Ok(None) => Ok(rs)
        case Ok(Some(r)) => Ok(rs + [r])
  }

  /** pd.concat of two results in turn: the first exception wins. */
  function Join(a: Result<seq<FileRecord>, Error>, b: Result<seq<FileRecord>, Error>): Result<seq<FileRecord>, Error>
  {
    match a
    case Err(e) => Err(e)
    case Ok(x) =>
      match b
      case Err(e) => Err(e)
      case Ok(y) => Ok(x + y)
  }

  /** collect_file_info: the loop over the paths, appending a row for each non-empty regular file. */
  method CollectFileInfo(disk: Node, ps: seq<Path>) returns (r: Result<seq<FileRecord>, Error>)
    ensures r == Collect(disk, ps)
  {
    var rows: seq<FileRecord> := [];
    var i := 0;
    while i < |ps|
      invariant 0 <= i <= |ps|
      invariant Collect(disk, ps[..i]) == Ok(rows)
    {
      assert ps[..i + 1][..i] == ps[..i];
      var p := ps[i];
      var st := Find(disk, p);
      if st.None? {
        CollectStopsAtError(disk, ps, i + 1);
        return Err(StatFailed(p));
      }
      var n := st.value;
      if !(n.Dir? || Size(n) == 0) {
        rows := rows + [FileRecord(p, Size(n), n.ctime, n.mtime)];
      }
      i := i + 1;
    }
    assert ps[..i] == ps;
    r := Ok(rows);
  }

  /** A path collect_file_info keeps: a regular file of at least one byte. */
  predicate Kept(disk: Node, p: Path)
  {
    Find(disk, p).Some? && Find(disk, p).value.File? && Size(Find(disk, p).value) > 0
  }

  /** The paths collect_file_info keeps, in their order. */
  function KeptPaths(disk: Node, ps: seq<Path>): seq<Path>
  {
    if ps == [] then []
    else if Kept(disk, ps[0]) then [ps[0]] + KeptPaths(disk, ps[1..])
    else KeptPaths(disk, ps[1..])
  }

  /** A row agrees with what os.stat reports for its path. */
  predicate Describes(disk: Node, r: FileRecord)
  {
    Kept(disk, r.path) &&
    var f := Find(disk, r.path).value;
    r.size == Size(f) && r.ctime == f.ctime && r.mtime == f.mtime
  }

  lemma {:induction false} KeptPathsSnoc(disk: Node, ps: seq<Path>, p: Path)
    ensures KeptPaths(disk, ps + [p]) == KeptPaths(disk, ps) + (if Kept(disk, p) then [p] else [])
  {
    if ps == [] {
      assert ps + [p] == [p];
    } else {
      assert (ps + [p])[0] == ps[0];
      assert (ps + [p])[1..] == ps[1..] + [p];
      KeptPathsSnoc(disk, ps[1..], p);
      if Kept(disk, ps[0]) {
        assert [ps[0]] + (KeptPaths(disk, ps[1..]) + (if Kept(disk, p) then [p] else []))
            == ([ps[0]] + KeptPaths(disk, ps[1..])) + (if Kept(disk, p) then [p] else []);
      }
    }
  }

  lemma PathsSnoc(rs: seq<FileRecord>, r: FileRecord)
    ensures Paths(rs + [r]) == Paths(rs) + [r.path]
  {
  }

  /**
    collect_file_info succeeds exactly when every path exists, and then its
    table has one row per kept path, in the order of the input, each row
    carrying the size and times os.stat reports for its path.
   */
  lemma {:induction false} CollectRows(disk: Node, ps: seq<Path>)
    ensures Collect(disk, ps).Ok? <==> forall i :: 0 <= i < |ps| ==> Find(disk, ps[i]).Some?
    ensures Collect(disk, ps).Ok? ==>
              Paths(Collect(disk, ps).value) == KeptPaths(disk, ps) &&
              forall r :: r in Collect(disk, ps).value ==> Describes(disk, r)
    decreases |ps|
  {
    if ps != [] {
      var n := |ps| - 1;
      var init := ps[..n];
      assert init + [ps[n]] == ps;
      CollectRows(disk, init);
      CollectSucceedsStep(disk, init, ps[n]);
      CollectTableStep(disk, init, ps[n]);
    }
  }

  /** Appending one path keeps collect_file_info successful exactly when that path exists. */
  lemma CollectSucceedsStep(disk: Node, init: seq<Path>, p: Path)
    requires Collect(disk, init).Ok? <==> forall i :: 0 <= i < |init| ==> Find(disk, init[i]).Some?
    ensures Collect(disk, init + [p]).Ok? <==> forall i :: 0 <= i < |init + [p]| ==> Find(disk, (init + [p])[i]).Some?
  {
    var ps := init + [p];
    assert ps[..|ps| - 1] == init;
    assert forall i :: 0 <= i < |init| ==> ps[i] == init[i];
    assert ps[|init|] == p;
  }

  /** Appending one path appends its row, if it is kept, to the table and its path to KeptPaths. */
  lemma CollectTableStep(disk: Node, init: seq<Path>, p: Path)
    requires Collect(disk, init).Ok? ==>
               Paths(Collect(disk, init).value) == KeptPaths(disk, init) &&
               forall r :: r in Collect(disk, init).value ==> Describes(disk, r)
    ensures Collect(disk, init + [p]).Ok? ==>
              Paths(Collect(disk, init + [p]).value) == KeptPaths(disk, init + [p]) &&
              forall r :: r in Collect(disk, init + [p]).value ==> Describes(disk, r)
  {
    var ps := init + [p];
    assert ps[..|ps| - 1] == init;
    assert ps[|ps| - 1] == p;
    KeptPathsSnoc(disk, init, p);
    if Collect(disk, init).Ok? && Entry(disk, p).Ok? && Entry(disk, p).value.Some? {
      PathsSnoc(Collect(disk, init).value, Entry(disk, p).value.value);
    }
  }

  /** Keeping some of a list of distinct paths leaves distinct paths of the list. */
  lemma {:induction false} KeptPathsDistinct(disk: Node, ps: seq<Path>)
    requires Distinct(ps)
    ensures Distinct(KeptPaths(disk, ps))
    ensures forall p :: p in KeptPaths(disk, ps) ==> p in ps
  {
    if ps != [] {
      assert ps == [ps[0]] + ps[1..];
      DistinctCons(ps[0], ps[1..]);
      KeptPathsDistinct(disk, ps[1..]);
      if Kept(disk, ps[0]) {
        DistinctCons(ps[0], KeptPaths(disk, ps[1..]));
      }
    }
  }

  /** Given distinct paths, collect_file_info builds a table with one row per file: no two rows share a path. */
  lemma CollectOnePerPath(disk: Node, ps: seq<Path>)
    requires Distinct(ps) && Collect(disk, ps).Ok?
    ensures UniqueIds(Collect(disk, ps).value, PathKey)
  {
    CollectRows(disk, ps);
    KeptPathsDistinct(disk, ps);
    var rs := Collect(disk, ps).value;
    assert forall i :: 0 <= i < |rs| ==> PathKey(rs[i]) == Paths(rs)[i];
  }

  /** The index of the first path that does not exist. */
  function FirstMissing(disk: Node, ps: seq<Path>): (i: nat)
    requires exists i :: 0 <= i < |ps| && Find(disk, ps[i]).None?
    ensures i < |ps| && Find(disk, ps[i]).None?
    ensures forall j :: 0 <= j < i ==> Find(disk, ps[j]).Some?
  {
    if Find(disk, ps[0]).None? then 0
    else
      assert exists i :: 0 <= i < |ps[1..]| && Find(disk, ps[1..][i]).None? by {
        var i :| 0 <= i < |ps| && Find(disk, ps[i]).None?;
        assert ps[1..][i - 1] == ps[i];
      }
      1 + FirstMissing(disk, ps[1..])
  }

  /** An exception in collect_file_info reports the first path that does not exist. */
  lemma {:induction false} CollectError(disk: Node, ps: seq<Path>)
    requires Collect(disk, ps).Err?
    ensures exists i :: 0 <= i < |ps| && Find(disk, ps[i]).None?
    ensures Collect(disk, ps).error == StatFailed(ps[FirstMissing(disk, ps)])
    decreases |ps|
  {
    var n := |ps| - 1;
    var init := ps[..n];
    assert forall i :: 0 <= i < n ==> init[i] == ps[i];
    if Collect(disk, init).Err? {
      CollectError(disk, init);
      var k := FirstMissing(disk, init);
      assert Find(disk, ps[k]).None?;
      FirstMissingUnique(disk, ps, k);
    } else {
      CollectRows(disk, init);
      FirstMissingUnique(disk, ps, n);
    }
  }

  lemma FirstMissingUnique(disk: Node, ps: seq<Path>, k: nat)
    requires k < |ps| && Find(disk, ps[k]).None?
    requires forall j :: 0 <= j < k ==> Find(disk, ps[j]).Some?
    ensures FirstMissing(disk, ps) == k
  {
  }

  /** Collecting two lists in turn and concatenating is collecting their concatenation. */
  lemma {:induction false} CollectAppend(disk: Node, a: seq<Path>, b: seq<Path>)
    ensures Collect(disk, a + b) == Join(Collect(disk, a), Collect(disk, b))
    decreases |b|
  {
    if b == [] {
      assert a + b == a;
      if Collect(disk, a).Ok? {
        assert Collect(disk, a).value + [] == Collect(disk, a).value;
      }
    } else {
      var n := |b| - 1;
      assert (a + b)[..|a + b| - 1] == a + b[..n];
      assert (a + b)[|a + b| - 1] == b[n];
      CollectAppend(disk, a, b[..n]);
      match Collect(disk, a)
      case Err(_) =>
      case Ok(x) =>
        match Collect(disk, b[..n])
        case Err(_) =>
        case Ok(y) =>
          match Entry(disk, b[n])
          case Err(_) =>
          case Ok(None) =>
          case Ok(Some(r)) =>
            assert x + (y + [r]) == (x + y) + [r];
    }
  }

  /** Once collect_file_info raises on a prefix, it raises the same on the whole list. */
  lemma CollectStopsAtError(disk: Node, ps: seq<Path>, i: nat)
    requires i <= |ps| && Collect(disk, ps[..i]).Err?
    ensures Collect(disk, ps) == Collect(disk, ps[..i])
  {
    assert ps[..i] + ps[i..] == ps;
    CollectAppend(disk, ps[..i], ps[i..]);
  }

  // ---------------------------------------------------------------------------
  // calc_md5 over the file_path column

  /** A path calc_md5 can open and read. */
  predicate Hashable(disk: Node, p: Path)
  {
    Find(disk, p).Some? && Find(disk, p).value.File? && Find(disk, p).value.readable
  }

  /** df['md5'] = df['file_path'].apply(calc_md5), row after row. */
  function HashAll(disk: Node, md5: Content -> Digest, rows: seq<FileRecord>): Result<seq<HashedRecord>, Error>
  {
    if rows == [] then Ok([])
    else if !Hashable(disk, rows[0].path) then Err(HashFailed(rows[0].path))
    else
      match HashAll(disk, md5, rows[1..])
      case Err(e) => Err(e)
      case Ok(hs) => Ok([HashedRecord(rows[0], md5(Find(disk, rows[0].path).value.content))] + hs)
  }

  /** Hashing keeps the number of rows. */
  lemma {:induction false} HashAllLength(disk: Node, md5: Content -> Digest, rows: seq<FileRecord>)
    ensures HashAll(disk, md5, rows).Ok? ==> |HashAll(disk, md5, rows).value| == |rows|
  {
    if rows != [] {
      HashAllLength(disk, md5, rows[1..]);
    }
  }

  /** Every row gets the digest of its file's bytes, in the table's order, exactly when every file can be read. */
  lemma {:induction false} HashAllMeaning(disk: Node, md5: Content -> Digest, rows: seq<FileRecord>)
    ensures HashAll(disk, md5, rows).Ok? <==> forall i :: 0 <= i < |rows| ==> Hashable(disk, rows[i].path)
    ensures HashAll(disk, md5, rows).Ok? ==>
              var hs := HashAll(disk, md5, rows).value;
              && |hs| == |rows|
              && forall i :: 0 <= i < |rows| ==>
                   hs[i].file == rows[i] && hs[i].md5 == md5(Find(disk, rows[i].path).value.content)
  {
    if rows != [] {
      HashAllMeaning(disk, md5, rows[1..]);
      assert forall i :: 1 <= i < |rows| ==> rows[1..][i - 1] == rows[i];
    }
  }

  /** When hashing raises, it is for the first row whose file cannot be read. */
  lemma {:induction false} HashAllError(disk: Node, md5: Content -> Digest, rows: seq<FileRecord>)
    ensures HashAll(disk, md5, rows).Err? ==>
              exists i :: 0 <= i < |rows| && !Hashable(disk, rows[i].path) &&
                HashAll(disk, md5, rows).error == HashFailed(rows[i].path) &&
                forall j :: 0 <= j < i ==> Hashable(disk, rows[j].path)
  {
    if rows != [] {
      HashAllError(disk, md5, rows[1..]);
      var r := HashAll(disk, md5, rows);
      if Hashable(disk, rows[0].path) && r.Err? {
        var i' :| 0 <= i' < |rows[1..]| && !Hashable(disk, rows[1..][i'].path) &&
                  r.error == HashFailed(rows[1..][i'].path) &&
                  forall j :: 0 <= j < i' ==> Hashable(disk, rows[1..][j].path);
        var i := i' + 1;
        forall j | 0 <= j < i ensures Hashable(disk, rows[j].path) {
          if j > 0 {
            assert rows[j] == rows[1..][j - 1];
          }
        }
        assert !Hashable(disk, rows[i].path) && r.error == HashFailed(rows[i].path);
      }
    }
  }

  /** Adding the md5 column keeps one row per file. */
  lemma HashAllOnePerPath(disk: Node, md5: Content -> Digest, rows: seq<FileRecord>)
    requires UniqueIds(rows, PathKey) && HashAll(disk, md5, rows).Ok?
    ensures UniqueIds(HashAll(disk, md5, rows).value, HashedPathKey)
  {
    HashAllMeaning(disk, md5, rows);
  }
}

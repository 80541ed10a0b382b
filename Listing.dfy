/**
  The two ways the tool lists the files under the chosen path:
  - the library version's ScanFiles walks the tree with os.scandir, descending
    into a directory only when its name starts with neither '.' nor '$', and
    records the path of every other entry (hidden directories included);
  - the GUI version calls glob(path + '/' + '**', recursive=True), which yields the
    directory itself and then, depth first, every entry whose name does not
    start with '.', never looking inside a hidden directory.
  A directory that cannot be listed contributes nothing in either walk.
 */
module Listing {
  import opened Wrappers
  import opened FileTree
  import opened Sequences

  /** p is a path strictly below dir. */
  predicate Below(dir: Path, p: Path)
  {
    |dir| < |p| && p[..|dir|] == dir
  }

  // ---------------------------------------------------------------------------
  // ScanFiles.scan

  /** ScanFiles.scan descends into an entry only when it is a directory whose name starts with neither '.' nor '$'. */
  predicate Descends(e: Node)
  {
    e.Dir? && e.name[0] != '.' && e.name[0] != '$'
  }

  /** The paths scan(dir) appends, for the entry `node` found at dir. */
  function ScanList(dir: Path, node: Node): seq<Path>
    decreases node, 1
  {
    if node.Dir? && node.listable then ScanPrefix(dir, node, |node.children|) else []
  }

  /** The paths scan appends for the first i entries of a directory. */
  function ScanPrefix(dir: Path, node: Node, i: nat): seq<Path>
    requires node.Dir? && i <= |node.children|
    decreases node, 0, i
  {
    if i == 0 then []
    else
      var e := node.children[i - 1];
      ScanPrefix(dir, node, i - 1) + if Descends(e) then ScanList(dir + [e.name], e) else [dir + [e.name]]
  }

  /** ScanFiles(path).file_list: nothing when path does not exist (os.scandir raises and scan logs it). */
  function ScanAt(disk: Node, path: Path): seq<Path>
  {
    match Find(disk, path)
    case None => []
    case Some(n) => ScanList(path, n)
  }

  /** The entry `rel` is reached by scan from the directory `node`. */
  predicate Scanned(node: Node, rel: seq<string>)
    decreases node, 0
  {
    node.Dir? && node.listable && |rel| > 0 &&
    exists j :: 0 <= j < |node.children| && ScannedVia(node.children[j], rel)
  }

  /** The entry `rel` is reached by scan through the directory entry e: e itself when scan does not descend into it, or an entry scan reaches inside it. */
  predicate ScannedVia(e: Node, rel: seq<string>)
    decreases e, 1
  {
    |rel| > 0 && e.name == rel[0] && if Descends(e) then Scanned(e, rel[1..]) else |rel| == 1
  }

  /** The list ScanFiles builds. */
  class ScanFiles {
    var fileList: seq<Path>

    /** ScanFiles(path): scans the entry found at path. */
    constructor (disk: Node, path: Path)
      ensures fileList == ScanAt(disk, path)
    {
      fileList := [];
      new;
      var found := Find(disk, path);
      if found.Some? {
        Scan(path, found.value);
      }
    }

    /** scan(dir), where `node` is the entry at dir. */
    method Scan(dir: Path, node: Node)
      modifies this
      ensures fileList == old(fileList) + ScanList(dir, node)
      decreases node
    {
      if node.Dir? && node.listable {
        var i := 0;
        while i < |node.children|
          invariant 0 <= i <= |node.children|
          invariant fileList == old(fileList) + ScanPrefix(dir, node, i)
        {
          var e := node.children[i];
          ghost var before := fileList;
          if Descends(e) {
            Scan(dir + [e.name], e);
          } else {
            fileList := fileList + [dir + [e.name]];
          }
          assert fileList == before + (if Descends(e) then ScanList(dir + [e.name], e) else [dir + [e.name]]);
          i := i + 1;
        }
      }
    }
  }

  lemma BelowStep(dir: Path, name: string, p: Path)
    ensures Below(dir + [name], p) <==> Below(dir, p) && |p| > |dir| + 1 && p[|dir|] == name
    ensures Below(dir + [name], p) ==> p[|dir| + 1..] == p[|dir|..][1..]
  {
    if Below(dir, p) && |p| > |dir| + 1 && p[|dir|] == name {
      assert p[..|dir| + 1] == p[..|dir|] + [p[|dir|]];
    }
    if Below(dir + [name], p) {
      assert p[..|dir|] == p[..|dir| + 1][..|dir|];
    }
  }

  /**
    scan lists exactly the entries it reaches: a path is in the list if and
    only if it lies below the scanned directory and is reached by descending
    only into non-hidden, listable directories, ending at an entry scan does
    not descend into.
   */
  lemma {:induction false} ScanListMeaning(dir: Path, node: Node)
    ensures forall p :: p in ScanList(dir, node) <==> Below(dir, p) && Scanned(node, p[|dir|..])
    decreases node, 1
  {
    if node.Dir? && node.listable {
      ScanPrefixMeaning(dir, node, |node.children|);
    }
  }

  lemma {:induction false} ScanPrefixMeaning(dir: Path, node: Node, i: nat)
    requires node.Dir? && i <= |node.children|
    ensures forall p :: p in ScanPrefix(dir, node, i) <==>
              Below(dir, p) && exists j :: 0 <= j < i && ScannedVia(node.children[j], p[|dir|..])
    decreases node, 0, i
  {
    if i > 0 {
      var e := node.children[i - 1];
      ScanPrefixMeaning(dir, node, i - 1);
      if Descends(e) {
        ScanListMeaning(dir + [e.name], e);
      }
      forall p
        ensures p in ScanPrefix(dir, node, i) <==>
                Below(dir, p) && exists j :: 0 <= j < i && ScannedVia(node.children[j], p[|dir|..])
      {
        BelowStep(dir, e.name, p);
        if p == dir + [e.name] {
          assert p[..|dir|] == dir && p[|dir|..] == [e.name];
        }
        if Below(dir, p) && ScannedVia(e, p[|dir|..]) && !Descends(e) {
          assert p == p[..|dir|] + p[|dir|..];
        }
      }
    }
  }

  /** scan never lists anything inside a directory whose name starts with '.' or '$'. */
  lemma {:induction false} ScannedSkipsHidden(node: Node, rel: seq<string>)
    requires Scanned(node, rel)
    ensures forall k :: 0 <= k < |rel| - 1 ==> |rel[k]| > 0 && rel[k][0] != '.' && rel[k][0] != '$'
    decreases node
  {
    var j :| 0 <= j < |node.children| && ScannedVia(node.children[j], rel);
    var e := node.children[j];
    if Descends(e) {
      ScannedSkipsHidden(e, rel[1..]);
      forall k | 1 <= k < |rel| - 1 ensures |rel[k]| > 0 && rel[k][0] != '.' && rel[k][0] != '$' {
        assert rel[k] == rel[1..][k - 1];
      }
    }
  }

  /** Every entry of a listable directory that scan does not descend into, hidden directories included, is listed itself. */
  lemma ScanListsEntry(dir: Path, node: Node, j: nat)
    requires node.Dir? && node.listable && j < |node.children| && !Descends(node.children[j])
    ensures dir + [node.children[j].name] in ScanList(dir, node)
  {
    var p := dir + [node.children[j].name];
    assert p[..|dir|] == dir && p[|dir|..] == [node.children[j].name];
    assert ScannedVia(node.children[j], p[|dir|..]);
    ScanListMeaning(dir, node);
  }

  /**
    On a tree whose directories hold distinct names, scan lists no path twice:
    the paths it finds below two entries of a directory differ in the name of
    the entry.
   */
  lemma {:induction false} ScanListDistinct(dir: Path, node: Node)
    requires WellFormed(node)
    ensures Distinct(ScanList(dir, node))
    ensures forall p :: p in ScanList(dir, node) ==> Below(dir, p)
    decreases node, 1
  {
    if node.Dir? && node.listable {
      ScanPrefixDistinct(dir, node, |node.children|);
    }
  }

  lemma {:induction false} ScanPrefixDistinct(dir: Path, node: Node, i: nat)
    requires WellFormed(node) && node.Dir? && i <= |node.children|
    ensures Distinct(ScanPrefix(dir, node, i))
    ensures forall p :: p in ScanPrefix(dir, node, i) ==>
              Below(dir, p) && exists j :: 0 <= j < i && node.children[j].name == p[|dir|]
    decreases node, 0, i
  {
    if i > 0 {
      var e := node.children[i - 1];
      var sub := dir + [e.name];
      var before := ScanPrefix(dir, node, i - 1);
      var added := if Descends(e) then ScanList(sub, e) else [sub];
      ScanPrefixDistinct(dir, node, i - 1);
      if Descends(e) {
        ScanListDistinct(sub, e);
      }
      assert sub[..|dir|] == dir && sub[|dir|] == e.name;
      forall p | p in added ensures Below(dir, p) && p[|dir|] == e.name {
        BelowStep(dir, e.name, p);
      }
      forall p: Path | p in before ensures p !in added {
        var j :| 0 <= j < i - 1 && node.children[j].name == p[|dir|];
        assert node.children[j].name != e.name;
      }
      DistinctAppend(before, added);
      forall p | p in ScanPrefix(dir, node, i)
        ensures Below(dir, p) && exists j :: 0 <= j < i && node.children[j].name == p[|dir|]
      {
        if p in added {
          assert node.children[i - 1].name == p[|dir|];
        }
      }
    }
  }

  /** ScanFiles(path).file_list names no file twice on a well-formed disk. */
  lemma ScanAtDistinct(disk: Node, path: Path)
    requires WellFormed(disk)
    ensures Distinct(ScanAt(disk, path))
  {
    if Find(disk, path).Some? {
      FindWellFormed(disk, path);
      ScanListDistinct(path, Find(disk, path).value);
    }
  }

  // ---------------------------------------------------------------------------
  // glob(path + '/' + '**', recursive=True)

  /** glob does not yield, and does not enter, entries whose name starts with '.'. */
  predicate Shown(e: Node)
  {
    e.name[0] != '.'
  }

  /** What the recursive wildcard yields below the entry `node` found at dir, depth first. */
  function GlobList(dir: Path, node: Node): seq<Path>
    decreases node, 1
  {
    if node.Dir? && node.listable then GlobPrefix(dir, node, |node.children|) else []
  }

  function GlobPrefix(dir: Path, node: Node, i: nat): seq<Path>
    requires node.Dir? && i <= |node.children|
    decreases node, 0, i
  {
    if i == 0 then []
    else
      var e := node.children[i - 1];
      GlobPrefix(dir, node, i - 1) + if Shown(e) then [dir + [e.name]] + GlobList(dir + [e.name], e) else []
  }

  /** glob(path + '/' + '**', recursive=True): the directory itself, then everything below it; nothing when path is not a directory. */
  function GlobAt(disk: Node, path: Path): seq<Path>
  {
    match Find(disk, path)
    case Some(n) => if n.Dir? then [path] + GlobList(path, n) else []
    case None => []
  }

  /** The entry `rel` is yielded by the recursive wildcard below the directory `node`. */
  predicate Globbed(node: Node, rel: seq<string>)
    decreases node, 0
  {
    node.Dir? && node.listable && |rel| > 0 &&
    exists j :: 0 <= j < |node.children| && GlobbedVia(node.children[j], rel)
  }

  predicate GlobbedVia(e: Node, rel: seq<string>)
    decreases e, 1
  {
    |rel| > 0 && e.name == rel[0] && Shown(e) && (|rel| == 1 || Globbed(e, rel[1..]))
  }

  /**
    glob yields exactly the entries below the directory that are reached
    through listable directories by names that do not start with '.'.
   */
  lemma {:induction false} GlobListMeaning(dir: Path, node: Node)
    ensures forall p :: p in GlobList(dir, node) <==> Below(dir, p) && Globbed(node, p[|dir|..])
    decreases node, 1
  {
    if node.Dir? && node.listable {
      GlobPrefixMeaning(dir, node, |node.children|);
    }
  }

  lemma {:induction false} GlobPrefixMeaning(dir: Path, node: Node, i: nat)
    requires node.Dir? && i <= |node.children|
    ensures forall p :: p in GlobPrefix(dir, node, i) <==>
              Below(dir, p) && exists j :: 0 <= j < i && GlobbedVia(node.children[j], p[|dir|..])
    decreases node, 0, i
  {
    if i > 0 {
      var e := node.children[i - 1];
      GlobPrefixMeaning(dir, node, i - 1);
      GlobListMeaning(dir + [e.name], e);
      forall p
        ensures p in GlobPrefix(dir, node, i) <==>
                Below(dir, p) && exists j :: 0 <= j < i && GlobbedVia(node.children[j], p[|dir|..])
      {
        BelowStep(dir, e.name, p);
        if p == dir + [e.name] {
          assert p[..|dir|] == dir && p[|dir|..] == [e.name];
        }
        if Below(dir, p) && GlobbedVia(e, p[|dir|..]) && |p[|dir|..]| == 1 {
          assert p == p[..|dir|] + p[|dir|..];
        }
      }
    }
  }

  /** No name on a path glob yields below the directory starts with '.'. */
  lemma {:induction false} GlobbedHidesDotNames(node: Node, rel: seq<string>)
    requires Globbed(node, rel)
    ensures forall k :: 0 <= k < |rel| ==> |rel[k]| > 0 && rel[k][0] != '.'
    decreases node
  {
    var j :| 0 <= j < |node.children| && GlobbedVia(node.children[j], rel);
    var e := node.children[j];
    if |rel| > 1 {
      GlobbedHidesDotNames(e, rel[1..]);
      forall k | 1 <= k < |rel| ensures |rel[k]| > 0 && rel[k][0] != '.' {
        assert rel[k] == rel[1..][k - 1];
      }
    }
  }

  /** On a well-formed tree the recursive wildcard yields no path twice. */
  lemma {:induction false} GlobListDistinct(dir: Path, node: Node)
    requires WellFormed(node)
    ensures Distinct(GlobList(dir, node))
    ensures forall p :: p in GlobList(dir, node) ==> Below(dir, p)
    decreases node, 1
  {
    if node.Dir? && node.listable {
      GlobPrefixDistinct(dir, node, |node.children|);
    }
  }

  lemma {:induction false} GlobPrefixDistinct(dir: Path, node: Node, i: nat)
    requires WellFormed(node) && node.Dir? && i <= |node.children|
    ensures Distinct(GlobPrefix(dir, node, i))
    ensures forall p :: p in GlobPrefix(dir, node, i) ==>
              Below(dir, p) && exists j :: 0 <= j < i && node.children[j].name == p[|dir|]
    decreases node, 0, i
  {
    if i > 0 {
      var e := node.children[i - 1];
      var sub := dir + [e.name];
      var before := GlobPrefix(dir, node, i - 1);
      var added := if Shown(e) then [sub] + GlobList(sub, e) else [];
      GlobPrefixDistinct(dir, node, i - 1);
      GlobListDistinct(sub, e);
      DistinctCons(sub, GlobList(sub, e));
      assert sub[..|dir|] == dir && sub[|dir|] == e.name;
      forall p | p in added ensures Below(dir, p) && p[|dir|] == e.name {
        BelowStep(dir, e.name, p);
      }
      forall p: Path | p in before ensures p !in added {
        var j :| 0 <= j < i - 1 && node.children[j].name == p[|dir|];
        assert node.children[j].name != e.name;
      }
      DistinctAppend(before, added);
      forall p | p in GlobPrefix(dir, node, i)
        ensures Below(dir, p) && exists j :: 0 <= j < i && node.children[j].name == p[|dir|]
      {
        if p in added {
          assert node.children[i - 1].name == p[|dir|];
        }
      }
    }
  }

  /** glob(path + '/' + '**', recursive=True) names no file twice on a well-formed disk. */
  lemma GlobAtDistinct(disk: Node, path: Path)
    requires WellFormed(disk)
    ensures Distinct(GlobAt(disk, path))
  {
    if Find(disk, path).Some? && Find(disk, path).value.Dir? {
      FindWellFormed(disk, path);
      GlobListDistinct(path, Find(disk, path).value);
      DistinctCons(path, GlobList(path, Find(disk, path).value));
    }
  }
}

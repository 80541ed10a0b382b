/**
  The file system the tool works on, as a value: one directory tree (the disk)
  whose files carry their bytes and their creation and modification times, and
  whose paths are the names from the top of the disk down; plus the log of what
  the tool deleted from it.
 */
module FileTree {
  import opened Wrappers
  import opened Sequences

  /** A directory entry's name; a real file system never hands out an empty one. */
  type Name = s: string | |s| > 0 witness "a"

  /** A path, as the names from the top of the disk down to the entry. */
  type Path = seq<string>

  type Byte = bv8
  type Content = seq<Byte>

  /** An MD5 digest as the 128-bit number its 32-digit hex string spells. */
  type Digest = d: nat | d < 0x1_0000_0000_0000_0000_0000_0000_0000_0000

  /** One directory entry. `readable` says whether open() succeeds on a file,
      `listable` whether os.scandir succeeds on a directory. */
  datatype Node =
    | File(name: Name, content: Content, ctime: int, mtime: int, readable: bool)
    | Dir(name: Name, listable: bool, children: seq<Node>)

  /** What os.path.getsize reports for a file. */
  function Size(file: Node): nat
    requires file.File?
  {
    |file.content|
  }

  /** The index of the first child called `name`, if any. */
  function ChildIndex(kids: seq<Node>, name: string, from: nat): (r: Option<nat>)
    requires from <= |kids|
    ensures r.Some? ==> from <= r.value < |kids| && kids[r.value].name == name
    ensures r.Some? ==> forall j :: from <= j < r.value ==> kids[j].name != name
    ensures r.None? ==> forall j :: from <= j < |kids| ==> kids[j].name != name
    decreases |kids| - from
  {
    if from == |kids| then None
    else if kids[from].name == name then Some(from)
    else ChildIndex(kids, name, from + 1)
  }

  /**
    The entry `rel` names below `node`: the first child with each name, as a
    lookup by name finds it. On the whole disk it is what os.stat finds at a
    path, None where nothing is there.
   */
  function Find(node: Node, rel: seq<string>): Option<Node>
    decreases node
  {
    if rel == [] then Some(node)
    else if node.File? then None
    else match ChildIndex(node.children, rel[0], 0)
      case None => None
      case Some(i) => Find(node.children[i], rel[1..])
  }

  /**
    What every real file system guarantees and the tool takes for granted: the
    entries of a directory have distinct names, all the way down. Only then
    does each path name one entry.
   */
  predicate WellFormed(node: Node)
    decreases node
  {
    node.Dir? ==>
      && (forall i, j :: 0 <= i < j < |node.children| ==> node.children[i].name != node.children[j].name)
      && (forall i :: 0 <= i < |node.children| ==> WellFormed(node.children[i]))
  }

  /** Every entry of a well-formed tree is well formed. */
  lemma {:induction false} FindWellFormed(node: Node, rel: seq<string>)
    requires WellFormed(node) && Find(node, rel).Some?
    ensures WellFormed(Find(node, rel).value)
    decreases node
  {
    if rel != [] {
      var i := ChildIndex(node.children, rel[0], 0).value;
      FindWellFormed(node.children[i], rel[1..]);
    }
  }

  /**
    The deletions the tool has made: what send2trash was asked to move, what it
    moved, and what os.remove unlinked. Whether a single deletion succeeds (the
    file may be locked, already gone, or not ours) is not decided by the model:
    each call below may go either way.
   */
  class Deletions {
    var trashRequests: seq<Path>
    var trashed: seq<Path>
    var removed: seq<Path>

    constructor ()
      ensures trashRequests == [] && trashed == [] && removed == []
    {
      trashRequests, trashed, removed := [], [], [];
    }

    /** send2trash(p): moves p to the recycle bin, or raises; ok tells which. */
    method SendToTrash(p: Path) returns (ok: bool)
      modifies this
      ensures trashRequests == old(trashRequests) + [p]
      ensures trashed == if ok then old(trashed) + [p] else old(trashed)
      ensures removed == old(removed)
    {
      ok := *;
      trashRequests := trashRequests + [p];
      if ok {
        trashed := trashed + [p];
      }
    }

    /** os.remove(p): unlinks p, or raises; ok tells which. */
    method Remove(p: Path) returns (ok: bool)
      modifies this
      ensures removed == if ok then old(removed) + [p] else old(removed)
      ensures trashRequests == old(trashRequests) && trashed == old(trashed)
    {
      ok := *;
      if ok {
        removed := removed + [p];
      }
    }
  }

  /**
    Between two states of a Deletions log whose trash went from t0 to t1 while
    the paths in `added` were requested: the trash only grew, and what it
    gained is a subsequence of `added`. A file reaches the trash only through
    a request, once per request, in request order.
   */
  ghost predicate TrashFollows(t0: seq<Path>, t1: seq<Path>, added: seq<Path>)
  {
    t0 <= t1 && Subsequence(t1[|t0|..], added)
  }

  /** Requesting nothing leaves the trash as it is. */
  lemma TrashStays(t: seq<Path>)
    ensures TrashFollows(t, t, [])
  {
    assert t[|t|..] == Marked([], []);
  }

  /** One send2trash call: the trash gains the requested path or nothing. */
  lemma TrashStep(t: seq<Path>, p: Path, ok: bool)
    ensures TrashFollows(t, if ok then t + [p] else t, [p])
  {
    var t1 := if ok then t + [p] else t;
    assert t1[|t|..] == Marked([p], [ok]);
  }

  /** Steps that keep the trash in step with the requests compose. */
  lemma TrashTrans(t0: seq<Path>, t1: seq<Path>, a1: seq<Path>, t2: seq<Path>, a2: seq<Path>)
    requires TrashFollows(t0, t1, a1) && TrashFollows(t1, t2, a2)
    ensures TrashFollows(t0, t2, a1 + a2)
  {
    assert t2[|t0|..] == t1[|t0|..] + t2[|t1|..];
    SubsequenceAppend(t1[|t0|..], a1, t2[|t1|..], a2);
  }
}

/**
  sort_values(by=['create_date', 'modify_date'], ascending=True): rows ordered
  by creation time, then by modification time. pandas sorts on two columns with
  a stable lexicographic sort, so rows with equal times keep their order; the
  model is a stable insertion sort.
 */
module Ordering {
  import opened Records

  /** a comes no later than b in (create_date, modify_date) order. */
  predicate TimeLe(a: HashedRecord, b: HashedRecord)
  {
    a.file.ctime < b.file.ctime || (a.file.ctime == b.file.ctime && a.file.mtime <= b.file.mtime)
  }

  predicate Sorted(s: seq<HashedRecord>)
  {
    forall i, j :: 0 <= i < j < |s| ==> TimeLe(s[i], s[j])
  }

  /** Puts x in front of the first row it is not later than. */
  function Insert(x: HashedRecord, s: seq<HashedRecord>): seq<HashedRecord>
  {
    if s == [] then [x]
    else if TimeLe(x, s[0]) then [x] + s
    else [s[0]] + Insert(x, s[1..])
  }

  /** The rows in ascending (create_date, modify_date) order, ties in their original order. */
  function SortByTime(xs: seq<HashedRecord>): seq<HashedRecord>
  {
    if xs == [] then [] else Insert(xs[0], SortByTime(xs[1..]))
  }

  lemma {:induction false} InsertPermutes(x: HashedRecord, s: seq<HashedRecord>)
    ensures multiset(Insert(x, s)) == multiset(s) + multiset{x}
    ensures |Insert(x, s)| == |s| + 1
  {
    if s != [] && !TimeLe(x, s[0]) {
      InsertPermutes(x, s[1..]);
      assert s == [s[0]] + s[1..];
    }
  }

  lemma {:induction false} InsertSorted(x: HashedRecord, s: seq<HashedRecord>)
    requires Sorted(s)
    ensures Sorted(Insert(x, s))
  {
    if s != [] && !TimeLe(x, s[0]) {
      var t := Insert(x, s[1..]);
      InsertSorted(x, s[1..]);
      InsertPermutes(x, s[1..]);
      var r := [s[0]] + t;
      forall j | 0 <= j < |t| ensures TimeLe(s[0], t[j]) {
        assert t[j] in multiset(t);
        if t[j] != x {
          assert t[j] in multiset(s[1..]);
          var k :| 0 <= k < |s[1..]| && s[1..][k] == t[j];
          assert s[k + 1] == t[j];
        }
      }
      forall i, j | 0 <= i < j < |r| ensures TimeLe(r[i], r[j]) {
        assert r[j] == t[j - 1];
        if i > 0 {
          assert r[i] == t[i - 1];
        }
      }
    }
  }

  /**
    Sorting yields the rows in ascending (create_date, modify_date) order and
    keeps every row: the result is a permutation of the input.
   */
  lemma {:induction false} SortByTimeSorts(xs: seq<HashedRecord>)
    ensures Sorted(SortByTime(xs))
    ensures multiset(SortByTime(xs)) == multiset(xs)
    ensures |SortByTime(xs)| == |xs|
  {
    if xs != [] {
      SortByTimeSorts(xs[1..]);
      InsertSorted(xs[0], SortByTime(xs[1..]));
      InsertPermutes(xs[0], SortByTime(xs[1..]));
      assert xs == [xs[0]] + xs[1..];
    }
  }

  /** The rows created at c and modified at m, in their order. */
  function AtTime(xs: seq<HashedRecord>, c: int, m: int): seq<HashedRecord>
  {
    if xs == [] then []
    else if xs[0].file.ctime == c && xs[0].file.mtime == m then [xs[0]] + AtTime(xs[1..], c, m)
    else AtTime(xs[1..], c, m)
  }

  lemma {:induction false} InsertAtTime(x: HashedRecord, s: seq<HashedRecord>, c: int, m: int)
    ensures AtTime(Insert(x, s), c, m)
         == if x.file.ctime == c && x.file.mtime == m then [x] + AtTime(s, c, m) else AtTime(s, c, m)
  {
    if s != [] && !TimeLe(x, s[0]) {
      InsertAtTime(x, s[1..], c, m);
    }
  }

  /**
    The sort is stable: for every pair of times, the rows with exactly those
    times come out in the order they went in. Which of several equally old
    copies survives is therefore decided by the input order.
   */
  lemma {:induction false} SortByTimeStable(xs: seq<HashedRecord>, c: int, m: int)
    ensures AtTime(SortByTime(xs), c, m) == AtTime(xs, c, m)
  {
    if xs != [] {
      SortByTimeStable(xs[1..], c, m);
      InsertAtTime(xs[0], SortByTime(xs[1..]), c, m);
    }
  }
}

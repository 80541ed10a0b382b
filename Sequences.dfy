/**
  Generic facts about sequences the rest of the model leans on: boolean
  indexing (Marked), subsequences, and sequences without repeated elements or
  repeated identifiers.
 */
module Sequences {

  /** df[flags == True]: the flagged rows, in order. */
  function Marked<T>(xs: seq<T>, flags: seq<bool>): seq<T>
    requires |flags| == |xs|
  {
    if xs == [] then []
    else if flags[0] then [xs[0]] + Marked(xs[1..], flags[1..])
    else Marked(xs[1..], flags[1..])
  }

  /** The flagged rows are rows of the table: boolean indexing never invents one. */
  lemma {:induction false} MarkedSubset<T>(xs: seq<T>, flags: seq<bool>)
    requires |flags| == |xs|
    ensures multiset(Marked(xs, flags)) <= multiset(xs)
    ensures |Marked(xs, flags)| <= |xs|
  {
    if xs != [] {
      MarkedSubset(xs[1..], flags[1..]);
      assert xs == [xs[0]] + xs[1..];
    }
  }

  lemma {:induction false} MarkedAppend<T>(a: seq<T>, fa: seq<bool>, b: seq<T>, fb: seq<bool>)
    requires |fa| == |a| && |fb| == |b|
    ensures Marked(a + b, fa + fb) == Marked(a, fa) + Marked(b, fb)
  {
    if a == [] {
      assert a + b == b && fa + fb == fb;
    } else {
      MarkedAppend(a[1..], fa[1..], b, fb);
      assert (a + b)[0] == a[0] && (fa + fb)[0] == fa[0];
      assert (a + b)[1..] == a[1..] + b;
      assert (fa + fb)[1..] == fa[1..] + fb;
    }
  }

  /** a is what remains of b once some of its elements are dropped: a subsequence of b. */
  ghost predicate Subsequence<T>(a: seq<T>, b: seq<T>)
  {
    exists flags: seq<bool> :: |flags| == |b| && a == Marked(b, flags)
  }

  /** A subsequence holds only elements of the sequence, and no more of them. */
  lemma SubsequenceWithin<T>(a: seq<T>, b: seq<T>)
    requires Subsequence(a, b)
    ensures |a| <= |b| && forall x :: x in a ==> x in b
  {
    var flags :| |flags| == |b| && a == Marked(b, flags);
    MarkedSubset(b, flags);
    forall x | x in a ensures x in b {
      assert x in multiset(a);
    }
  }

  /** Subsequences of two sequences concatenate to a subsequence of their concatenation. */
  lemma SubsequenceAppend<T>(a1: seq<T>, b1: seq<T>, a2: seq<T>, b2: seq<T>)
    requires Subsequence(a1, b1) && Subsequence(a2, b2)
    ensures Subsequence(a1 + a2, b1 + b2)
  {
    var f1 :| |f1| == |b1| && a1 == Marked(b1, f1);
    var f2 :| |f2| == |b2| && a2 == Marked(b2, f2);
    MarkedAppend(b1, f1, b2, f2);
    assert |f1 + f2| == |b1 + b2| && a1 + a2 == Marked(b1 + b2, f1 + f2);
  }

  /** Every flagged row is the row of a set flag. */
  lemma {:induction false} MarkedAt<T>(xs: seq<T>, flags: seq<bool>)
    requires |flags| == |xs|
    ensures forall x :: x in Marked(xs, flags) ==> exists i :: 0 <= i < |xs| && flags[i] && xs[i] == x
  {
    if xs != [] {
      MarkedAt(xs[1..], flags[1..]);
      forall x | x in Marked(xs, flags) ensures exists i :: 0 <= i < |xs| && flags[i] && xs[i] == x {
        if !(flags[0] && x == xs[0]) {
          assert x in Marked(xs[1..], flags[1..]);
          var i :| 0 <= i < |xs[1..]| && flags[1..][i] && xs[1..][i] == x;
          assert flags[i + 1] && xs[i + 1] == x;
        }
      }
    }
  }

  lemma AppendAssoc<T>(a: seq<T>, b: seq<T>, c: seq<T>)
    ensures a + b + c == a + (b + c)
  {
  }

  // ---------------------------------------------------------------------------
  // Sequences without repeats

  /** No element occurs twice. */
  ghost predicate Distinct<T>(s: seq<T>)
  {
    forall i, j :: 0 <= i < j < |s| ==> s[i] != s[j]
  }

  /** No two positions hold elements with the same identifier: each one names a single entry. */
  ghost predicate UniqueIds<T, K>(s: seq<T>, id: T -> K)
  {
    forall i, j :: 0 <= i < j < |s| ==> id(s[i]) != id(s[j])
  }

  lemma DistinctCons<T>(x: T, s: seq<T>)
    ensures Distinct([x] + s) <==> x !in s && Distinct(s)
  {
    var t := [x] + s;
    assert forall i :: 0 <= i < |s| ==> t[i + 1] == s[i];
    if x in s {
      var k :| 0 <= k < |s| && s[k] == x;
      assert t[0] == t[k + 1];
    }
  }

  /** Two sequences without repeats and with no element in common concatenate to one without repeats. */
  lemma DistinctAppend<T>(a: seq<T>, b: seq<T>)
    requires Distinct(a) && Distinct(b) && forall x :: x in a ==> x !in b
    ensures Distinct(a + b)
  {
    var t := a + b;
    forall i, j | 0 <= i < j < |t| ensures t[i] != t[j] {
      if j < |a| {
        assert t[i] == a[i] && t[j] == a[j];
      } else if i < |a| {
        assert t[i] == a[i] && a[i] in a;
        assert t[j] == b[j - |a|] && b[j - |a|] in b;
      } else {
        assert t[i] == b[i - |a|] && t[j] == b[j - |a|];
      }
    }
  }

  /** In a sequence without repeats every element occurs once. */
  lemma {:induction false} DistinctCount<T>(s: seq<T>)
    requires Distinct(s)
    ensures forall x :: multiset(s)[x] <= 1
  {
    if s != [] {
      assert s == [s[0]] + s[1..];
      DistinctCons(s[0], s[1..]);
      DistinctCount(s[1..]);
    }
  }

  /** An element at two positions occurs twice. */
  lemma RepeatCount<T>(s: seq<T>, i: nat, j: nat)
    requires i < j < |s| && s[i] == s[j]
    ensures multiset(s)[s[i]] >= 2
  {
    assert s == s[..j] + [s[j]] + s[j + 1..];
    assert s[..j][i] == s[i];
  }

  /** With unique identifiers, two elements with the same identifier are the same element. */
  lemma UniqueIdsSame<T, K>(s: seq<T>, id: T -> K, x: T, y: T)
    requires UniqueIds(s, id) && x in s && y in s && id(x) == id(y)
    ensures x == y
  {
    var i :| 0 <= i < |s| && s[i] == x;
    var j :| 0 <= j < |s| && s[j] == y;
    assert i == j;
  }

  /** Dropping and reordering elements keeps the identifiers unique. */
  lemma UniqueIdsWithin<T, K>(a: seq<T>, b: seq<T>, id: T -> K)
    requires UniqueIds(b, id) && multiset(a) <= multiset(b)
    ensures UniqueIds(a, id)
  {
    assert Distinct(b);
    DistinctCount(b);
    forall i, j | 0 <= i < j < |a| ensures id(a[i]) != id(a[j]) {
      if a[i] == a[j] {
        RepeatCount(a, i, j);
      } else {
        assert a[i] in multiset(a) && a[j] in multiset(a);
        assert a[i] in b && a[j] in b;
        if id(a[i]) == id(a[j]) {
          UniqueIdsSame(b, id, a[i], a[j]);
        }
      }
    }
  }
}

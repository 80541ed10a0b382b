/**
  The data-frame operations the tool's pipeline is made of, on a sequence of
  rows and an integer-valued column `key`:
  - groupby(key) iterates its groups in ascending key order, each group holding
    its rows in their original order (GroupBy);
  - groupby(key).filter(len(group) > 1) keeps, in their original order, the
    rows whose key occurs more than once (KeepShared);
  - pd.concat(g for g in groups if len(g) > 1) (Concat of SharedGroups);
  - duplicated(key, keep="first") (Duplicated), read with boolean indexing
    (Sequences.Marked).
  The functions are plain definitions; what they mean is stated by the lemmas
  after them.
 */
module Grouping {
  import opened Sequences

  /** The rows whose key is k, in their original order. */
  function WithKey<T>(xs: seq<T>, key: T -> int, k: int): seq<T>
  {
    if xs == [] then []
    else if key(xs[0]) == k then [xs[0]] + WithKey(xs[1..], key, k)
    else WithKey(xs[1..], key, k)
  }

  /** The rows whose key is not k, in their original order. */
  function WithoutKey<T>(xs: seq<T>, key: T -> int, k: int): seq<T>
  {
    if xs == [] then []
    else if key(xs[0]) != k then [xs[0]] + WithoutKey(xs[1..], key, k)
    else WithoutKey(xs[1..], key, k)
  }

  /** The distinct keys of the rows. */
  function KeySet<T(==,!new)>(xs: seq<T>, key: T -> int): set<int>
  {
    set x | x in xs :: key(x)
  }

  /** The smallest key of a non-empty table. */
  function MinKey<T(==,!new)>(xs: seq<T>, key: T -> int): (m: int)
    requires xs != []
    ensures m in KeySet(xs, key)
    ensures forall x :: x in xs ==> m <= key(x)
  {
    if |xs| == 1 then key(xs[0])
    else
      var m' := MinKey(xs[1..], key);
      assert forall x :: x in xs[1..] ==> x in xs;
      if key(xs[0]) <= m' then key(xs[0]) else m'
  }

  /** groupby(key): the groups, in ascending key order. */
  function GroupBy<T(==,!new)>(xs: seq<T>, key: T -> int): seq<seq<T>>
    decreases |xs|
  {
    if xs == [] then []
    else
      var m := MinKey(xs, key);
      KeyHasRows(xs, key, m);
      SplitSizes(xs, key, m);
      [WithKey(xs, key, m)] + GroupBy(WithoutKey(xs, key, m), key)
  }

  /** The rows whose key is in `keys`, in their original order. */
  function Select<T>(xs: seq<T>, key: T -> int, keys: set<int>): seq<T>
  {
    if xs == [] then []
    else if key(xs[0]) in keys then [xs[0]] + Select(xs[1..], key, keys)
    else Select(xs[1..], key, keys)
  }

  /** The keys that occur more than once. */
  function SharedKeys<T(==,!new)>(xs: seq<T>, key: T -> int): set<int>
  {
    set k | k in KeySet(xs, key) && |WithKey(xs, key, k)| > 1
  }

  /** groupby(key).filter(lambda group: len(group) > 1). */
  function KeepShared<T(==,!new)>(xs: seq<T>, key: T -> int): seq<T>
  {
    Select(xs, key, SharedKeys(xs, key))
  }

  /** The groups with more than one row, in their order. */
  function SharedGroups<T>(gs: seq<seq<T>>): seq<seq<T>>
  {
    if gs == [] then []
    else if |gs[0]| > 1 then [gs[0]] + SharedGroups(gs[1..])
    else SharedGroups(gs[1..])
  }

  /** pd.concat of a sequence of tables. */
  function Concat<T>(gs: seq<seq<T>>): seq<T>
  {
    if gs == [] then [] else gs[0] + Concat(gs[1..])
  }

  /** duplicated(key, keep="first") continued after rows whose keys are `seen`. */
  function DuplicatedAfter<T>(xs: seq<T>, key: T -> int, seen: set<int>): (d: seq<bool>)
    ensures |d| == |xs|
  {
    if xs == [] then []
    else [key(xs[0]) in seen] + DuplicatedAfter(xs[1..], key, seen + {key(xs[0])})
  }

  /** DataFrame.duplicated(key, keep="first"): a row is flagged when an earlier row has its key. */
  function Duplicated<T>(xs: seq<T>, key: T -> int): (d: seq<bool>)
    ensures |d| == |xs|
    ensures forall i :: 0 <= i < |xs| ==> (d[i] <==> exists j :: 0 <= j < i && key(xs[j]) == key(xs[i]))
  {
    DuplicatedAfterMeaning(xs, key, {});
    DuplicatedAfter(xs, key, {})
  }

  /** The index of the first row with key k. */
  function FirstIndex<T>(xs: seq<T>, key: T -> int, k: int): (i: nat)
    requires exists j :: 0 <= j < |xs| && key(xs[j]) == k
    ensures i < |xs| && key(xs[i]) == k
    ensures forall j :: 0 <= j < i ==> key(xs[j]) != k
  {
    if key(xs[0]) == k then 0
    else
      assert exists j :: 0 <= j < |xs[1..]| && key(xs[1..][j]) == k by {
        var j :| 0 <= j < |xs| && key(xs[j]) == k;
        assert key(xs[1..][j - 1]) == k;
      }
      1 + FirstIndex(xs[1..], key, k)
  }

  // ---------------------------------------------------------------------------
  // Membership and sizes

  lemma {:induction false} WithKeyMembers<T>(xs: seq<T>, key: T -> int, k: int)
    ensures forall x :: x in WithKey(xs, key, k) <==> x in xs && key(x) == k
  {
    if xs != [] {
      WithKeyMembers(xs[1..], key, k);
      assert xs == [xs[0]] + xs[1..];
    }
  }

  lemma {:induction false} WithoutKeyMembers<T>(xs: seq<T>, key: T -> int, k: int)
    ensures forall x :: x in WithoutKey(xs, key, k) <==> x in xs && key(x) != k
  {
    if xs != [] {
      WithoutKeyMembers(xs[1..], key, k);
      assert xs == [xs[0]] + xs[1..];
    }
  }

  lemma {:induction false} SelectMembers<T>(xs: seq<T>, key: T -> int, keys: set<int>)
    ensures forall x :: x in Select(xs, key, keys) <==> x in xs && key(x) in keys
  {
    if xs != [] {
      SelectMembers(xs[1..], key, keys);
      assert xs == [xs[0]] + xs[1..];
    }
  }

  /** Taking the rows of one key only drops rows. */
  lemma {:induction false} WithKeyWithin<T>(xs: seq<T>, key: T -> int, k: int)
    ensures multiset(WithKey(xs, key, k)) <= multiset(xs)
  {
    if xs != [] {
      WithKeyWithin(xs[1..], key, k);
      assert xs == [xs[0]] + xs[1..];
    }
  }

  /** Taking the rows of some keys only drops rows. */
  lemma {:induction false} SelectWithin<T>(xs: seq<T>, key: T -> int, keys: set<int>)
    ensures multiset(Select(xs, key, keys)) <= multiset(xs)
  {
    if xs != [] {
      SelectWithin(xs[1..], key, keys);
      assert xs == [xs[0]] + xs[1..];
    }
  }

  lemma {:induction false} SplitSizes<T>(xs: seq<T>, key: T -> int, k: int)
    ensures |WithKey(xs, key, k)| + |WithoutKey(xs, key, k)| == |xs|
  {
    if xs != [] {
      SplitSizes(xs[1..], key, k);
    }
  }

  lemma KeyHasRows<T(!new)>(xs: seq<T>, key: T -> int, k: int)
    requires k in KeySet(xs, key)
    ensures |WithKey(xs, key, k)| > 0
  {
    var x :| x in xs && key(x) == k;
    WithKeyMembers(xs, key, k);
    assert x in WithKey(xs, key, k);
  }

  lemma KeySetCons<T(!new)>(xs: seq<T>, key: T -> int)
    requires xs != []
    ensures KeySet(xs, key) == {key(xs[0])} + KeySet(xs[1..], key)
  {
    forall j | j in KeySet(xs, key) && j != key(xs[0]) ensures j in KeySet(xs[1..], key) {
      var x :| x in xs && key(x) == j;
      assert x in xs[1..];
    }
  }

  lemma KeySetWithout<T(!new)>(xs: seq<T>, key: T -> int, m: int)
    ensures KeySet(WithoutKey(xs, key, m), key) == KeySet(xs, key) - {m}
  {
    WithoutKeyMembers(xs, key, m);
    forall k | k in KeySet(xs, key) - {m} ensures k in KeySet(WithoutKey(xs, key, m), key) {
      var x :| x in xs && key(x) == k;
      assert x in WithoutKey(xs, key, m);
    }
  }

  lemma {:induction false} WithKeyAppend<T>(a: seq<T>, b: seq<T>, key: T -> int, k: int)
    ensures WithKey(a + b, key, k) == WithKey(a, key, k) + WithKey(b, key, k)
  {
    if a == [] {
      assert a + b == b;
    } else {
      assert (a + b)[0] == a[0];
      assert (a + b)[1..] == a[1..] + b;
      WithKeyAppend(a[1..], b, key, k);
      if key(a[0]) == k {
        assert [a[0]] + (WithKey(a[1..], key, k) + WithKey(b, key, k))
            == ([a[0]] + WithKey(a[1..], key, k)) + WithKey(b, key, k);
      }
    }
  }

  lemma {:induction false} SelectAppend<T>(a: seq<T>, b: seq<T>, key: T -> int, keys: set<int>)
    ensures Select(a + b, key, keys) == Select(a, key, keys) + Select(b, key, keys)
  {
    if a == [] {
      assert a + b == b;
    } else {
      assert (a + b)[0] == a[0];
      assert (a + b)[1..] == a[1..] + b;
      SelectAppend(a[1..], b, key, keys);
      if key(a[0]) in keys {
        assert [a[0]] + (Select(a[1..], key, keys) + Select(b, key, keys))
            == ([a[0]] + Select(a[1..], key, keys)) + Select(b, key, keys);
      }
    }
  }

  lemma {:induction false} WithKeyOfWithout<T>(xs: seq<T>, key: T -> int, m: int, k: int)
    requires k != m
    ensures WithKey(WithoutKey(xs, key, m), key, k) == WithKey(xs, key, k)
  {
    if xs != [] {
      WithKeyOfWithout(xs[1..], key, m, k);
      if key(xs[0]) != m {
        WithKeyAppend([xs[0]], WithoutKey(xs[1..], key, m), key, k);
      }
    }
  }

  /** Selecting keys and then one key gives that key's whole group, or nothing. */
  lemma {:induction false} WithKeyOfSelect<T>(xs: seq<T>, key: T -> int, keys: set<int>, k: int)
    ensures WithKey(Select(xs, key, keys), key, k) == if k in keys then WithKey(xs, key, k) else []
  {
    if xs != [] {
      WithKeyOfSelect(xs[1..], key, keys, k);
      if key(xs[0]) in keys {
        WithKeyAppend([xs[0]], Select(xs[1..], key, keys), key, k);
      }
    }
  }

  // ---------------------------------------------------------------------------
  // The size (or digest) filter

  /**
    The filter keeps a row exactly when another row has its key: every kept
    row shares its key, and no row with a unique key survives.
   */
  lemma KeepSharedMembers<T(!new)>(xs: seq<T>, key: T -> int)
    ensures forall x :: x in KeepShared(xs, key) <==> x in xs && |WithKey(xs, key, key(x))| > 1
  {
    SelectMembers(xs, key, SharedKeys(xs, key));
  }

  /**
    The filter is an exact partition by key: for every key, the filtered table
    holds all of that key's rows, in order, when the key occurs more than once
    in the input, and none of them otherwise.
   */
  lemma KeepSharedExact<T(!new)>(xs: seq<T>, key: T -> int, k: int)
    ensures WithKey(KeepShared(xs, key), key, k) == if |WithKey(xs, key, k)| > 1 then WithKey(xs, key, k) else []
  {
    WithKeyOfSelect(xs, key, SharedKeys(xs, key), k);
    if |WithKey(xs, key, k)| > 1 {
      WithKeyMembers(xs, key, k);
      var x := WithKey(xs, key, k)[0];
      assert x in WithKey(xs, key, k);
      assert k in KeySet(xs, key);
    }
  }

  /** The filter leaves nothing exactly when no key occurs twice. */
  lemma KeepSharedEmpty<T(!new)>(xs: seq<T>, key: T -> int)
    ensures KeepShared(xs, key) == [] <==> forall x :: x in xs ==> |WithKey(xs, key, key(x))| <= 1
  {
    KeepSharedMembers(xs, key);
    if KeepShared(xs, key) != [] {
      assert KeepShared(xs, key)[0] in KeepShared(xs, key);
    }
  }

  // ---------------------------------------------------------------------------
  // groupby

  /** One step of groupby: the group of the smallest key, then the groups of the other rows. */
  lemma GroupByStep<T(!new)>(xs: seq<T>, key: T -> int)
    requires xs != []
    ensures |WithKey(xs, key, MinKey(xs, key))| > 0
    ensures |WithoutKey(xs, key, MinKey(xs, key))| < |xs|
    ensures GroupBy(xs, key) == [WithKey(xs, key, MinKey(xs, key))] + GroupBy(WithoutKey(xs, key, MinKey(xs, key)), key)
  {
    KeyHasRows(xs, key, MinKey(xs, key));
    SplitSizes(xs, key, MinKey(xs, key));
  }

  /** Every group of groupby is non-empty and is all the rows of its key, in their original order. */
  lemma {:induction false} GroupByGroups<T(!new)>(xs: seq<T>, key: T -> int)
    ensures forall g :: g in GroupBy(xs, key) ==> g != [] && g == WithKey(xs, key, key(g[0]))
    decreases |xs|
  {
    if xs != [] {
      var m := MinKey(xs, key);
      var w := WithKey(xs, key, m);
      var rest := WithoutKey(xs, key, m);
      GroupByStep(xs, key);
      GroupByGroups(rest, key);
      WithKeyMembers(xs, key, m);
      assert w[0] in w;
      forall g | g in GroupBy(rest, key) ensures g == WithKey(xs, key, key(g[0])) {
        WithKeyMembers(rest, key, key(g[0]));
        assert g[0] in g;
        WithoutKeyMembers(xs, key, m);
        WithKeyOfWithout(xs, key, m, key(g[0]));
      }
    }
  }

  /** Non-empty groups whose keys strictly ascend. */
  predicate Ascending<T>(gs: seq<seq<T>>, key: T -> int)
  {
    forall i, j :: 0 <= i < j < |gs| ==> gs[i] != [] && gs[j] != [] && key(gs[i][0]) < key(gs[j][0])
  }

  lemma AscendingCons<T>(g: seq<T>, gs: seq<seq<T>>, key: T -> int)
    requires g != [] && Ascending(gs, key)
    requires forall h :: h in gs ==> h != [] && key(g[0]) < key(h[0])
    ensures Ascending([g] + gs, key)
  {
    var r := [g] + gs;
    forall i, j | 0 <= i < j < |r| ensures r[i] != [] && r[j] != [] && key(r[i][0]) < key(r[j][0]) {
      assert r[j] == gs[j - 1] && r[j] in gs;
      if i > 0 {
        assert r[i] == gs[i - 1];
      }
    }
  }

  /** After the smallest key's group, every group has a larger key. */
  lemma GroupsAboveMin<T(!new)>(xs: seq<T>, key: T -> int)
    requires xs != []
    ensures forall g :: g in GroupBy(WithoutKey(xs, key, MinKey(xs, key)), key) ==> g != [] && MinKey(xs, key) < key(g[0])
  {
    var m := MinKey(xs, key);
    var rest := WithoutKey(xs, key, m);
    GroupByGroups(rest, key);
    forall g | g in GroupBy(rest, key) ensures g != [] && m < key(g[0]) {
      WithKeyMembers(rest, key, key(g[0]));
      assert g[0] in g;
      WithoutKeyMembers(xs, key, m);
    }
  }

  /** groupby visits its groups in strictly ascending key order. */
  lemma {:induction false} GroupByAscending<T(!new)>(xs: seq<T>, key: T -> int)
    ensures Ascending(GroupBy(xs, key), key)
    decreases |xs|
  {
    if xs == [] {
      assert GroupBy(xs, key) == [];
    } else {
      var m := MinKey(xs, key);
      var w := WithKey(xs, key, m);
      var rest := WithoutKey(xs, key, m);
      GroupByStep(xs, key);
      WithKeyMembers(xs, key, m);
      assert w[0] in w;
      GroupByAscending(rest, key);
      GroupsAboveMin(xs, key);
      AscendingCons(w, GroupBy(rest, key), key);
    }
  }

  lemma {:induction false} SplitByKey<T>(xs: seq<T>, key: T -> int, m: int)
    ensures multiset(WithKey(xs, key, m)) + multiset(WithoutKey(xs, key, m)) == multiset(xs)
  {
    if xs != [] {
      SplitByKey(xs[1..], key, m);
      assert xs == [xs[0]] + xs[1..];
    }
  }

  lemma {:induction false} ConcatPermutation<T(!new)>(xs: seq<T>, key: T -> int)
    ensures multiset(Concat(GroupBy(xs, key))) == multiset(xs)
    decreases |xs|
  {
    if xs != [] {
      var m := MinKey(xs, key);
      var rest := WithoutKey(xs, key, m);
      GroupByStep(xs, key);
      assert GroupBy(xs, key)[1..] == GroupBy(rest, key);
      ConcatPermutation(rest, key);
      SplitByKey(xs, key, m);
    }
  }

  lemma {:induction false} GroupCount<T(!new)>(xs: seq<T>, key: T -> int)
    ensures |GroupBy(xs, key)| == |KeySet(xs, key)|
    decreases |xs|
  {
    if xs != [] {
      var m := MinKey(xs, key);
      var rest := WithoutKey(xs, key, m);
      GroupByStep(xs, key);
      GroupCount(rest, key);
      KeySetWithout(xs, key, m);
      assert KeySet(xs, key) == {m} + KeySet(rest, key);
    }
  }

  /** groupby yields one group per distinct key, and together they are the whole table. */
  lemma GroupByCovers<T(!new)>(xs: seq<T>, key: T -> int)
    ensures |GroupBy(xs, key)| == |KeySet(xs, key)|
    ensures multiset(Concat(GroupBy(xs, key))) == multiset(xs)
  {
    GroupCount(xs, key);
    ConcatPermutation(xs, key);
  }

  // ---------------------------------------------------------------------------
  // pd.concat(g for g in groups if len(g) > 1)

  lemma {:induction false} SelectSplitByKey<T>(xs: seq<T>, key: T -> int, keys: set<int>, m: int)
    ensures multiset(Select(xs, key, keys))
         == multiset(Select(WithKey(xs, key, m), key, keys)) + multiset(Select(WithoutKey(xs, key, m), key, keys))
  {
    if xs != [] {
      SelectSplitByKey(xs[1..], key, keys, m);
      if key(xs[0]) == m {
        SelectAppend([xs[0]], WithKey(xs[1..], key, m), key, keys);
      } else {
        SelectAppend([xs[0]], WithoutKey(xs[1..], key, m), key, keys);
      }
    }
  }

  lemma {:induction false} SelectSame<T>(xs: seq<T>, key: T -> int, a: set<int>, b: set<int>)
    requires forall x :: x in xs ==> (key(x) in a <==> key(x) in b)
    ensures Select(xs, key, a) == Select(xs, key, b)
  {
    if xs != [] {
      assert forall x :: x in xs[1..] ==> x in xs;
      SelectSame(xs[1..], key, a, b);
    }
  }

  lemma {:induction false} SelectAllOrNone<T>(xs: seq<T>, key: T -> int, keys: set<int>, m: int)
    requires forall x :: x in xs ==> key(x) == m
    ensures Select(xs, key, keys) == if m in keys then xs else []
  {
    if xs != [] {
      assert forall x :: x in xs[1..] ==> x in xs;
      SelectAllOrNone(xs[1..], key, keys, m);
      assert xs == [xs[0]] + xs[1..];
    }
  }

  lemma SharedKeysStep<T(!new)>(xs: seq<T>, key: T -> int, m: int)
    requires m in KeySet(xs, key)
    ensures SharedKeys(xs, key)
         == (if |WithKey(xs, key, m)| > 1 then {m} else {}) + SharedKeys(WithoutKey(xs, key, m), key)
    ensures m !in SharedKeys(WithoutKey(xs, key, m), key)
  {
    var rest := WithoutKey(xs, key, m);
    KeySetWithout(xs, key, m);
    forall k | k != m ensures WithKey(rest, key, k) == WithKey(xs, key, k) {
      WithKeyOfWithout(xs, key, m, k);
    }
  }

  lemma SharedSelectStep<T(!new)>(xs: seq<T>, key: T -> int, m: int)
    requires m in KeySet(xs, key)
    ensures multiset(KeepShared(xs, key))
         == (if |WithKey(xs, key, m)| > 1 then multiset(WithKey(xs, key, m)) else multiset{})
          + multiset(KeepShared(WithoutKey(xs, key, m), key))
  {
    var w := WithKey(xs, key, m);
    var rest := WithoutKey(xs, key, m);
    var s := SharedKeys(xs, key);
    SharedKeysStep(xs, key, m);
    WithoutKeyMembers(xs, key, m);
    SelectSame(rest, key, s, SharedKeys(rest, key));
    SelectSplitByKey(xs, key, s, m);
    WithKeyMembers(xs, key, m);
    SelectAllOrNone(w, key, s, m);
  }

  lemma ConcatCons<T>(g: seq<T>, gs: seq<seq<T>>)
    ensures Concat([g] + gs) == g + Concat(gs)
  {
    assert ([g] + gs)[0] == g;
    assert ([g] + gs)[1..] == gs;
  }

  lemma SharedGroupsCons<T>(g: seq<T>, gs: seq<seq<T>>)
    ensures SharedGroups([g] + gs) == (if |g| > 1 then [g] else []) + SharedGroups(gs)
  {
    assert ([g] + gs)[0] == g;
    assert ([g] + gs)[1..] == gs;
  }

  /**
    The concatenation of the groups with more than one row holds exactly the
    rows the filter keeps (in another order).
   */
  lemma {:induction false} SharedGroupsAreKeepShared<T(!new)>(xs: seq<T>, key: T -> int)
    ensures multiset(Concat(SharedGroups(GroupBy(xs, key)))) == multiset(KeepShared(xs, key))
    decreases |xs|
  {
    if xs != [] {
      var m := MinKey(xs, key);
      var w := WithKey(xs, key, m);
      var rest := WithoutKey(xs, key, m);
      var tail := GroupBy(rest, key);
      GroupByStep(xs, key);
      SharedGroupsCons(w, tail);
      SharedGroupsAreKeepShared(rest, key);
      SharedSelectStep(xs, key, m);
      if |w| > 1 {
        ConcatCons(w, SharedGroups(tail));
      } else {
        assert [] + SharedGroups(tail) == SharedGroups(tail);
      }
    }
  }

  /** There are as many groups with more than one row as keys that occur more than once. */
  lemma {:induction false} SharedGroupCount<T(!new)>(xs: seq<T>, key: T -> int)
    ensures |SharedGroups(GroupBy(xs, key))| == |SharedKeys(xs, key)|
    decreases |xs|
  {
    if xs == [] {
      assert SharedKeys(xs, key) == {};
    } else {
      var m := MinKey(xs, key);
      var w := WithKey(xs, key, m);
      var rest := WithoutKey(xs, key, m);
      var tail := GroupBy(rest, key);
      GroupByStep(xs, key);
      SharedGroupsCons(w, tail);
      SharedGroupCount(rest, key);
      SharedKeysStep(xs, key, m);
    }
  }

  /** Every group the concatenation is built from has more than one row. */
  lemma {:induction false} SharedGroupsLarge<T>(gs: seq<seq<T>>)
    ensures forall g :: g in SharedGroups(gs) ==> g in gs && |g| > 1
  {
    if gs != [] {
      SharedGroupsLarge(gs[1..]);
    }
  }

  // ---------------------------------------------------------------------------
  // duplicated(keep="first")

  lemma {:induction false} DuplicatedAfterMeaning<T>(xs: seq<T>, key: T -> int, seen: set<int>)
    ensures forall i :: 0 <= i < |xs| ==>
              (DuplicatedAfter(xs, key, seen)[i] <==> key(xs[i]) in seen || exists j :: 0 <= j < i && key(xs[j]) == key(xs[i]))
  {
    if xs != [] {
      var d := DuplicatedAfter(xs, key, seen);
      var seen' := seen + {key(xs[0])};
      DuplicatedAfterMeaning(xs[1..], key, seen');
      forall i | 1 <= i < |xs|
        ensures d[i] <==> key(xs[i]) in seen || exists j :: 0 <= j < i && key(xs[j]) == key(xs[i])
      {
        assert d[i] == DuplicatedAfter(xs[1..], key, seen')[i - 1];
        assert xs[1..][i - 1] == xs[i];
        if j' :| 0 <= j' < i - 1 && key(xs[1..][j']) == key(xs[i]) {
          assert key(xs[j' + 1]) == key(xs[i]);
        }
        if j :| 1 <= j < i && key(xs[j]) == key(xs[i]) {
          assert key(xs[1..][j - 1]) == key(xs[i]);
        }
      }
    }
  }

  lemma {:induction false} MarkedCount<T(!new)>(xs: seq<T>, key: T -> int, seen: set<int>)
    ensures |Marked(xs, DuplicatedAfter(xs, key, seen))| == |xs| - |KeySet(xs, key) - seen|
  {
    if xs != [] {
      var k := key(xs[0]);
      var d := DuplicatedAfter(xs, key, seen);
      assert d[1..] == DuplicatedAfter(xs[1..], key, seen + {k});
      MarkedCount(xs[1..], key, seen + {k});
      KeySetCons(xs, key);
      if k in seen {
        assert KeySet(xs, key) - seen == KeySet(xs[1..], key) - (seen + {k});
      } else {
        assert KeySet(xs, key) - seen == {k} + (KeySet(xs[1..], key) - (seen + {k}));
      }
    }
  }

  /**
    duplicated(keep="first") flags every row but one per key: every flagged row
    has an earlier, unflagged row with its key (the first row of that key), two
    unflagged rows never share a key, and the number of flagged rows is the
    number of rows less the number of distinct keys.
   */
  lemma KeepFirst<T(!new)>(xs: seq<T>, key: T -> int)
    ensures forall i :: 0 <= i < |xs| && Duplicated(xs, key)[i] ==>
              var j := FirstIndex(xs, key, key(xs[i]));
              j < i && !Duplicated(xs, key)[j] && key(xs[j]) == key(xs[i])
    ensures forall i, j :: 0 <= i < j < |xs| && !Duplicated(xs, key)[i] && !Duplicated(xs, key)[j] ==>
              key(xs[i]) != key(xs[j])
    ensures |Marked(xs, Duplicated(xs, key))| == |xs| - |KeySet(xs, key)|
  {
    MarkedCount(xs, key, {});
    assert KeySet(xs, key) - {} == KeySet(xs, key);
  }

  lemma {:induction false} MarkedAll<T(!new)>(xs: seq<T>, key: T -> int, seen: set<int>)
    requires forall x :: x in xs ==> key(x) in seen
    ensures Marked(xs, DuplicatedAfter(xs, key, seen)) == xs
  {
    if xs != [] {
      var d := DuplicatedAfter(xs, key, seen);
      assert d[1..] == DuplicatedAfter(xs[1..], key, seen + {key(xs[0])});
      assert forall x :: x in xs[1..] ==> x in xs;
      MarkedAll(xs[1..], key, seen + {key(xs[0])});
      assert xs == [xs[0]] + xs[1..];
    }
  }

  /** In a group whose rows all have one key, duplicated(keep="first") flags all rows but the first. */
  lemma MarkedOneKey<T(!new)>(xs: seq<T>, key: T -> int)
    requires xs != [] && forall x :: x in xs ==> key(x) == key(xs[0])
    ensures Marked(xs, Duplicated(xs, key)) == xs[1..]
  {
    var k := key(xs[0]);
    var d := Duplicated(xs, key);
    assert d[1..] == DuplicatedAfter(xs[1..], key, {} + {k});
    assert forall x :: x in xs[1..] ==> x in xs;
    MarkedAll(xs[1..], key, {} + {k});
  }

  /** Reordering the rows does not change which keys occur. */
  lemma KeySetPermutation<T(!new)>(a: seq<T>, b: seq<T>, key: T -> int)
    requires multiset(a) == multiset(b)
    ensures KeySet(a, key) == KeySet(b, key)
  {
    forall x | x in a ensures x in b {
      assert x in multiset(a);
    }
    forall x | x in b ensures x in a {
      assert x in multiset(b);
    }
  }

  /** The keys left after groupby(key).filter(lambda group: len(group) > 1) are the shared keys. */
  lemma KeepSharedKeys<T(!new)>(xs: seq<T>, key: T -> int)
    ensures KeySet(KeepShared(xs, key), key) == SharedKeys(xs, key)
  {
    KeepSharedMembers(xs, key);
    forall k | k in SharedKeys(xs, key) ensures k in KeySet(KeepShared(xs, key), key) {
      WithKeyMembers(xs, key, k);
      var x := WithKey(xs, key, k)[0];
      assert x in WithKey(xs, key, k);
      assert x in KeepShared(xs, key);
    }
  }

  /**
    pd.concat(g for _, g in groupby(key) if len(g) > 1) has nothing to
    concatenate exactly when no key occurs twice.
   */
  lemma SharedGroupsEmpty<T(!new)>(xs: seq<T>, key: T -> int)
    ensures SharedGroups(GroupBy(xs, key)) == [] <==> KeepShared(xs, key) == []
  {
    var gs := SharedGroups(GroupBy(xs, key));
    SharedGroupsAreKeepShared(xs, key);
    if gs != [] {
      SharedGroupsLarge(GroupBy(xs, key));
      assert gs[0] in gs;
      ConcatCons(gs[0], gs[1..]);
      assert [gs[0]] + gs[1..] == gs;
      assert |Concat(gs)| > 0;
      assert Concat(gs)[0] in multiset(Concat(gs));
    }
  }

  /** The groups with more than one row hold at least one row between them when there is one. */
  lemma ConcatSharedNonEmpty<T>(gs: seq<seq<T>>)
    ensures SharedGroups(gs) != [] ==> Concat(SharedGroups(gs)) != []
  {
    var s := SharedGroups(gs);
    if s != [] {
      SharedGroupsLarge(gs);
      assert s[0] in s;
      ConcatCons(s[0], s[1..]);
      assert [s[0]] + s[1..] == s;
    }
  }

  /** The first row with the key of row k is not flagged by duplicated(keep="first"). */
  lemma FirstUnflagged<T>(xs: seq<T>, key: T -> int, k: nat) returns (j: nat)
    requires k < |xs|
    ensures j <= k && !Duplicated(xs, key)[j] && key(xs[j]) == key(xs[k])
  {
    j := FirstIndex(xs, key, key(xs[k]));
  }
}

/**
  How the path list is divided among worker processes: the worker-count rule,
  np.array_split, and collecting the chunks one by one (Pool.imap keeps the
  chunks' order) before pd.concat puts the tables back together.
 */
module Chunks {
  import opened Wrappers
  import opened FileTree
  import opened Grouping
  import opened Records

  /** The usable CPUs: max(cpu_count() - 2, 1). */
  function UsableCpus(cpu: nat): (u: nat)
    ensures u >= 1 && u >= cpu - 2 && (u == 1 || u == cpu - 2)
  {
    if cpu >= 3 then cpu - 2 else 1
  }

  /**
    The number of workers for `n` paths on a machine with `cpu` CPUs: one for
    at most 32 paths, otherwise min(max(cpu - 2, 1), n).
   */
  function Workers(n: nat, cpu: nat): (w: nat)
    ensures 1 <= w
    ensures n >= 1 ==> w <= n
    ensures n <= 32 ==> w == 1
    ensures w <= UsableCpus(cpu)
    ensures n > 32 ==> w == n || w == UsableCpus(cpu)
  {
    if n <= 32 then 1
    else if UsableCpus(cpu) <= n then UsableCpus(cpu) else n
  }

  /** The length of the first chunk when `n` items are split into `k`: n / k, rounded up. */
  function FirstChunk(n: nat, k: nat): (c: nat)
    requires k >= 1
    ensures c <= n
  {
    FirstChunkBound(n, k);
    n / k + (if n % k > 0 then 1 else 0)
  }

  lemma FirstChunkBound(n: nat, k: nat)
    requires k >= 1
    ensures n / k + (if n % k > 0 then 1 else 0) <= n
  {
    var q := n / k;
    assert n == q * k + n % k;
    MulSign(q, k);
  }

  /** Multiplying by a positive number keeps the sign and does not shrink the magnitude. */
  lemma MulSign(a: int, d: int)
    requires d > 0
    ensures a >= 0 ==> a * d >= a
    ensures a >= 1 ==> a * d >= d
    ensures a <= -1 ==> a * d <= -d
  {
  }

  /**
    np.array_split(xs, k): k contiguous chunks, the first n % k of them one
    longer than the others.
   */
  function ArraySplit<T>(xs: seq<T>, k: nat): (cs: seq<seq<T>>)
    requires k >= 1
    ensures |cs| == k
    ensures Concat(cs) == xs
    decreases k
  {
    if k == 1 then
      assert Concat([xs]) == xs + Concat([]);
      [xs]
    else
      var c := FirstChunk(|xs|, k);
      var rest := ArraySplit(xs[c..], k - 1);
      ConcatCons(xs[..c], rest);
      assert xs[..c] + xs[c..] == xs;
      [xs[..c]] + rest
  }

  /** Dividing n into q parts of d and a remainder r below d fixes the quotient and the remainder. */
  lemma DivModUnique(n: int, d: int, q: int, r: int)
    requires d > 0 && n == q * d + r && 0 <= r < d
    ensures n / d == q && n % d == r
  {
    var q0 := n / d;
    assert n == q0 * d + n % d;
    assert (q0 - q) * d == r - n % d;
    MulSign(q0 - q, d);
  }

  /** The arithmetic behind one step of the split: taking off the first chunk keeps the quotient and uses up one extra. */
  lemma SplitStep(n: nat, k: nat)
    requires k >= 2
    ensures n - FirstChunk(n, k) >= 0
    ensures (n - FirstChunk(n, k)) / (k - 1) == n / k
    ensures (n - FirstChunk(n, k)) % (k - 1) == if n % k > 0 then n % k - 1 else 0
  {
    var q := n / k;
    var r := n % k;
    var c := FirstChunk(n, k);
    var r' := if r > 0 then r - 1 else 0;
    assert n == q * k + r;
    assert n - c == q * (k - 1) + r';
    DivModUnique(n - c, k - 1, q, r');
  }

  /** Chunk i of np.array_split(xs, k) holds n / k items, plus one when i < n % k. */
  lemma {:induction false} ChunkSizes<T>(xs: seq<T>, k: nat)
    requires k >= 1
    ensures forall i :: 0 <= i < k ==>
              |ArraySplit(xs, k)[i]| == |xs| / k + (if i < |xs| % k then 1 else 0)
    decreases k
  {
    if k > 1 {
      var c := FirstChunk(|xs|, k);
      var cs := ArraySplit(xs, k);
      ChunkSizes(xs[c..], k - 1);
      SplitStep(|xs|, k);
      forall i | 1 <= i < k
        ensures |cs[i]| == |xs| / k + (if i < |xs| % k then 1 else 0)
      {
        assert cs[i] == ArraySplit(xs[c..], k - 1)[i - 1];
      }
    }
  }

  /** Collecting chunk after chunk, as Pool.imap returns them, and concatenating the tables. */
  method CollectInChunks(disk: Node, chunks: seq<seq<Path>>) returns (r: Result<seq<FileRecord>, Error>)
    ensures r == Collect(disk, Concat(chunks))
  {
    var rows: seq<FileRecord> := [];
    var i := 0;
    while i < |chunks|
      invariant 0 <= i <= |chunks|
      invariant Collect(disk, Concat(chunks[..i])) == Ok(rows)
    {
      var part := CollectFileInfo(disk, chunks[i]);
      ConcatSnoc(chunks[..i], chunks[i]);
      assert chunks[..i + 1] == chunks[..i] + [chunks[i]];
      CollectAppend(disk, Concat(chunks[..i]), chunks[i]);
      if part.Err? {
        assert chunks[..i + 1] + chunks[i + 1..] == chunks;
        ConcatAppend(chunks[..i + 1], chunks[i + 1..]);
        CollectAppend(disk, Concat(chunks[..i + 1]), Concat(chunks[i + 1..]));
        return Err(part.error);
      }
      rows := rows + part.value;
      i := i + 1;
    }
    assert chunks[..i] == chunks;
    r := Ok(rows);
  }

  lemma {:induction false} ConcatAppend<T>(a: seq<seq<T>>, b: seq<seq<T>>)
    ensures Concat(a + b) == Concat(a) + Concat(b)
  {
    if a == [] {
      assert a + b == b;
    } else {
      assert (a + b)[0] == a[0];
      assert (a + b)[1..] == a[1..] + b;
      ConcatAppend(a[1..], b);
      assert a[0] + (Concat(a[1..]) + Concat(b)) == (a[0] + Concat(a[1..])) + Concat(b);
    }
  }

  lemma ConcatSnoc<T>(a: seq<seq<T>>, x: seq<T>)
    ensures Concat(a + [x]) == Concat(a) + x
  {
    ConcatAppend(a, [x]);
    assert Concat([x]) == x + Concat([]);
  }
}

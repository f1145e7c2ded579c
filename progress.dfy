/**
 * The progress counter: every chunk that finishes adds `100 / n` percent,
 * with integer division, whatever order the chunks finish in.
 */
module Progress {

  /** The percentage shown after `k` chunks have finished. */
  function ProgressAfter(n: nat, k: nat): nat
    requires 1 <= n
  {
    k * (100 / n)
  }

  /** More finished chunks never show less progress. */
  lemma ProgressMonotone(n: nat, j: nat, k: nat)
    requires 1 <= n && j <= k
    ensures ProgressAfter(n, j) <= ProgressAfter(n, k)
  {
    assert j * (100 / n) <= k * (100 / n);
  }

  /** Progress never passes 100 while at most n chunks have finished. */
  lemma ProgressAtMostHundred(n: nat, k: nat)
    requires 1 <= n && k <= n
    ensures ProgressAfter(n, k) <= 100
  {
    ProgressMonotone(n, k, n);
    assert n * (100 / n) <= 100;
  }

  /**
   * When all n chunks have finished the counter stands at `100 - 100 % n`:
   * it reaches exactly 100 only when n divides 100 (three chunks end at 99).
   */
  lemma ProgressWhenDone(n: nat)
    requires 1 <= n
    ensures ProgressAfter(n, n) == 100 - 100 % n
    ensures ProgressAfter(n, n) == 100 <==> 100 % n == 0
  {
    assert 100 == n * (100 / n) + 100 % n;
  }

  /** The indices in `s` that are below `n`. */
  ghost predicate ChunkIndices(s: seq<nat>, n: nat)
  {
    (forall k :: 0 <= k < |s| ==> s[k] < n)
    && (forall j, k :: 0 <= j < k < |s| ==> s[j] != s[k])
  }

  /** Distinct chunk indices below n number at most n. */
  lemma {:induction false} ChunkIndicesAtMostN(s: seq<nat>, n: nat)
    requires ChunkIndices(s, n)
    ensures |s| <= n
    decreases n
  {
    if s != [] {
      assert s[0] < n;
      // Without the index n - 1 (present at most once) every index is below n - 1.
      var rest := Without(s, n - 1);
      ChunkIndicesAtMostN(rest, n - 1);
    }
  }

  /** `s` with every occurrence of `x` removed. */
  function Without(s: seq<nat>, x: nat): (r: seq<nat>)
    requires forall j, k :: 0 <= j < k < |s| ==> s[j] != s[k]
    ensures forall j, k :: 0 <= j < k < |r| ==> r[j] != r[k]
    ensures forall k :: 0 <= k < |r| ==> r[k] != x && r[k] in s
    ensures |r| >= |s| - 1
    ensures x !in s ==> |r| == |s|
  {
    if s == [] then []
    else
      var rest := Without(s[1..], x);
      if s[0] == x then rest else [s[0]] + rest
  }

  /**
   * One progress notification per finished chunk, in the order the chunks
   * finish (`completions` lists their indices): the k-th notification shows
   * `(k + 1) * (100 / n)`, whichever chunks they are, never more than 100,
   * and the notifications never go down.
   */
  method ReportProgress(n: nat, completions: seq<nat>) returns (shown: seq<nat>)
    requires 1 <= n
    requires ChunkIndices(completions, n)
    ensures |shown| == |completions|
    ensures forall k :: 0 <= k < |shown| ==> shown[k] == ProgressAfter(n, k + 1) && shown[k] <= 100
    ensures forall j, k :: 0 <= j <= k < |shown| ==> shown[j] <= shown[k]
  {
    ChunkIndicesAtMostN(completions, n);
    var progress := 0;
    shown := [];
    for c := 0 to |completions|
      invariant |shown| == c && progress == ProgressAfter(n, c)
      invariant forall k :: 0 <= k < c ==> shown[k] == ProgressAfter(n, k + 1)
    {
      progress := progress + 100 / n;
      shown := shown + [progress];
    }
    forall j, k | 0 <= j <= k < |shown|
      ensures shown[j] <= shown[k] <= 100
    {
      ProgressMonotone(n, j + 1, k + 1);
      ProgressAtMostHundred(n, k + 1);
    }
  }
}

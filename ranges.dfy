/**
 * Range planning: splitting a file of `fileSize` bytes into `n` byte ranges,
 * one per chunk, with inclusive end positions as in a `bytes=first-last`
 * range request (section 14.1.2 of RFC 9110).
 */
module RangePlanner {

  /** The byte range requested for chunk `index`; `end` is inclusive, so `end == start - 1` is empty. */
  datatype ChunkRange = ChunkRange(index: nat, start: int, end: int)

  /** Number of bytes a range covers. */
  function Length(r: ChunkRange): int
  {
    r.end - r.start + 1
  }

  predicate Contains(r: ChunkRange, pos: int)
  {
    r.start <= pos <= r.end
  }

  /** `i * (fileSize / n)` stays within the file for every chunk index. */
  lemma ChunkStartWithinFile(fileSize: nat, n: nat, i: nat)
    requires 1 <= n && i <= n
    ensures 0 <= i * (fileSize / n) <= fileSize
  {
    var q := fileSize / n;
    assert i * q <= n * q;
  }

  /**
   * Range of chunk `i`: it starts at `i * chunkSize` with `chunkSize == fileSize / n`;
   * every chunk but the last ends `chunkSize` bytes later, and the last ends at
   * the final byte of the file, taking the remainder of the division.
   * All positions lie in [-1, fileSize], so they fit the 64-bit integers the planner uses.
   */
  function RangeAt(fileSize: nat, n: nat, i: nat): (r: ChunkRange)
    requires i < n
    ensures r.index == i
    ensures 0 <= r.start <= fileSize && r.end < fileSize && Length(r) >= 0
  {
    var chunkSize := fileSize / n;
    ChunkStartWithinFile(fileSize, n, i + 1);
    var start := i * chunkSize;
    ChunkRange(i, start, if i == n - 1 then fileSize - 1 else start + (chunkSize - 1))
  }

  /** The whole plan: range `i` at position `i`. */
  function Plan(fileSize: nat, n: nat): seq<ChunkRange>
    requires 1 <= n
  {
    seq(n, i requires 0 <= i < n => RangeAt(fileSize, n, i))
  }

  /** Each range begins one byte after the previous one ends: no gap and no overlap. */
  ghost predicate Contiguous(rs: seq<ChunkRange>)
  {
    forall i, j :: 0 <= i < j < |rs| && j == i + 1 ==> rs[j].start == rs[i].end + 1
  }

  /** Number of bytes all ranges cover together. */
  function TotalLength(rs: seq<ChunkRange>): int
  {
    if rs == [] then 0 else TotalLength(rs[..|rs| - 1]) + Length(rs[|rs| - 1])
  }

  /**
   * The planning loop: builds the `n` ranges in loop order. The plan starts at
   * byte 0, ends at byte `fileSize - 1`, is contiguous, every range but the
   * last has `fileSize / n` bytes and the last `fileSize / n + fileSize % n`.
   */
  method PlanRanges(fileSize: nat, n: nat) returns (ranges: seq<ChunkRange>)
    requires 1 <= n
    ensures ranges == Plan(fileSize, n)
    ensures |ranges| == n && forall i :: 0 <= i < n ==> ranges[i].index == i
    ensures ranges[0].start == 0 && ranges[n - 1].end == fileSize - 1
    ensures Contiguous(ranges)
    ensures forall i :: 0 <= i < n - 1 ==> Length(ranges[i]) == fileSize / n
    ensures Length(ranges[n - 1]) == fileSize / n + fileSize % n
  {
    var chunkSize := fileSize / n;
    ranges := [];
    for i := 0 to n
      invariant |ranges| == i
      invariant forall k :: 0 <= k < i ==> ranges[k] == RangeAt(fileSize, n, k)
    {
      var startByte := i * chunkSize;
      var endByte;
      if i == n - 1 {
        endByte := fileSize - 1;
      } else {
        endByte := startByte + (chunkSize - 1);
      }
      ranges := ranges + [ChunkRange(i, startByte, endByte)];
    }
    PlanShape(fileSize, n);
  }

  /**
   * The shape of a plan: it starts at byte 0, ends at byte `fileSize - 1`, is
   * contiguous, and its range lengths are `fileSize / n` except the last,
   * which also takes the remainder `fileSize % n`.
   */
  lemma PlanShape(fileSize: nat, n: nat)
    requires 1 <= n
    ensures var plan := Plan(fileSize, n);
      plan[0].start == 0 && plan[n - 1].end == fileSize - 1 && Contiguous(plan)
      && (forall i :: 0 <= i < n - 1 ==> Length(plan[i]) == fileSize / n)
      && Length(plan[n - 1]) == fileSize / n + fileSize % n
  {
    var plan, chunkSize := Plan(fileSize, n), fileSize / n;
    forall i, j | 0 <= i < j < n && j == i + 1
      ensures plan[j].start == plan[i].end + 1
    {
      RangeFollows(fileSize, n, i);
    }
    assert fileSize == n * chunkSize + fileSize % n;
    assert (n - 1) * chunkSize == n * chunkSize - chunkSize;
  }

  /** The next range starts right after this one. */
  lemma RangeFollows(fileSize: nat, n: nat, i: nat)
    requires i + 1 < n
    ensures RangeAt(fileSize, n, i + 1).start == RangeAt(fileSize, n, i).end + 1
  {
    var chunkSize := fileSize / n;
    assert (i + 1) * chunkSize == i * chunkSize + chunkSize;
  }

  /** In a contiguous list of ranges the lengths add up to the span from first start to last end. */
  lemma {:induction false} ContiguousTotalLength(rs: seq<ChunkRange>)
    requires |rs| >= 1 && Contiguous(rs)
    ensures TotalLength(rs) == rs[|rs| - 1].end + 1 - rs[0].start
  {
    var m := |rs| - 1;
    if m > 0 {
      var init := rs[..m];
      assert Contiguous(init) by {
        forall i, j | 0 <= i < j < |init| && j == i + 1
          ensures init[j].start == init[i].end + 1
        {
          assert init[j] == rs[j] && init[i] == rs[i];
        }
      }
      ContiguousTotalLength(init);
      assert rs[m].start == rs[m - 1].end + 1;
    }
  }

  /** The ranges of a plan cover exactly `fileSize` bytes in all. */
  lemma PlanCoversFile(fileSize: nat, n: nat)
    requires 1 <= n
    ensures TotalLength(Plan(fileSize, n)) == fileSize
  {
    PlanShape(fileSize, n);
    ContiguousTotalLength(Plan(fileSize, n));
  }

  /** With at least as many bytes as chunks, a range holds at least one byte. */
  lemma RangeNonEmpty(fileSize: nat, n: nat, i: nat)
    requires i < n <= fileSize
    ensures Length(RangeAt(fileSize, n, i)) >= 1
  {
    var chunkSize := fileSize / n;
    assert chunkSize >= 1 by {
      assert fileSize == n * chunkSize + fileSize % n;
    }
    if i == n - 1 {
      assert fileSize == n * chunkSize + fileSize % n;
      assert i * chunkSize == n * chunkSize - chunkSize;
    }
  }

  /** Every range holds at least one byte exactly when the file has at least as many bytes as there are chunks. */
  lemma PlanRangesNonEmptyIff(fileSize: nat, n: nat)
    requires 1 <= n
    ensures (forall i :: 0 <= i < n ==> Length(RangeAt(fileSize, n, i)) >= 1) <==> n <= fileSize
  {
    if n <= fileSize {
      forall i | 0 <= i < n
        ensures Length(RangeAt(fileSize, n, i)) >= 1
      {
        RangeNonEmpty(fileSize, n, i);
      }
    } else {
      assert Length(RangeAt(fileSize, n, 0)) == 0;
    }
  }

  lemma MulMonotone(a: nat, b: nat, c: nat)
    requires a <= b
    ensures a * c <= b * c
  {
  }

  /** `pos` lies in the block of `q` bytes numbered `pos / q`. */
  lemma DivBlock(pos: nat, q: nat)
    requires q > 0
    ensures (pos / q) * q <= pos < (pos / q) * q + q
  {
  }

  /** The chunk whose range holds byte `pos` of the file. */
  function Owner(fileSize: nat, n: nat, pos: nat): (i: nat)
    requires 1 <= n && pos < fileSize
    ensures i < n && Contains(RangeAt(fileSize, n, i), pos)
  {
    var chunkSize := fileSize / n;
    if chunkSize == 0 then
      n - 1
    else if pos / chunkSize < n - 1 then
      BlockHolds(fileSize, n, pos);
      pos / chunkSize
    else
      LastBlockHolds(fileSize, n, pos);
      n - 1
  }

  /** A byte inside the first `n - 1` blocks of `fileSize / n` bytes lies in the range of its block. */
  lemma BlockHolds(fileSize: nat, n: nat, pos: nat)
    requires 1 <= n && fileSize / n > 0 && pos / (fileSize / n) < n - 1
    ensures Contains(RangeAt(fileSize, n, pos / (fileSize / n)), pos)
  {
    DivBlock(pos, fileSize / n);
  }

  /** A byte of the file past the first `n - 1` blocks lies in the last range. */
  lemma LastBlockHolds(fileSize: nat, n: nat, pos: nat)
    requires 1 <= n && pos < fileSize && fileSize / n > 0 && pos / (fileSize / n) >= n - 1
    ensures Contains(RangeAt(fileSize, n, n - 1), pos)
  {
    var chunkSize := fileSize / n;
    MulMonotone(n - 1, pos / chunkSize, chunkSize);
    DivBlock(pos, chunkSize);
  }

  /** Each byte of the file lies in exactly one range of the plan: the one of its owner. */
  lemma PlanPartitionsFile(fileSize: nat, n: nat, pos: nat, i: nat)
    requires 1 <= n && pos < fileSize && i < n
    ensures Contains(RangeAt(fileSize, n, i), pos) <==> i == Owner(fileSize, n, pos)
  {
    var o := Owner(fileSize, n, pos);
    if Contains(RangeAt(fileSize, n, i), pos) && i != o {
      var lo, hi := if i < o then i else o, if i < o then o else i;
      RangesOrdered(fileSize, n, lo, hi);
    }
  }

  /** A later range starts after an earlier one ends. */
  lemma RangesOrdered(fileSize: nat, n: nat, lo: nat, hi: nat)
    requires lo < hi < n
    ensures RangeAt(fileSize, n, lo).end < RangeAt(fileSize, n, hi).start
  {
    var chunkSize := fileSize / n;
    MulMonotone(lo + 1, hi, chunkSize);
    assert (lo + 1) * chunkSize == lo * chunkSize + chunkSize;
  }
}

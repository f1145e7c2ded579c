/**
 * The whole download: read the file size, plan the ranges, fetch every range
 * into its part file, report progress per finished chunk, wait for all
 * chunks, then merge the parts and delete them.
 */
module Downloader {
  import opened Wrappers
  import opened FileStore
  import opened RangePlanner
  import opened Merger
  import opened Progress

  /** Why a download stops before the destination file is produced. */
  datatype DownloadError =
    | MissingContentLength            // the size probe reported no Content-Length
    | DivideByZero                    // zero chunks: the chunk size divides by zero
    | NegativeChunkCount              // a negative number of chunks: the task array cannot be allocated
    | ChunksFailed(indices: seq<nat>) // these chunk fetches failed, in ascending order

  datatype Outcome = Completed | Failed(error: DownloadError)

  /**
   * A ranged GET of the file: the body the server returns for the inclusive
   * byte range `[first, last]`, or `None` when the request fails.
   */
  type Fetch = (int, int) -> Option<Bytes>

  /** What each planned range fetch returns, by chunk index. */
  function Responses(fetch: Fetch, plan: seq<ChunkRange>): seq<Option<Bytes>>
  {
    seq(|plan|, i requires 0 <= i < |plan| => fetch(plan[i].start, plan[i].end))
  }

  predicate AllFetched(resp: seq<Option<Bytes>>)
  {
    forall i :: 0 <= i < |resp| ==> resp[i].Some?
  }

  /** The indices, in ascending order, whose fetch succeeded (`ok`) or failed (`!ok`). */
  function IndicesWhere(resp: seq<Option<Bytes>>, ok: bool): seq<nat>
  {
    if resp == [] then []
    else
      var before := IndicesWhere(resp[..|resp| - 1], ok);
      if resp[|resp| - 1].Some? == ok then before + [|resp| - 1] else before
  }

  /**
   * `IndicesWhere(resp, ok)` lists exactly the indices whose fetch succeeded
   * (or failed), each once, in ascending order.
   */
  lemma {:induction false} IndicesWhereExactly(resp: seq<Option<Bytes>>, ok: bool)
    ensures var r := IndicesWhere(resp, ok);
      (forall k :: 0 <= k < |r| ==> r[k] < |resp| && resp[r[k]].Some? == ok)
      && (forall j, k :: 0 <= j < k < |r| ==> r[j] < r[k])
      && (forall i :: 0 <= i < |resp| && resp[i].Some? == ok ==> i in r)
  {
    if resp != [] {
      IndicesWhereExactly(resp[..|resp| - 1], ok);
    }
  }

  /** When every fetch succeeds, every index is reported as succeeded and none as failed. */
  lemma {:induction false} EverySucceeded(resp: seq<Option<Bytes>>)
    requires AllFetched(resp)
    ensures |IndicesWhere(resp, true)| == |resp| && IndicesWhere(resp, false) == []
  {
    if resp != [] {
      EverySucceeded(resp[..|resp| - 1]);
    }
  }

  /** The file store after every successful fetch wrote its part file. */
  ghost function WrittenParts(files: map<Path, Bytes>, dest: Path, resp: seq<Option<Bytes>>): map<Path, Bytes>
  {
    if resp == [] then files
    else
      var before := WrittenParts(files, dest, resp[..|resp| - 1]);
      match resp[|resp| - 1]
      case Some(body) => before[PartPath(dest, |resp| - 1) := body]
      case None => before
  }

  /** The fetched bodies joined in ascending chunk order. */
  function Joined(resp: seq<Option<Bytes>>): Bytes
    requires AllFetched(resp)
  {
    if resp == [] then [] else Joined(resp[..|resp| - 1]) + resp[|resp| - 1].value
  }

  /** A successful fetch leaves its body in its part file. */
  lemma {:induction false} WrittenPartAt(files: map<Path, Bytes>, dest: Path, resp: seq<Option<Bytes>>, i: nat)
    requires i < |resp| && resp[i].Some?
    ensures var w := WrittenParts(files, dest, resp);
      PartPath(dest, i) in w && w[PartPath(dest, i)] == resp[i].value
  {
    var m := |resp| - 1;
    if i < m {
      WrittenPartAt(files, dest, resp[..m], i);
      PartPathInjective(dest, i, m);
    }
  }

  /** Writing the parts touches nothing but the part paths. */
  lemma {:induction false} WrittenPartsElsewhere(files: map<Path, Bytes>, dest: Path, resp: seq<Option<Bytes>>)
    ensures WrittenParts(files, dest, resp) - PartPaths(dest, |resp|) == files - PartPaths(dest, |resp|)
  {
    if resp != [] {
      var m := |resp| - 1;
      var before := WrittenParts(files, dest, resp[..m]);
      WrittenPartsElsewhere(files, dest, resp[..m]);
      assert PartPaths(dest, |resp|) == PartPaths(dest, m) + {PartPath(dest, m)};
      assert before - PartPaths(dest, |resp|) == (before - PartPaths(dest, m)) - {PartPath(dest, m)};
      assert files - PartPaths(dest, |resp|) == (files - PartPaths(dest, m)) - {PartPath(dest, m)};
    }
  }

  /** Merging the written parts joins the fetched bodies in chunk order. */
  lemma {:induction false} MergeOfWrittenParts(files: map<Path, Bytes>, dest: Path, resp: seq<Option<Bytes>>, k: nat)
    requires AllFetched(resp) && k <= |resp|
    ensures var w := WrittenParts(files, dest, resp);
      PartsPresent(w, dest, k) && ConcatParts(w, dest, k) == Joined(resp[..k])
  {
    var w := WrittenParts(files, dest, resp);
    forall i | 0 <= i < k
      ensures PartPath(dest, i) in w
    {
      WrittenPartAt(files, dest, resp, i);
    }
    if k > 0 {
      MergeOfWrittenParts(files, dest, resp, k - 1);
      WrittenPartAt(files, dest, resp, k - 1);
      assert resp[..k][..k - 1] == resp[..k - 1];
    } else {
      assert resp[..k] == [];
    }
  }

  /**
   * One download of the file at the fetched URL into `dest` with `n` chunks.
   * `contentLength` is what the size probe reported; `shown` are the progress
   * notifications, one per finished chunk.
   * Without a size, or with `n <= 0`, nothing is fetched or written. When some
   * fetch fails the other parts stay written, nothing is merged, and the failed
   * indices are reported. When all succeed the destination holds the bodies
   * joined in chunk order, every part file is gone, and nothing else changed.
   */
  method DownloadFileInChunks(fs: FileSystem, fetch: Fetch, contentLength: Option<nat>, dest: Path, n: int)
    returns (shown: seq<nat>, outcome: Outcome)
    modifies fs
    ensures contentLength.None? ==>
      shown == [] && outcome == Failed(MissingContentLength) && fs.files == old(fs.files)
    ensures contentLength.Some? && n <= 0 ==>
      shown == [] && fs.files == old(fs.files)
      && outcome == Failed(if n == 0 then DivideByZero else NegativeChunkCount)
    ensures contentLength.Some? && n >= 1 ==>
      var resp := Responses(fetch, Plan(contentLength.value, n));
      |shown| == |IndicesWhere(resp, true)|
      && (forall k :: 0 <= k < |shown| ==> shown[k] == ProgressAfter(n, k + 1))
      && if AllFetched(resp) then
           outcome == Completed && fs.files == (old(fs.files) - PartPaths(dest, n))[dest := Joined(resp)]
         else
           outcome == Failed(ChunksFailed(IndicesWhere(resp, false)))
           && fs.files == WrittenParts(old(fs.files), dest, resp)
  {
    shown := [];
    if contentLength.None? {
      return shown, Failed(MissingContentLength);
    }
    var fileSize := contentLength.value;
    if n == 0 {
      return shown, Failed(DivideByZero);
    } else if n < 0 {
      return shown, Failed(NegativeChunkCount);
    }
    var plan := PlanRanges(fileSize, n);
    ghost var resp := Responses(fetch, plan);
    var succeeded, failed := FetchChunks(fs, fetch, plan, dest);
    IndicesWhereExactly(resp, true);
    IndicesWhereExactly(resp, false);
    shown := ReportProgress(n, succeeded);
    if failed != [] {
      assert resp[failed[0]].None?;
      return shown, Failed(ChunksFailed(failed));
    }
    assert AllFetched(resp);
    MergeOfWrittenParts(old(fs.files), dest, resp, n);
    assert resp[..n] == resp;
    WrittenPartsElsewhere(old(fs.files), dest, resp);
    MergeThenDelete(fs, dest, n);
    return shown, Completed;
  }

  /**
   * The fan-out: one ranged fetch per planned range, each successful body
   * written to its chunk's part file; returns the indices whose fetch
   * succeeded and those whose fetch failed.
   */
  method FetchChunks(fs: FileSystem, fetch: Fetch, plan: seq<ChunkRange>, dest: Path)
    returns (succeeded: seq<nat>, failed: seq<nat>)
    modifies fs
    ensures var resp := Responses(fetch, plan);
      fs.files == WrittenParts(old(fs.files), dest, resp)
      && succeeded == IndicesWhere(resp, true) && failed == IndicesWhere(resp, false)
  {
    ghost var resp := Responses(fetch, plan);
    succeeded, failed := [], [];
    for i := 0 to |plan|
      invariant fs.files == WrittenParts(old(fs.files), dest, resp[..i])
      invariant succeeded == IndicesWhere(resp[..i], true) && failed == IndicesWhere(resp[..i], false)
    {
      var body := fetch(plan[i].start, plan[i].end);
      assert body == resp[i];
      FetchStep(old(fs.files), dest, resp, i);
      if body.Some? {
        fs.WriteAllBytes(PartPath(dest, i), body.value);
        succeeded := succeeded + [i];
      } else {
        failed := failed + [i];
      }
    }
    assert resp[..|plan|] == resp;
  }

  /** One more fetch: its body, if any, is written to its part file and its index is recorded. */
  lemma FetchStep(files: map<Path, Bytes>, dest: Path, resp: seq<Option<Bytes>>, i: nat)
    requires i < |resp|
    ensures var before, after := resp[..i], resp[..i + 1];
      && WrittenParts(files, dest, after)
         == (if resp[i].Some? then WrittenParts(files, dest, before)[PartPath(dest, i) := resp[i].value]
             else WrittenParts(files, dest, before))
      && IndicesWhere(after, true)
         == (if resp[i].Some? then IndicesWhere(before, true) + [i] else IndicesWhere(before, true))
      && IndicesWhere(after, false)
         == (if resp[i].Some? then IndicesWhere(before, false) else IndicesWhere(before, false) + [i])
  {
    assert resp[..i + 1][..i] == resp[..i];
  }

  /**
   * The fan-in once every part is present: merge the parts into `dest`, then
   * delete them; the destination ends up holding the parts joined in order.
   */
  method MergeThenDelete(fs: FileSystem, dest: Path, n: nat)
    requires PartsPresent(fs.files, dest, n)
    modifies fs
    ensures fs.files == (old(fs.files) - PartPaths(dest, n))[dest := ConcatParts(old(fs.files), dest, n)]
  {
    FirstMissingIs(fs.files, dest, n, n);
    var merged := MergeChunkFiles(fs, dest, n);
    DeleteChunkFiles(fs, dest, n);
    assert dest !in PartPaths(dest, n);
  }

  /**
   * A server that honours range requests on `source`: it returns bytes
   * `first .. last` when that is a non-empty range inside the file, and
   * refuses any other range.
   */
  function Serve(source: Bytes, first: int, last: int): (body: Option<Bytes>)
    ensures body.Some? ==> |body.value| == last - first + 1
  {
    if 0 <= first <= last < |source| then Some(source[first..last + 1]) else None
  }

  function Server(source: Bytes): Fetch
  {
    (first, last) => Serve(source, first, last)
  }

  /** What the server returns for the planned range of chunk `i`. */
  lemma ServedAt(source: Bytes, n: nat, i: nat)
    requires i < n
    ensures var r := RangeAt(|source|, n, i);
      Responses(Server(source), Plan(|source|, n))[i]
        == if Length(r) >= 1 then Some(source[r.start..r.end + 1]) else None
  {
  }

  /**
   * `resp` holds, for each range of `plan`, exactly the bytes of `source` it
   * covers.
   */
  ghost predicate SlicesOf(source: Bytes, plan: seq<ChunkRange>, resp: seq<Option<Bytes>>)
  {
    |resp| == |plan|
    && forall i :: 0 <= i < |plan| ==>
         0 <= plan[i].start <= plan[i].end + 1 <= |source|
         && resp[i] == Some(source[plan[i].start..plan[i].end + 1])
  }

  /**
   * Slices of contiguous ranges starting at byte 0 join, in order, to the
   * file's bytes up to the end of the last range joined.
   */
  lemma {:induction false} JoinedSlices(source: Bytes, plan: seq<ChunkRange>, resp: seq<Option<Bytes>>, k: nat)
    requires SlicesOf(source, plan, resp) && Contiguous(plan)
    requires 1 <= k <= |plan| && plan[0].start == 0
    ensures AllFetched(resp[..k]) && Joined(resp[..k]) == source[..plan[k - 1].end + 1]
  {
    var before, after := resp[..k - 1], resp[..k];
    assert after[..k - 1] == before && after[k - 1] == resp[k - 1];
    var r := plan[k - 1];
    if k > 1 {
      JoinedSlices(source, plan, resp, k - 1);
      assert r.start == plan[k - 2].end + 1;
    } else {
      assert before == [];
    }
    assert Joined(after) == Joined(before) + source[r.start..r.end + 1];
    assert source[..r.start] + source[r.start..r.end + 1] == source[..r.end + 1];
  }

  /** With at least one byte per chunk, the server returns each planned range's bytes. */
  lemma ServedSlices(source: Bytes, n: nat)
    requires 1 <= n <= |source|
    ensures SlicesOf(source, Plan(|source|, n), Responses(Server(source), Plan(|source|, n)))
  {
    var plan := Plan(|source|, n);
    var resp := Responses(Server(source), plan);
    forall i | 0 <= i < n
      ensures 0 <= plan[i].start <= plan[i].end + 1 <= |source|
      ensures resp[i] == Some(source[plan[i].start..plan[i].end + 1])
    {
      RangeNonEmpty(|source|, n, i);
      ServedAt(source, n, i);
    }
  }

  /** With at least one byte per chunk, the served bodies joined in chunk order are the file. */
  lemma ServedWhole(source: Bytes, n: nat)
    requires 1 <= n <= |source|
    ensures var resp := Responses(Server(source), Plan(|source|, n));
      AllFetched(resp) && Joined(resp) == source
  {
    var plan := Plan(|source|, n);
    var resp := Responses(Server(source), plan);
    ServedSlices(source, n);
    PlanShape(|source|, n);
    JoinedSlices(source, plan, resp, n);
    assert resp[..n] == resp;
  }

  /**
   * Against a server honouring range requests, every chunk fetch succeeds
   * exactly when there are no more chunks than bytes, and then the bodies
   * joined in chunk order are the original file, byte for byte.
   */
  lemma ServedChunksRejoin(source: Bytes, n: nat)
    requires 1 <= n
    ensures var resp := Responses(Server(source), Plan(|source|, n));
      (AllFetched(resp) <==> n <= |source|) && (AllFetched(resp) ==> Joined(resp) == source)
  {
    if n <= |source| {
      ServedWhole(source, n);
    } else {
      ServedAt(source, n, 0);
      assert Length(RangeAt(|source|, n, 0)) == 0;
    }
  }

  /**
   * A download from a server honouring range requests, with at least one byte
   * per chunk, leaves a copy of the file at `dest`, removes every part file,
   * and its last progress notification is `100 - 100 % n`.
   */
  method DownloadFromServer(fs: FileSystem, source: Bytes, dest: Path, n: nat) returns (shown: seq<nat>)
    requires 1 <= n <= |source|
    modifies fs
    ensures fs.files == (old(fs.files) - PartPaths(dest, n))[dest := source]
    ensures |shown| == n && shown[n - 1] == 100 - 100 % n
  {
    ServedChunksRejoin(source, n);
    var outcome;
    shown, outcome := DownloadFileInChunks(fs, Server(source), Some(|source|), dest, n);
    EverySucceeded(Responses(Server(source), Plan(|source|, n)));
    ProgressWhenDone(n);
  }
}

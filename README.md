# Chunked file download: range planning, reassembly and progress

This project models the core of a small C# downloader (`Program.cs`, namespace
`FileDownload`). The downloader fetches one remote file as `n` byte ranges, one
per chunk. It writes each range to a part file `<destination>.part<i>`, then
concatenates the part files in chunk order into the destination and deletes
them. A progress counter goes up by `100 / n` percent each time a chunk
finishes.

The model runs the pipeline sequentially over an abstract file store. The store
is a `FileSystem` object whose one field maps each path to its bytes.

- `RangePlanner` (ranges.dfy) plans the ranges. The chunk size is
  `fileSize / n`. Chunk `i` starts at `i * chunkSize`. Every chunk but the last
  ends `chunkSize` bytes later. The last one ends at `fileSize - 1` and so also
  takes the remainder. End positions are inclusive, as in the
  `bytes=first-last` form of a range request (section 14.1.2 of RFC 9110).
- `FileStore` (filestore.dfy) holds bytes, paths, the file system with the five
  file operations the program uses, and the part-file name. The name is built
  from the decimal text of the index.
- `Merger` (merge.dfy) holds the merge and the delete.
- `Progress` (progress.dfy) holds the progress counter.
- `Downloader` (download.dfy) holds the whole run. The size probe's answer and
  the ranged GET are parameters. A "server" that honours range requests on a
  byte sequence shows that plan, fetch and merge give the original file back.

Three behaviours of the code a reader might not expect:

- The planner does not reject `n > fileSize` or `fileSize == 0`. The plan is
  still contiguous and covers the file. Its non-last ranges are then the empty
  range `(0, -1)`.
- Progress after `k` chunks is `k * (100 / n)`, not `floor(100 * k / n)`. With
  three chunks it ends at 99.
- The merge does not check that every part exists before it writes. It
  truncates the destination first. If part `k` is the first one missing, the
  destination keeps parts `0 .. k-1`.

Integer widths: the file size is a 64-bit `long`. Every start and end position
lies in `[-1, fileSize]`, as `RangeAt` states, so no multiplication overflows.
The progress value never exceeds 100. The model therefore uses unbounded
integers.

## Model

| member | source | states |
|---|---|---|
| `RangePlanner.RangeAt` | Program.cs:38-48 | Range `i` keeps index `i`. It starts in `[0, fileSize]` and ends before `fileSize`. Its length is never negative. |
| `RangePlanner.ChunkStartWithinFile` | Program.cs:38 | `i * (fileSize / n)` lies in `[0, fileSize]` for every `i <= n`, so the start positions do not overflow. |
| `RangePlanner.PlanRanges` | Program.cs:31-48 | The planning loop yields exactly `n` ranges, and range `i` is the one built at loop index `i`. The first starts at 0 and the last ends at `fileSize - 1`. Each range starts one byte after the previous one ends. Non-last ranges have `fileSize / n` bytes; the last has `fileSize / n + fileSize % n`. |
| `RangePlanner.PlanShape` | Program.cs:36-48 | The same facts hold of the plan as a function of `fileSize` and `n`: start at 0, end at `fileSize - 1`, contiguous, and the range lengths. |
| `RangePlanner.RangeFollows` | Program.cs:38-47 | Range `i + 1` starts at range `i`'s end plus one, so there is no gap and no overlap. |
| `RangePlanner.ContiguousTotalLength` | Program.cs:38-47 | For any contiguous list of ranges, the lengths add up to the span from the first start to the last end. |
| `RangePlanner.PlanCoversFile` | Program.cs:31-48 | The lengths of the planned ranges sum to `fileSize`. |
| `RangePlanner.PlanRangesNonEmptyIff` | Program.cs:31-48 | Every range holds at least one byte if and only if `n <= fileSize`. When `n > fileSize`, a range is empty. |
| `RangePlanner.RangeNonEmpty` | Program.cs:38-48 | With `n <= fileSize`, each range holds at least one byte. |
| `RangePlanner.BlockHolds` | Program.cs:38-47 | A byte in one of the first `n - 1` blocks of `fileSize / n` bytes lies in that block's range. |
| `RangePlanner.LastBlockHolds` | Program.cs:41-44 | A byte past the first `n - 1` blocks lies in the last range, which runs to the end of the file. |
| `RangePlanner.RangesOrdered` | Program.cs:38-47 | A later range starts after an earlier one ends. |
| `RangePlanner.Owner` | Program.cs:31-48 | Every byte position of the file lies in the range of some chunk below `n`. |
| `RangePlanner.PlanPartitionsFile` | Program.cs:31-48 | A byte position lies in range `i` if and only if `i` is its owner, so each byte belongs to exactly one range. |
| `FileStore.Decimal` | Program.cs:51 | The index's text in the part name has at least one digit, only digits, and a leading zero only for 0. |
| `FileStore.ParseDecimalOfDecimal` | Program.cs:51 | The decimal text of an index reads back as that index. |
| `FileStore.PartPath` | Program.cs:51 | A part path is never the destination path itself. |
| `FileStore.PartPathInjective` | Program.cs:51 | Two indices give the same part path if and only if they are equal. Download (line 51), merge (line 93) and delete (line 104) build the name the same way. |
| `FileStore.FileSystem.WriteAllBytes` | Program.cs:83 | Writing a part creates or replaces that one file and changes nothing else. |
| `FileStore.FileSystem.ReadAllBytes` | Program.cs:94 | Reading gives the file's whole content if it exists, and "not found" otherwise. |
| `FileStore.FileSystem.Create` | Program.cs:89 | Create mode leaves the destination empty, whatever it held before. |
| `FileStore.FileSystem.Append` | Program.cs:95 | A write to the open destination appends the bytes at its end. |
| `FileStore.FileSystem.Delete` | Program.cs:105 | Deleting removes exactly that path. It is not an error if the file is absent. |
| `Merger.FirstMissing` | Program.cs:91-94 | Gives the lowest chunk index whose part file is missing, or `n` if none is missing. All parts below it are present. |
| `Merger.MergeChunkFiles` | Program.cs:87-98 | The destination is truncated, then parts are appended in ascending index order. Afterwards the destination holds the parts before the first missing one, and no other file changed. The merge succeeds if and only if no part is missing; otherwise it reports the first missing part. |
| `Merger.ConcatPartsLayout` | Program.cs:91-96 | In the merged bytes, part `i` sits right after the parts before it, so the merge keeps range order. |
| `Merger.DeleteChunkFiles` | Program.cs:100-107 | Exactly the part paths of chunks `0 .. n-1` are removed; every other entry is unchanged. |
| `Merger.DeleteKeepsDestination` | Program.cs:100-107 | The delete step keeps the destination file and its content. |
| `Merger.PartPathsCount` | Program.cs:102-105 | The delete step targets exactly `n` distinct paths. |
| `Progress.ProgressMonotone` | Program.cs:56 | More finished chunks never show less progress. |
| `Progress.ProgressAtMostHundred` | Program.cs:56 | While at most `n` chunks have finished, progress is at most 100. |
| `Progress.ProgressWhenDone` | Program.cs:34-56 | After all `n` chunks, progress is `100 - 100 % n`. It is exactly 100 if and only if `n` divides 100. |
| `Progress.ChunkIndicesAtMostN` | Program.cs:53-58 | Each chunk finishes at most once, so at most `n` completions are counted. |
| `Progress.ReportProgress` | Program.cs:53-58 | There is one notification per finished chunk, in any completion order. The k-th shows `(k + 1) * (100 / n)` whichever chunks finished. No notification exceeds 100, and they never decrease. |
| `Downloader.IndicesWhereExactly` | Program.cs:53-61 | The recorded indices are exactly those whose fetch succeeded, or exactly those whose fetch failed, each once and in ascending order. |
| `Downloader.EverySucceeded` | Program.cs:53-61 | When every fetch succeeds, all `n` chunks are reported finished and none failed. |
| `Downloader.WrittenPartAt` | Program.cs:51 | A successful fetch of chunk `i` leaves its body in part file `i`. |
| `Downloader.WrittenPartsElsewhere` | Program.cs:51 | The fetch phase writes only the part paths. |
| `Downloader.MergeOfWrittenParts` | Program.cs:87-98 | Merging the written parts gives the fetched bodies joined in chunk order. |
| `Downloader.FetchStep` | Program.cs:51-58 | One more fetch writes its body, if any, to its own part file and records its index as succeeded or failed. |
| `Downloader.FetchChunks` | Program.cs:36-61 | Fetches one range per planned chunk. Each successful body goes to that chunk's part file. Returns the succeeded and the failed indices. |
| `Downloader.MergeThenDelete` | Program.cs:63-67 | Once all parts are present, the destination holds them joined in order, every part file is gone, and nothing else changed. |
| `Downloader.DownloadFileInChunks` | Program.cs:23-71 | With no size, nothing changes. With `n == 0` (division by zero) or `n < 0` (task array allocation), nothing changes either. If a fetch fails, the other parts stay written, nothing is merged and the failed indices are reported. Otherwise the destination holds the bodies in chunk order, no part file remains, and nothing else changed. Progress is shown once per successful chunk. |
| `Downloader.Serve` | Program.cs:73-84 | A ranged GET from a server that honours range requests returns `last - first + 1` bytes. |
| `Downloader.ServedChunksRejoin` | Program.cs:23-98 | Against such a server, every chunk fetch succeeds if and only if `n <= fileSize`. The joined bodies are then exactly the original file. |
| `Downloader.JoinedSlices` | Program.cs:36-48 | Slices of the file for contiguous ranges starting at byte 0, joined in order, give the file's bytes up to the end of the last range joined. |
| `Downloader.ServedSlices` | Program.cs:73-84 | With `n <= fileSize`, the server returns for each planned range exactly the bytes of the file it covers. |
| `Downloader.ServedWhole` | Program.cs:23-98 | With `1 <= n <= fileSize`, every fetch succeeds and the bodies joined in chunk order are the file. |
| `Downloader.DownloadFromServer` | Program.cs:23-71 | A full run against such a server with `1 <= n <= fileSize` leaves a byte-for-byte copy of the file at the destination. It removes all part files and leaves the rest of the store unchanged. Its last notification is `100 - 100 % n`. |

## Left out

- HTTP: the HEAD request and the ranged GET (Program.cs:25-30, 73-84) are network I/O. The size probe's answer is the `contentLength` parameter, where `None` means no Content-Length header. The GET is the `fetch` parameter, where `None` means the task faulted.
- Parsing `Content-Length` with `long.Parse`: the size reaches the model as a natural number.
- The HTTP library's own validation of the range it is given is not modelled. The library rejects an empty range such as `(0, -1)` (Program.cs:78), so the program always fails when `n > fileSize`; the model leaves this to `fetch`. `Serve` stands in for it by refusing empty or out-of-file ranges. This is why every fetch succeeds only when `n <= fileSize` (`ServedChunksRejoin`).
- Concurrency: tasks started without waiting, `ContinueWith` continuations and `Task.WhenAll` (Program.cs:51-61) are not modelled. Fetches run one after another in index order. Completions are an arbitrary sequence of distinct indices. Because the part paths are distinct, the store ends the same in any order.
- The race on `progress +=` (two continuations can lose an update) is not modelled, since completions are sequential.
- Continuations are not awaited before the merge, so the model does not capture notifications that arrive after merging starts.
- The message "Chunk {i} downloaded" (Program.cs:55) is not modelled. It captures the loop variable shared by all iterations, so it can print an index other than the finished chunk's.
- Console output, `DisplayProgressBar` text and `Stopwatch` timing (Program.cs:14-19, 63-69, 109-112) are UI and clock concerns; only the progress values are modelled.
- Streams, buffering, disposal and I/O exceptions other than a missing part file are not modelled. The file system is a map from path to bytes, and each write to the destination stream goes straight into the map.

# Parallel chunked download (`fetch.py`), modelled in Dafny

`fetch.py` downloads one large file over HTTP. It takes the file size from a
HEAD request and cuts the file into inclusive byte ranges of `chunk_size`
bytes. It submits one ranged GET per range to a thread pool and keeps the
pending tasks in a singly linked list of `Node(chunk_id, data, next)`. It
then walks the list from its head, waits on each task in turn, writes its
bytes to the output file and moves `head` past the written node.

This project models that core:

- `results.dfy`: `Option` and `Result`.
- `byte_seq.dfy`: bytes and `Concat`, which writes byte strings one after another.
- `range_plan.dfy` (module `RangePlan`): the range planner.
  - `Plan` states the planned ranges range by range.
  - `PlanRanges` is the source's two steps: the comprehension, then the in-place overwrite of the last range's end.
  - Lemmas prove that the ranges tile `[0, file_size)` and what length each range has.
- `range_request.dfy` (module `RangeRequest`): the `Range` header text and how a server reads it.
  - `RangeHeader` is the f-string `bytes=<start>-<end>`.
  - `ParseRange` reads a single int-range as in section 14.1.2 of RFC 9110.
  - `RangeBody` is the bytes that range selects.
  - `HonoursRanges` says that a server answers every satisfiable range with those bytes.
- `chunk_list.dfy` (module `ChunkList`): the `Node` class and two loops.
  - `Build` is the loop that links one node per range.
  - `Drain` is the loop that writes the results from the head.
  - Lemmas about the list's shape.
- `download.dfy` (module `Download`): `download_chunk` and the body of `download_video`.
  - The end-to-end statement: if the server honours byte ranges, the output is the remote file byte for byte.

Modelling decisions:

- The network is a parameter.
  - `server: string -> Bytes` is the GET on the video's URL. It maps the `Range` header value to the response body.
  - `fileSize: nat` is the `Content-Length` from the HEAD request. It is a `nat` because that header's grammar is decimal digits.
- A task (future) is modelled by its resolved value, the bytes `.result()` returns.
  - `Build` stores in node `k` the bytes the server returns for range `k`.
  - `Drain` reads node `k`'s own value. `.result()` waits on that node's future alone, so the order in which tasks complete does not appear in the model. The proved output holds for every completion order.
- The output file is the byte string `Drain` returns.
- Python's `//` rounds toward minus infinity. `FloorDiv` writes that out, so a negative `chunk_size` behaves as in Python: the range is empty and `chunks[-1]` fails.
- `chunk_id` is never reassigned after `Node.__init__`, so it is a `const` field. `data` and `next` are mutable fields.

How planning behaves at its edges:

- The number of ranges is `file_size // chunk_size`, rounded down. The remainder goes into the last range, which ends at `file_size - 1`. So 100 bytes in chunks of 40 give `[0,39]` and `[40,99]` (`PlanExamples`).
- A file smaller than one chunk, the empty file included, gets no range at all: the comprehension is empty and `chunks[-1]` raises `IndexError`. The model returns `Err(EmptyRangeList)`. A `chunk_size` of 0 raises `ZeroDivisionError`, modelled as `Err(DivisionByZero)`. In both cases nothing is fetched or written.

## Model

| member | source | states |
|---|---|---|
| `RangePlan.FloorDiv` | fetch.py:49 | the quotient rounds toward minus infinity for either sign of divisor, as Python's `//` does |
| `RangePlan.Plan` | fetch.py:48-50 | planning succeeds exactly when `0 < chunk_size <= file_size`; a zero chunk size is a division error and any other failure is the empty-list error; on success there are `file_size / chunk_size` ranges |
| `RangePlan.PlanRanges` | fetch.py:48-50 | the comprehension followed by the overwrite of the last range's end yields exactly `Plan` |
| `RangePlan.PlanExamples` | fetch.py:48-50 | 100 bytes in chunks of 40 give `[0,39],[40,99]`; 80 give `[0,39],[40,79]`; 30 and 0 bytes, a zero and a negative chunk size all fail |
| `RangePlan.PlanTiles` | fetch.py:48-50 | the planned ranges tile the file: the first starts at 0, each starts one past the previous end, none is empty, and the last ends at `file_size - 1` |
| `RangePlan.PlanChunkLengths` | fetch.py:48-50 | range `i` starts at `i * chunk_size`; every range but the last is exactly one chunk; the last is `chunk_size + file_size % chunk_size` long, between one and two chunks |
| `RangePlan.TilesOrdered` | fetch.py:48-50 | in a tiling every earlier range ends before every later one starts |
| `RangePlan.TilesWithin` | fetch.py:48-50 | every range of a tiling lies inside `[0, file_size)` |
| `RangePlan.TilesDisjoint` | fetch.py:48-50 | no byte offset lies in two ranges of a tiling |
| `RangePlan.TilesCover` | fetch.py:48-50 | every offset in `[0, file_size)` lies in some range of a tiling |
| `RangePlan.SlicesPrefix` | fetch.py:67-72 | the slices of the first `k` ranges, written in order, are the file up to range `k`'s end |
| `RangePlan.SlicesReassemble` | fetch.py:67-72 | the slices of all ranges of a tiling, written in order, are the whole file |
| `RangeRequest.NatText` | fetch.py:25 | the decimal text of a number is a non-empty digit string without leading zero |
| `RangeRequest.NatTextRoundTrip` | fetch.py:25 | reading back the decimal text of a number gives the number |
| `RangeRequest.IntText` | fetch.py:25 | the text of an int in an f-string field starts with a minus sign exactly when the int is negative, and its digits read back as the magnitude |
| `RangeRequest.RangeHeader` | fetch.py:25 | the header value built for `0 <= start <= end` is read by a server as exactly the range `[start, end]` |
| `RangeRequest.RangeHeaderExample` | fetch.py:25 | the header for `(40, 99)` is `bytes=40-99` |
| `RangeRequest.FirstDash` | fetch.py:25 | the result is the position of the first `-`, or the length when there is none |
| `RangeRequest.ParseRange` | fetch.py:25 | a header that parses names a range with `0 <= start <= end` |
| `RangeRequest.HeaderRoundTrip` | fetch.py:25 | the text `bytes=<start>-<end>` for `0 <= start <= end` parses back to exactly that range |
| `RangeRequest.RangeBody` | fetch.py:25-30 | the selected bytes are `resource[start + i]` in order, `end - start + 1` of them when the range lies inside the resource, clipped at its end otherwise |
| `ChunkList.Node.constructor` | fetch.py:13-17 | a new node carries the given id, data and next, with data and next defaulting to none |
| `ChunkList.PayloadsAt` | fetch.py:67-72 | position `i` of the list's results is node `i`'s result |
| `ChunkList.ChunkIdsAt` | fetch.py:55-57 | position `i` of the list's ids is node `i`'s id |
| `ChunkList.IdsAt` | fetch.py:55 | the ids counted by the loop are `1..n` |
| `ChunkList.NumberedFromOne` | fetch.py:55-60 | nodes whose ids read `1..n` carry id `k + 1` at position `k` |
| `ChunkList.PayloadsFromData` | fetch.py:62-63 | nodes that hold given results, one each and in order, are all resolved and their results in list order are exactly those |
| `ChunkList.ListUnique` | fetch.py:67-72 | the sequence of nodes reachable from a head is determined by the head |
| `ChunkList.ListDistinct` | fetch.py:54-63 | no node occurs twice in a list |
| `ChunkList.WrittenUnreachable` | fetch.py:65-72 | once `head` has moved past `k` nodes, the list from `head` is the remaining nodes and contains none of the written ones |
| `ChunkList.Build` | fetch.py:52-63 | the loop yields a list with one node per range, ids `1..n` in range order, and node `k`'s result is the fetch of range `k` |
| `ChunkList.Drain` | fetch.py:66-72 | the loop visits each node once from head to tail, ends when `head` is none, and outputs the results concatenated in list order |
| `Download.DownloadChunk` | fetch.py:20-36 | for a valid range, the chunk is the server's answer to a request it reads as exactly that range |
| `Download.ChunkIsSlice` | fetch.py:20-36 | from a server that honours byte ranges, a chunk inside the resource is that range's `end - start + 1` bytes |
| `Download.PlanReassembles` | fetch.py:48-72 | the chunks of a successful plan, written in range order, reproduce the resource |
| `Download.DownloadVideo` | fetch.py:39-72 | the modelled download fails exactly when planning does, with the same error; otherwise the output is the chunks in range order, equal to the remote file whenever the server honours byte ranges |

## Left out

- The HEAD request and reading `Content-Length` (fetch.py:46-47) are network I/O. Their result is the `fileSize` parameter.
- The GET (fetch.py:26) is network I/O. It is the `server` parameter. `stream=True` and the URL are folded into it.
- The thread pool, `executor.submit` and the blocking `.result()` (fetch.py:45, 62-63, 68) are concurrency. Each task is its resolved bytes, so completion order and the pool's bound are not modelled.
- Download.DownloadVideo: does not model the `ValueError` that `ThreadPoolExecutor(max_workers=num_threads)` (fetch.py:45) raises when `num_threads <= 0`, as with `-t 0`. That failure happens before the HEAD request and before planning, so the real download can fail where the model succeeds.
- The fetch error path is not modelled. The source does not handle a failed request, and an exception from `.result()` would end the drain with part of the file written.
- Timing, throughput and the verbose prints in `download_chunk` and the drain (fetch.py:27-35, 69-70) are clock readings, floating point and logging.
- Download.DownloadChunk: does not model the `ZeroDivisionError` that the throughput division (fetch.py:33) raises in verbose mode when both `time.time()` readings are equal. `.result()` (fetch.py:68) re-raises it in the drain, which then stops with only the earlier chunks written. The model assumes the clock always advances, or verbose mode is off.
- `num_chunks = len(chunks) + 1` (fetch.py:53) is passed only to those prints. It is one more than the number of chunks, but the value never affects what is fetched or written.
- Opening and writing the output file (fetch.py:66, 71) are file I/O. The output is a byte string.
- Argument parsing and the output name from `os.path.basename` (fetch.py:75-98) are command-line glue.
- Freeing memory is not expressible beyond reachability. `WrittenUnreachable` states that written nodes are no longer reachable from `head`.
- `RangeRequest.ParseRange` reads only the `bytes=<first>-<last>` form that the downloader sends. It does not read suffix ranges, open-ended ranges, several ranges, whitespace, or a range unit in other letter case.

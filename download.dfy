/**
 * `download_chunk` and `download_video`: plan the ranges, build the task
 * list, drain it into the output.
 *
 * The network is a parameter: `server` maps the `Range` header value of a
 * GET on the video's URL to the body of the response, and `fileSize` is the
 * `Content-Length` that the HEAD request reported.
 */
module Download {
  import opened Results
  import opened ByteSeq
  import opened RangePlan
  import opened RangeRequest
  import opened ChunkList

  /**
   * One ranged GET: the body the server sends for the header
   * `bytes=<start>-<end>`. For a valid range that is the server's answer to a
   * request the server reads as exactly `r`.
   */
  function DownloadChunk(server: string -> Bytes, r: ByteRange): (body: Bytes)
    ensures 0 <= r.start <= r.end ==> exists h :: ParseRange(h) == Some(r) && body == server(h)
  {
    var h := RangeHeader(r.start, r.end);
    server(h)
  }

  /** The chunk bodies for `ranges`, in range order. */
  function FetchAll(server: string -> Bytes, ranges: seq<ByteRange>): (r: seq<Bytes>)
    ensures |r| == |ranges|
  {
    seq(|ranges|, i requires 0 <= i < |ranges| => DownloadChunk(server, ranges[i]))
  }

  /**
   * From a server that honours byte ranges, a chunk whose range lies in the
   * resource is exactly that range's bytes: `end - start + 1` of them.
   */
  lemma ChunkIsSlice(server: string -> Bytes, resource: Bytes, r: ByteRange)
    requires HonoursRanges(server, resource)
    requires 0 <= r.start <= r.end < |resource|
    ensures DownloadChunk(server, r) == Slice(resource, r)
    ensures |DownloadChunk(server, r)| == Length(r)
  {
    assert ParseRange(RangeHeader(r.start, r.end)) == Some(r);
  }

  /**
   * Writing the chunks of a successful plan in range order reproduces the
   * resource byte for byte.
   */
  lemma PlanReassembles(server: string -> Bytes, resource: Bytes, chunkSize: int)
    requires HonoursRanges(server, resource)
    requires Plan(|resource|, chunkSize).Ok?
    ensures Concat(FetchAll(server, Plan(|resource|, chunkSize).value)) == resource
  {
    var ranges := Plan(|resource|, chunkSize).value;
    PlanTiles(|resource|, chunkSize);
    SlicesReassemble(resource, ranges);
    forall i | 0 <= i < |ranges|
      ensures FetchAll(server, ranges)[i] == Slices(resource, ranges)[i]
    {
      ChunkIsSlice(server, resource, ranges[i]);
    }
    assert FetchAll(server, ranges) == Slices(resource, ranges);
  }

  /**
   * The body of `download_video` after the HEAD request: plan, build, drain.
   * Planning fails before anything is fetched or written; otherwise the
   * output is the chunks in range order, which is the resource itself when
   * the server honours byte ranges.
   */
  method DownloadVideo(fileSize: nat, chunkSize: int, server: string -> Bytes) returns (r: Result<Bytes, PlanError>)
    ensures r.Ok? <==> 0 < chunkSize <= fileSize
    ensures r.Err? ==> r.error == (if chunkSize == 0 then DivisionByZero else EmptyRangeList)
    ensures r.Ok? ==> r.value == Concat(FetchAll(server, Plan(fileSize, chunkSize).value))
    ensures r.Ok? ==> forall resource :: |resource| == fileSize && HonoursRanges(server, resource) ==> r.value == resource
  {
    var chunks := PlanRanges(fileSize, chunkSize);
    if chunks.Err? {
      return Err(chunks.error);
    }
    var head, nodes := Build(chunks.value, rg => DownloadChunk(server, rg));
    var output := Drain(head, nodes);
    assert Payloads(nodes) == FetchAll(server, chunks.value);
    r := Ok(output);
    forall resource | |resource| == fileSize && HonoursRanges(server, resource)
      ensures output == resource
    {
      PlanReassembles(server, resource, chunkSize);
    }
  }
}

/**
 * The range planner of `download_video`: the list comprehension that cuts
 * `file_size` bytes into inclusive `(start, end)` pairs of `chunk_size`
 * bytes, and the overwrite of the last pair's end with `file_size - 1`.
 */
module RangePlan {
  import opened Results
  import opened ByteSeq

  /** An inclusive byte range `start..end`, the `(start, end)` tuple of the source. */
  datatype ByteRange = ByteRange(start: int, end: int)

  /** The number of bytes an inclusive range names. */
  function Length(r: ByteRange): int {
    r.end - r.start + 1
  }

  predicate Contains(r: ByteRange, offset: int) {
    r.start <= offset <= r.end
  }

  /** How planning fails: `file_size // 0`, or `chunks[-1]` on an empty list. */
  datatype PlanError = DivisionByZero | EmptyRangeList

  /** Integer division that rounds toward minus infinity, as Python's `//` does. */
  function FloorDiv(a: int, b: int): (q: int)
    requires b != 0
    ensures b > 0 ==> b * q <= a < b * q + b
    ensures b < 0 ==> b * q + b < a <= b * q
  {
    if b > 0 then a / b else (-a) / (-b)
  }

  /**
   * The planned ranges, stated range by range: range `i` starts at
   * `i * chunkSize` and ends one byte before the next chunk, except the last,
   * which ends at the last byte of the file.
   */
  function Plan(fileSize: nat, chunkSize: int): (r: Result<seq<ByteRange>, PlanError>)
    ensures r.Ok? <==> 0 < chunkSize <= fileSize
    ensures r.Err? ==> r.error == (if chunkSize == 0 then DivisionByZero else EmptyRangeList)
    ensures r.Ok? ==> |r.value| == fileSize / chunkSize
  {
    if chunkSize == 0 then Err(DivisionByZero)
    else
      var n := FloorDiv(fileSize, chunkSize);
      if n <= 0 then Err(EmptyRangeList)
      else
        Ok(seq(n, i requires 0 <= i < n =>
          ByteRange(i * chunkSize, if i == n - 1 then fileSize - 1 else (i + 1) * chunkSize - 1)))
  }

  /**
   * The comprehension over `range(file_size // chunk_size)`, then the
   * in-place update of its last element.
   */
  method PlanRanges(fileSize: nat, chunkSize: int) returns (r: Result<seq<ByteRange>, PlanError>)
    ensures r == Plan(fileSize, chunkSize)
  {
    if chunkSize == 0 {
      return Err(DivisionByZero);
    }
    var count := FloorDiv(fileSize, chunkSize);
    var chunks := seq(if count < 0 then 0 else count, i => ByteRange(i * chunkSize, (i + 1) * chunkSize - 1));
    if |chunks| == 0 {
      return Err(EmptyRangeList);
    }
    var last := |chunks| - 1;
    chunks := chunks[last := ByteRange(chunks[last].start, fileSize - 1)];
    r := Ok(chunks);
    assert r.value == Plan(fileSize, chunkSize).value;
  }

  /**
   * 100 bytes in chunks of 40 give two ranges, the second taking the 20-byte
   * remainder; a file smaller than one chunk, the empty file among them, has
   * no range to take it and fails.
   */
  lemma PlanExamples()
    ensures Plan(100, 40) == Ok([ByteRange(0, 39), ByteRange(40, 99)])
    ensures Plan(80, 40) == Ok([ByteRange(0, 39), ByteRange(40, 79)])
    ensures Plan(30, 40) == Err(EmptyRangeList)
    ensures Plan(0, 40) == Err(EmptyRangeList)
    ensures Plan(100, 0) == Err(DivisionByZero)
    ensures Plan(100, -40) == Err(EmptyRangeList)
  {
    assert Plan(100, 40).value == [ByteRange(0, 39), ByteRange(40, 99)];
    assert Plan(80, 40).value == [ByteRange(0, 39), ByteRange(40, 79)];
  }

  /**
   * `ranges` tile the bytes `0..fileSize-1`: the first starts at 0, each
   * starts one byte after the previous one ends, none is empty, and the last
   * ends at the last byte.
   */
  predicate Tiles(ranges: seq<ByteRange>, fileSize: int) {
    && |ranges| > 0
    && ranges[0].start == 0
    && (forall i :: 0 <= i < |ranges| ==> ranges[i].start <= ranges[i].end)
    && (forall i :: 0 < i < |ranges| ==> ranges[i].start == ranges[i - 1].end + 1)
    && ranges[|ranges| - 1].end == fileSize - 1
  }

  /** The planned ranges tile the file. */
  lemma PlanTiles(fileSize: nat, chunkSize: int)
    requires Plan(fileSize, chunkSize).Ok?
    ensures Tiles(Plan(fileSize, chunkSize).value, fileSize)
  {
    var ranges := Plan(fileSize, chunkSize).value;
    var n := |ranges|;
    assert n * chunkSize <= fileSize;
    forall i | 0 <= i < n
      ensures ranges[i].start <= ranges[i].end
    {
      if i < n - 1 {
        assert ranges[i].end - ranges[i].start == chunkSize - 1;
      } else {
        assert ranges[i].start == (n - 1) * chunkSize <= n * chunkSize - 1;
      }
    }
    forall i | 0 < i < n
      ensures ranges[i].start == ranges[i - 1].end + 1
    {
      assert ranges[i - 1].end == i * chunkSize - 1;
    }
  }

  /**
   * Every range but the last is exactly one chunk; the last absorbs the
   * remainder `fileSize % chunkSize`, so it is at least one chunk and less
   * than two, and no extra range is made for the remainder.
   */
  lemma PlanChunkLengths(fileSize: nat, chunkSize: int)
    requires Plan(fileSize, chunkSize).Ok?
    ensures var ranges := Plan(fileSize, chunkSize).value;
      && (forall i :: 0 <= i < |ranges| ==> ranges[i].start == i * chunkSize)
      && (forall i :: 0 <= i < |ranges| - 1 ==> Length(ranges[i]) == chunkSize)
      && Length(ranges[|ranges| - 1]) == chunkSize + fileSize % chunkSize
      && chunkSize <= Length(ranges[|ranges| - 1]) < 2 * chunkSize
  {
    var ranges := Plan(fileSize, chunkSize).value;
    var n := |ranges|;
    assert fileSize == n * chunkSize + fileSize % chunkSize;
    assert ranges[n - 1].start == (n - 1) * chunkSize == n * chunkSize - chunkSize;
  }

  /** In a tiling, earlier ranges lie wholly before later ones. */
  lemma {:induction false} TilesOrdered(ranges: seq<ByteRange>, fileSize: int, i: int, j: int)
    requires Tiles(ranges, fileSize)
    requires 0 <= i < j < |ranges|
    ensures ranges[i].end < ranges[j].start
    decreases j - i
  {
    if j > i + 1 {
      TilesOrdered(ranges, fileSize, i, j - 1);
    }
  }

  /** Every range of a tiling lies inside the file. */
  lemma TilesWithin(ranges: seq<ByteRange>, fileSize: int, i: int)
    requires Tiles(ranges, fileSize)
    requires 0 <= i < |ranges|
    ensures 0 <= ranges[i].start <= ranges[i].end < fileSize
  {
    if i > 0 {
      TilesOrdered(ranges, fileSize, 0, i);
    }
    if i < |ranges| - 1 {
      TilesOrdered(ranges, fileSize, i, |ranges| - 1);
    }
  }

  /** No byte offset lies in two ranges of a tiling. */
  lemma TilesDisjoint(ranges: seq<ByteRange>, fileSize: int, i: int, j: int, offset: int)
    requires Tiles(ranges, fileSize)
    requires 0 <= i < |ranges| && 0 <= j < |ranges|
    requires Contains(ranges[i], offset) && Contains(ranges[j], offset)
    ensures i == j
  {
    if i < j {
      TilesOrdered(ranges, fileSize, i, j);
    } else if j < i {
      TilesOrdered(ranges, fileSize, j, i);
    }
  }

  /** Every byte offset of the file lies in some range of a tiling. */
  lemma {:induction false} TilesCover(ranges: seq<ByteRange>, fileSize: int, offset: int) returns (i: nat)
    requires Tiles(ranges, fileSize)
    requires 0 <= offset < fileSize
    ensures i < |ranges| && Contains(ranges[i], offset)
    decreases |ranges|
  {
    var last := |ranges| - 1;
    if ranges[last].start <= offset {
      i := last;
    } else {
      var init := ranges[..last];
      assert Tiles(init, ranges[last].start);
      i := TilesCover(init, ranges[last].start, offset);
    }
  }

  /** The source bytes a range names. */
  function Slice(resource: Bytes, r: ByteRange): Bytes
    requires 0 <= r.start <= r.end < |resource|
  {
    resource[r.start..r.end + 1]
  }

  /** Each range's slice of the resource, in range order. */
  function Slices(resource: Bytes, ranges: seq<ByteRange>): seq<Bytes>
    requires forall i :: 0 <= i < |ranges| ==> 0 <= ranges[i].start <= ranges[i].end < |resource|
  {
    seq(|ranges|, i requires 0 <= i < |ranges| => Slice(resource, ranges[i]))
  }

  /** The slices of the first `k` ranges of a tiling form the file's prefix up to range `k - 1`'s end. */
  lemma {:induction false} SlicesPrefix(resource: Bytes, ranges: seq<ByteRange>, k: nat)
    requires Tiles(ranges, |resource|)
    requires forall i :: 0 <= i < |ranges| ==> 0 <= ranges[i].start <= ranges[i].end < |resource|
    requires 1 <= k <= |ranges|
    ensures Concat(Slices(resource, ranges)[..k]) == resource[..ranges[k - 1].end + 1]
  {
    var slices := Slices(resource, ranges);
    assert slices[..k] == slices[..k - 1] + [slices[k - 1]];
    ConcatSnoc(slices[..k - 1], slices[k - 1]);
    if k == 1 {
      assert slices[..0] == [];
    } else {
      SlicesPrefix(resource, ranges, k - 1);
    }
  }

  /** Writing the slices of a tiling in range order gives back the resource. */
  lemma SlicesReassemble(resource: Bytes, ranges: seq<ByteRange>)
    requires Tiles(ranges, |resource|)
    ensures forall i :: 0 <= i < |ranges| ==> 0 <= ranges[i].start <= ranges[i].end < |resource|
    ensures Concat(Slices(resource, ranges)) == resource
  {
    forall i | 0 <= i < |ranges|
      ensures 0 <= ranges[i].start <= ranges[i].end < |resource|
    {
      TilesWithin(ranges, |resource|, i);
    }
    SlicesPrefix(resource, ranges, |ranges|);
    assert Slices(resource, ranges)[..|ranges|] == Slices(resource, ranges);
  }
}

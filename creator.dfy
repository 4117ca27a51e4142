/**
 * The bmap creator: validates the image, then streams the block map as a
 * sequence of `info` calls on the output logger: the file start with the
 * image geometry, one element per range (with an optional SHA-1 of as many
 * bytes as the range spans, read from where the previous checksum stopped),
 * and the file end with the mapped-block totals.
 */
module Creator {
  import opened Common
  import opened Errors
  import opened Geometry
  import opened BlockRanges
  import opened Coalescer
  import opened ImageFile
  import opened Checksum

  /** The bmap format version written in the file start. */
  const BmapVersion: string := "1.2"

  /** One `info` call on the output logger, reduced to the values it carries. */
  datatype Info =
    | FileStart(version: string, imageSize: nat, blockSize: nat, blocksCnt: nat)
    | RangeElement(first: nat, last: nat, sha1: Option<string>)
    | FileEnd(mappedSize: int, mappedCnt: int)

  /** The hex SHA-1 digest of a byte string (the hash object fed the bytes, then `hexdigest`). */
  type Sha1 = seq<byte> -> string

  /** The bytes the checksum of range `r` reads: `(last + 1) * blockSize - first * blockSize`, none when that is not positive. */
  function Span(r: Range, blockSize: nat): nat
  {
    var toRead := (r.last + 1) * blockSize - r.first * blockSize;
    if toRead > 0 then toRead else 0
  }

  /** The bytes the checksums of all of `rs` read, one after the other. */
  function SumSpans(rs: seq<Range>, blockSize: nat): nat
  {
    if rs == [] then 0 else SumSpans(rs[..|rs| - 1], blockSize) + Span(rs[|rs| - 1], blockSize)
  }

  /**
   * The range elements emitted for `rs`, in order. The checksum reader does
   * not seek: the digest of a range covers the bytes that follow those read
   * for the ranges before it, starting from offset 0.
   */
  function RangeElements(rs: seq<Range>, content: seq<byte>, blockSize: nat, includeChecksums: bool, sha1: Sha1): (lines: seq<Info>)
    ensures |lines| == |rs|
  {
    if rs == [] then []
    else
      var before := rs[..|rs| - 1];
      var r := rs[|rs| - 1];
      var attr := if includeChecksums then Some(sha1(ReadAt(content, SumSpans(before, blockSize), Span(r, blockSize)))) else None;
      RangeElements(before, content, blockSize, includeChecksums, sha1) + [RangeElement(r.first, r.last, attr)]
  }

  /** What a reader of the output recovers as the block map: the ranges of its range elements, in order. */
  function ParsedRanges(lines: seq<Info>): seq<Range>
  {
    if lines == [] then []
    else
      var line := lines[|lines| - 1];
      ParsedRanges(lines[..|lines| - 1]) + (if line.RangeElement? then [Range(line.first, line.last)] else [])
  }

  /**
   * The `k`-th range element names the `k`-th range, and carries a digest
   * exactly when checksums are requested: the SHA-1 of the span of that
   * range read from the offset where the earlier ranges' reads stopped.
   */
  lemma {:induction false} RangeElementAt(rs: seq<Range>, content: seq<byte>, blockSize: nat, includeChecksums: bool, sha1: Sha1, k: nat)
    requires k < |rs|
    ensures RangeElements(rs, content, blockSize, includeChecksums, sha1)[k]
         == RangeElement(rs[k].first, rs[k].last,
                         if includeChecksums then Some(sha1(ReadAt(content, SumSpans(rs[..k], blockSize), Span(rs[k], blockSize)))) else None)
    decreases |rs|
  {
    var before := rs[..|rs| - 1];
    if k < |rs| - 1 {
      RangeElementAt(before, content, blockSize, includeChecksums, sha1, k);
      assert before[..k] == rs[..k];
    }
  }

  /** A reader parsing the range elements gets back exactly the ranges emitted. */
  lemma {:induction false} ParseRangeElements(rs: seq<Range>, content: seq<byte>, blockSize: nat, includeChecksums: bool, sha1: Sha1)
    ensures ParsedRanges(RangeElements(rs, content, blockSize, includeChecksums, sha1)) == rs
    decreases |rs|
  {
    if rs != [] {
      var before := rs[..|rs| - 1];
      var lines := RangeElements(rs, content, blockSize, includeChecksums, sha1);
      ParseRangeElements(before, content, blockSize, includeChecksums, sha1);
      assert lines[..|lines| - 1] == RangeElements(before, content, blockSize, includeChecksums, sha1);
      assert before + [rs[|rs| - 1]] == rs;
    }
  }

  /**
   * The round trip of the document: re-summing the lengths of the ranges a
   * reader parses from the range elements and the file end reproduces the
   * mapped block count that the file end states.
   */
  lemma DocumentCountsAgree(rs: seq<Range>, content: seq<byte>, blockSize: nat, includeChecksums: bool, sha1: Sha1)
    ensures var body := RangeElements(rs, content, blockSize, includeChecksums, sha1);
            var end := FileEnd(SumLengths(rs) * blockSize, SumLengths(rs));
            SumLengths(ParsedRanges(body + [end])) == end.mappedCnt
  {
    var body := RangeElements(rs, content, blockSize, includeChecksums, sha1);
    var end := FileEnd(SumLengths(rs) * blockSize, SumLengths(rs));
    ParseRangeElements(rs, content, blockSize, includeChecksums, sha1);
    assert (body + [end])[..|body|] == body;
    assert ParsedRanges(body + [end]) == ParsedRanges(body);
  }

  /** How the running totals of the pass grow when range `k` is emitted. */
  lemma EmitStep(rs: seq<Range>, k: nat, content: seq<byte>, blockSize: nat, includeChecksums: bool, sha1: Sha1)
    requires k < |rs|
    ensures SumLengths(rs[..k + 1]) == SumLengths(rs[..k]) + Len(rs[k])
    ensures SumSpans(rs[..k + 1], blockSize) == SumSpans(rs[..k], blockSize) + Span(rs[k], blockSize)
    ensures RangeElements(rs[..k + 1], content, blockSize, includeChecksums, sha1)
         == RangeElements(rs[..k], content, blockSize, includeChecksums, sha1)
            + [RangeElement(rs[k].first, rs[k].last,
                            if includeChecksums then Some(sha1(ReadAt(content, SumSpans(rs[..k], blockSize), Span(rs[k], blockSize)))) else None)]
  {
    assert rs[..k + 1][..k] == rs[..k];
  }

  /** Reading from a position clamped to the end of the file is reading from the position itself. */
  lemma ReadFromClamped(content: seq<byte>, pos: nat, size: nat)
    ensures ReadAt(content, Min(pos, |content|), size) == ReadAt(content, pos, size)
    ensures PosAfterRead(content, Min(pos, |content|), size) == Min(pos + size, |content|)
  {
  }

  /** A well-formed range's checksum reads its blocks' bytes: `(last - first + 1) * blockSize`. */
  lemma SpanIsRangeBytes(r: Range, blockSize: nat)
    requires r.first <= r.last
    ensures Span(r, blockSize) == Len(r) * blockSize
  {
    assert (r.last + 1) * blockSize - r.first * blockSize == (r.last + 1 - r.first) * blockSize;
  }

  /**
   * A checksum that first seeks to the start of its range reads exactly the
   * blocks of the range, whatever was read before: bytes
   * `first * blockSize` up to `(last + 1) * blockSize` of an image that holds them.
   */
  lemma SeekingChecksumCoversRange(content: seq<byte>, r: Range, blockSize: nat)
    requires r.first <= r.last && (r.last + 1) * blockSize <= |content|
    ensures r.first * blockSize <= (r.last + 1) * blockSize
    ensures ReadAt(content, r.first * blockSize, Span(r, blockSize)) == content[r.first * blockSize..(r.last + 1) * blockSize]
    ensures |ReadAt(content, r.first * blockSize, Span(r, blockSize))| == Len(r) * blockSize
  {
    SpanIsRangeBytes(r, blockSize);
    assert (r.last + 1) * blockSize == r.first * blockSize + Len(r) * blockSize;
  }

  /**
   * The checksum reads of a pass over well-formed ranges request, in all,
   * the mapped size: the mapped block count times the block size.
   */
  lemma {:induction false} SumSpansIsMappedBytes(rs: seq<Range>, blockSize: nat)
    requires forall k | 0 <= k < |rs| :: rs[k].first <= rs[k].last
    ensures SumSpans(rs, blockSize) == SumLengths(rs) * blockSize
    decreases |rs|
  {
    if rs != [] {
      var before := rs[..|rs| - 1];
      SumSpansIsMappedBytes(before, blockSize);
      SpanIsRangeBytes(rs[|rs| - 1], blockSize);
      assert (SumLengths(before) + Len(rs[|rs| - 1])) * blockSize
          == SumLengths(before) * blockSize + Len(rs[|rs| - 1]) * blockSize;
    }
  }

  /**
   * With checksums, the pass over the ranges `generate` yields leaves the
   * image at the mapped size (the mapped count times the block size), or at
   * its end when that lies beyond it.
   */
  lemma ChecksumPassEnd(oracle: Oracle, n: nat, content: seq<byte>, blockSize: nat)
    ensures Min(SumSpans(Yielded(oracle, n), blockSize), |content|)
         == Min(SumLengths(Yielded(oracle, n)) * blockSize, |content|)
  {
    var k := FirstFailure(oracle, n);
    var m := Signal(oracle, k);
    var rs := Yielded(oracle, n);
    if k == n {
      RangesAreBlockMap(m);
      forall j | 0 <= j < |rs| ensures rs[j].first <= rs[j].last {
        assert IsMaximalRun(m, rs[j]);
      }
    } else {
      ClosedAreFinishedRuns(m);
    }
    SumSpansIsMappedBytes(rs, blockSize);
  }

  /**
   * A 2048-byte image of 512-byte blocks whose first two blocks are mapped
   * and last two are holes: 4 blocks, a single range `0-1`, 2 mapped blocks
   * (50 per cent of the image), and no error.
   */
  lemma FourBlockImage(oracle: Oracle)
    requires oracle(0).Done? && oracle(0).value != 0 && oracle(1).Done? && oracle(1).value != 0
    requires oracle(2) == Done(0) && oracle(3) == Done(0)
    ensures BlocksCount(2048, 512) == 4
    ensures ScanError(oracle, 4) == None
    ensures Yielded(oracle, 4) == [Range(0, 1)]
    ensures SumLengths(Yielded(oracle, 4)) == 2
    ensures SumLengths(Yielded(oracle, 4)) * 100 == 50 * BlocksCount(2048, 512)
  {
    assert BlocksCount(2048, 512) == 4;
    FourBlockSignal(oracle);
    TwoMappedTwoHoles();
  }

  /** The FIBMAP answers of the four-block image: every query answered, mapped, mapped, hole, hole. */
  lemma FourBlockSignal(oracle: Oracle)
    requires oracle(0).Done? && oracle(0).value != 0 && oracle(1).Done? && oracle(1).value != 0
    requires oracle(2) == Done(0) && oracle(3) == Done(0)
    ensures ScanError(oracle, 4) == None
    ensures Yielded(oracle, 4) == Ranges([true, true, false, false])
  {
    FirstFailureAt(oracle, 4, 4);
    assert Signal(oracle, 4) == [true, true, false, false];
  }

  /** The block map of the signal mapped, mapped, hole, hole, computed block by block. */
  lemma TwoMappedTwoHoles()
    ensures Ranges([true, true, false, false]) == [Range(0, 1)]
    ensures SumLengths([Range(0, 1)]) == 2
  {
    var m0: seq<bool> := [];
    var m1 := m0 + [true];
    var m2 := m1 + [true];
    var m3 := m2 + [false];
    RangesSnoc(m0, true);
    RangesSnoc(m1, true);
    RangesSnoc(m2, false);
    RangesSnoc(m3, false);
    assert m3 + [false] == [true, true, false, false];
    assert [Range(0, 1)][..0] == [];
  }

  /**
   * The checksum reader never seeks to a range's own offset: with one-byte
   * blocks, content `[7, 9]` and only block 1 mapped, the digest of range
   * `1-1` is that of byte 7 (offset 0, where the image was rewound to), not
   * of byte 9 (the range's own byte).
   */
  lemma ChecksumDoesNotSeek(sha1: Sha1)
    ensures Ranges([false, true]) == [Range(1, 1)]
    ensures RangeElements([Range(1, 1)], [7, 9], 1, true, sha1) == [RangeElement(1, 1, Some(sha1([7])))]
  {
    var m0: seq<bool> := [];
    RangesSnoc(m0, false);
    RangesSnoc(m0 + [false], true);
    assert m0 + [false] + [true] == [false, true];
    assert [Range(1, 1)][..0] == [];
    assert ReadAt([7, 9], 0, 1) == [7];
  }

  /**
   * The one case the missing seek gets right: a first range that starts at
   * block 0 is read from offset 0, its own offset, so its digest covers its
   * own blocks.
   */
  lemma FirstRangeAtZeroGetsOwnBytes(rs: seq<Range>, content: seq<byte>, blockSize: nat, sha1: Sha1)
    requires rs != [] && rs[0].first == 0 && rs[0].first <= rs[0].last
    requires (rs[0].last + 1) * blockSize <= |content|
    ensures RangeElements(rs, content, blockSize, true, sha1)[0]
         == RangeElement(0, rs[0].last, Some(sha1(content[..(rs[0].last + 1) * blockSize])))
  {
    RangeElementAt(rs, content, blockSize, true, sha1, 0);
    assert rs[..0] == [];
    SeekingChecksumCoversRange(content, rs[0], blockSize);
  }

  /**
   * The state of the counting loop of `generate` once the first `k` ranges
   * of `rs` are emitted, starting from output `out0` with the image rewound:
   * the count of their blocks, their range elements appended, and the image
   * positioned after their checksum reads.
   */
  ghost predicate Emitted(rs: seq<Range>, k: nat, out0: seq<Info>, content: seq<byte>, blockSize: nat,
                          includeChecksums: bool, sha1: Sha1, mappedCnt: Option<int>, output: seq<Info>, pos: nat)
    requires k <= |rs|
  {
    mappedCnt == Some(SumLengths(rs[..k]))
    && output == out0 + RangeElements(rs[..k], content, blockSize, includeChecksums, sha1)
    && pos == if includeChecksums then Min(SumSpans(rs[..k], blockSize), |content|) else 0
  }

  /** Emitting range `k` the way one turn of the loop does moves the loop from state `k` to state `k + 1`. */
  lemma EmitAdvance(rs: seq<Range>, k: nat, out0: seq<Info>, content: seq<byte>, blockSize: nat,
                    includeChecksums: bool, sha1: Sha1, mappedCnt: int, output: seq<Info>, pos: nat)
    requires k < |rs|
    requires Emitted(rs, k, out0, content, blockSize, includeChecksums, sha1, Some(mappedCnt), output, pos)
    ensures Emitted(rs, k + 1, out0, content, blockSize, includeChecksums, sha1,
                    Some(mappedCnt + Len(rs[k])),
                    output + [RangeElement(rs[k].first, rs[k].last,
                                           if includeChecksums then Some(sha1(ReadAt(content, pos, Span(rs[k], blockSize)))) else None)],
                    if includeChecksums then PosAfterRead(content, pos, Span(rs[k], blockSize)) else pos)
  {
    EmitStep(rs, k, content, blockSize, includeChecksums, sha1);
    ReadFromClamped(content, SumSpans(rs[..k], blockSize), Span(rs[k], blockSize));
  }

  /**
   * The state of the chunk loop of the checksum reader after `read` of the
   * `total` bytes asked for, from a start position `pos0`: the bytes hashed
   * so far are those one read of `read` bytes returns, the image is where
   * that read leaves it, and `sizes`, the chunk sizes asked for so far, is
   * a prefix of the chunk plan for `total` bytes.
   */
  ghost predicate ChunksRead(content: seq<byte>, pos0: nat, total: nat, read: nat, hashed: seq<byte>, pos: nat, sizes: seq<nat>)
  {
    read <= total
    && hashed == ReadAt(content, pos0, read)
    && pos == PosAfterRead(content, pos0, read)
    && sizes + ChunkPlan(total - read) == ChunkPlan(total)
  }

  /** Reading one more chunk of the planned size, and hashing it, moves the chunk loop on by that size. */
  lemma ChunkAdvance(content: seq<byte>, pos0: nat, total: nat, read: nat, hashed: seq<byte>, pos: nat, sizes: seq<nat>, c: nat)
    requires ChunksRead(content, pos0, total, read, hashed, pos, sizes)
    requires read < total
    requires c == if total - read < ChunkSize then total - read else ChunkSize
    ensures ChunksRead(content, pos0, total, read + c, hashed + ReadAt(content, pos, c), PosAfterRead(content, pos, c), sizes + [c])
  {
    ChunkPlanAdvance(sizes, total, read, c);
    ReadsConcatenate(content, pos0, read, c);
  }

  /** The host-side state a `BmapCreator` holds once constructed. */
  class BmapCreator {
    const imagePath: string
    const image: File
    const fibmap: Oracle
    const imageSize: nat
    const blockSize: nat
    const blocksCnt: nat
    var mappedCnt: Option<int>
    var mappedSize: Option<int>
    /** The `info` calls made on the output logger, oldest first. */
    var output: seq<Info>

    /** The geometry fixed at construction: a non-empty image, a positive block size, the rounded-up block count. */
    ghost predicate Valid()
    {
      imageSize == |image.content| && imageSize > 0 && blockSize > 0
      && blocksCnt == BlocksCount(imageSize, blockSize)
    }

    constructor (imagePath: string, image: File, fibmap: Oracle, imageSize: nat, blockSize: nat, blocksCnt: nat)
      requires imageSize == |image.content| && imageSize > 0 && blockSize > 0
      requires blocksCnt == BlocksCount(imageSize, blockSize)
      ensures Valid()
      ensures this.imagePath == imagePath && this.image == image && this.fibmap == fibmap
      ensures this.imageSize == imageSize && this.blockSize == blockSize && this.blocksCnt == blocksCnt
      ensures mappedCnt == None && mappedSize == None && output == []
    {
      this.imagePath := imagePath;
      this.image := image;
      this.fibmap := fibmap;
      this.imageSize := imageSize;
      this.blockSize := blockSize;
      this.blocksCnt := blocksCnt;
      mappedCnt := None;
      mappedSize := None;
      output := [];
    }

    /**
     * Construction: open the image, take its size, ask the host for its
     * block size, compute the block count, and probe FIBMAP on block 0 so
     * that a missing privilege shows up before any output. `openReply`,
     * `figetbsz` and `fibmap` are the host's answers to open(), the FIGETBSZ
     * ioctl and the FIBMAP ioctl.
     */
    static method Create(imagePath: string, openReply: Reply<seq<byte>>, figetbsz: Reply<nat>, fibmap: Oracle)
      returns (res: Result<BmapCreator, Exception>)
      ensures openReply.Failed? ==> res == Failure(BmapError(CannotOpenImage, openReply.errno))
      ensures openReply.Done? && |openReply.value| == 0 ==> res == Failure(UnboundLocalError)
      ensures openReply.Done? && |openReply.value| > 0 && figetbsz.Failed?
              ==> res == Failure(BmapError(CannotGetBlockSize, figetbsz.errno))
      ensures openReply.Done? && |openReply.value| > 0 && figetbsz == Done(0) ==> res == Failure(ZeroDivisionError)
      ensures openReply.Done? && |openReply.value| > 0 && figetbsz.Done? && figetbsz.value > 0 && fibmap(0).Failed?
              ==> var e := fibmap(0).errno;
                  res == Failure(BmapError(if e == EPERM || e == EACCES then NoFibmapPermission else FibmapFailed, e))
      ensures openReply.Done? && |openReply.value| > 0 && figetbsz.Done? && figetbsz.value > 0 && fibmap(0).Done?
              ==> res.Success?
      ensures res.Success? ==>
                var c := res.value;
                fresh(c) && fresh(c.image) && c.Valid()
                && c.imagePath == imagePath && c.fibmap == fibmap
                && c.image.content == openReply.value && c.image.pos == 0
                && c.imageSize == |openReply.value| && c.blockSize == figetbsz.value
                && c.blocksCnt == BlocksCount(|openReply.value|, figetbsz.value)
                && c.mappedCnt == None && c.mappedSize == None && c.output == []
    {
      if openReply.Failed? {
        return Failure(BmapError(CannotOpenImage, openReply.errno));
      }
      var f := new File(openReply.value);
      var imageSize := |f.content|;
      if imageSize == 0 {
        return Failure(UnboundLocalError);
      }
      if figetbsz.Failed? {
        return Failure(BmapError(CannotGetBlockSize, figetbsz.errno));
      }
      var blockSize := figetbsz.value;
      if blockSize == 0 {
        return Failure(ZeroDivisionError);
      }
      var blocksCnt := (imageSize + blockSize - 1) / blockSize;
      var probe := IsMapped(fibmap(0));
      if probe.Failure? {
        var e := probe.error.errno;
        if e == EPERM || e == EACCES {
          return Failure(BmapError(NoFibmapPermission, e));
        }
        return Failure(probe.error);
      }
      var c := new BmapCreator(imagePath, f, fibmap, imageSize, blockSize, blocksCnt);
      return Success(c);
    }

    /**
     * The SHA-1 of range `first-last`: reads its span from the CURRENT
     * position of the image, in chunks of at most 1 MiB, feeding each chunk
     * to the hash. `sizes` records the sizes asked for, in order.
     */
    method CalculateSha1(first: nat, last: nat, sha1: Sha1) returns (digest: string, ghost sizes: seq<nat>)
      modifies image
      ensures digest == sha1(ReadAt(image.content, old(image.pos), Span(Range(first, last), blockSize)))
      ensures image.pos == PosAfterRead(image.content, old(image.pos), Span(Range(first, last), blockSize))
      ensures sizes == ChunkPlan(Span(Range(first, last), blockSize))
    {
      var start := first * blockSize;
      var end := (last + 1) * blockSize;
      var hashed: seq<byte> := [];  // every byte given to the hash object so far
      var chunkSize: nat := ChunkSize;
      var toRead := end - start;
      var read: nat := 0;
      ghost var pos0 := image.pos;
      ghost var total := Span(Range(first, last), blockSize);
      assert total == if toRead > 0 then toRead else 0;
      sizes := [];
      while read < toRead
        invariant read < toRead ==> chunkSize == ChunkSize
        invariant ChunksRead(image.content, pos0, total, read, hashed, image.pos, sizes)
        decreases toRead - read
      {
        if read + chunkSize > toRead {
          chunkSize := toRead - read;
        }
        ChunkAdvance(image.content, pos0, total, read, hashed, image.pos, sizes, chunkSize);
        var chunk := image.Read(chunkSize);
        hashed := hashed + chunk;
        sizes := sizes + [chunkSize];
        read := read + chunkSize;
      }
      digest := sha1(hashed);
    }

    /**
     * The checksum of range `first-last` as its documentation describes it:
     * seek to byte `first * blockSize` first, then read the range's span.
     * The digest no longer depends on where earlier reads left the image.
     */
    method CalculateSha1Seeking(first: nat, last: nat, sha1: Sha1) returns (digest: string)
      modifies image
      ensures digest == sha1(ReadAt(image.content, first * blockSize, Span(Range(first, last), blockSize)))
      ensures image.pos == PosAfterRead(image.content, first * blockSize, Span(Range(first, last), blockSize))
    {
      image.Seek(first * blockSize);
      var d, _ := CalculateSha1(first, last, sha1);
      digest := d;
    }

    /** The file start: format version and the image geometry (`_bmap_file_start`). */
    method BmapFileStart()
      modifies this`output
      ensures output == old(output) + [FileStart(BmapVersion, imageSize, blockSize, blocksCnt)]
    {
      output := output + [FileStart(BmapVersion, imageSize, blockSize, blocksCnt)];
    }

    /** The file end: the mapped size and the mapped block count (`_bmap_file_end`). */
    method BmapFileEnd()
      requires mappedCnt.Some? && mappedSize.Some?
      modifies this`output
      ensures output == old(output) + [FileEnd(mappedSize.value, mappedCnt.value)]
    {
      output := output + [FileEnd(mappedSize.value, mappedCnt.value)];
    }

    /**
     * One turn of the counting loop of `generate`: add the length of range
     * `first-last` to the mapped count, take its checksum when asked to
     * (reading on from the current position of the image), and emit its
     * range element.
     */
    method EmitRange(r: Range, includeChecksums: bool, sha1: Sha1)
      requires mappedCnt.Some?
      modifies this`mappedCnt, this`output, image
      ensures mappedCnt == Some(old(mappedCnt).value + Len(r))
      ensures output == old(output) + [RangeElement(r.first, r.last,
                if includeChecksums then Some(sha1(ReadAt(image.content, old(image.pos), Span(r, blockSize)))) else None)]
      ensures image.pos == if includeChecksums then PosAfterRead(image.content, old(image.pos), Span(r, blockSize)) else old(image.pos)
    {
      var first, last := r.first, r.last;
      mappedCnt := Some(mappedCnt.value + (last as int - first + 1));
      var attr := None;
      if includeChecksums {
        var digest, _ := CalculateSha1(first, last, sha1);
        attr := Some(digest);
      }
      output := output + [RangeElement(first, last, attr)];
    }

    /**
     * The counting loop of `generate`: from a mapped count of 0, for each
     * range in order, add its length to the count, take its checksum when
     * asked to, and emit its range element. The image has just been rewound.
     */
    method EmitRanges(rs: seq<Range>, includeChecksums: bool, sha1: Sha1)
      requires image.pos == 0
      modifies this`mappedCnt, this`output, image
      ensures mappedCnt == Some(SumLengths(rs))
      ensures output == old(output) + RangeElements(rs, image.content, blockSize, includeChecksums, sha1)
      ensures image.pos == if includeChecksums then Min(SumSpans(rs, blockSize), |image.content|) else 0
    {
      mappedCnt := Some(0);
      ghost var out0 := output;
      var k := 0;
      while k < |rs|
        invariant k <= |rs|
        invariant Emitted(rs, k, out0, image.content, blockSize, includeChecksums, sha1, mappedCnt, output, image.pos)
      {
        EmitAdvance(rs, k, out0, image.content, blockSize, includeChecksums, sha1, mappedCnt.value, output, image.pos);
        EmitRange(rs[k], includeChecksums, sha1);
        k := k + 1;
      }
      assert rs[..k] == rs;
    }

    /**
     * Generate the block map: the file start, a rewind of the image, flush
     * and fsync (`flush` and `fsync` are the errnos they fail with, if
     * they do), then one range element per range the coalescer yields and
     * the file end with the totals. A failure stops the pass, and what was
     * already written stays written. Checksums are included unless asked
     * otherwise.
     */
    method Generate(flush: Option<int>, fsync: Option<int>, sha1: Sha1, includeChecksums: bool := true)
      returns (raised: Option<Exception>)
      requires Valid()
      modifies this, image
      ensures flush.Some? ==> raised == Some(BmapError(CannotFlushImage, flush.value))
      ensures flush.None? && fsync.Some? ==> raised == Some(BmapError(CannotSyncImage, fsync.value))
      ensures flush.Some? || fsync.Some? ==>
                output == old(output) + [FileStart(BmapVersion, imageSize, blockSize, blocksCnt)]
                && mappedCnt == old(mappedCnt) && mappedSize == old(mappedSize) && image.pos == 0
      ensures flush.None? && fsync.None? ==> raised == ScanError(fibmap, blocksCnt)
      ensures flush.None? && fsync.None? ==> mappedCnt == Some(SumLengths(Yielded(fibmap, blocksCnt)))
      ensures flush.None? && fsync.None? ==>
                output == old(output) + [FileStart(BmapVersion, imageSize, blockSize, blocksCnt)]
                          + RangeElements(Yielded(fibmap, blocksCnt), image.content, blockSize, includeChecksums, sha1)
                          + (if raised.None? then [FileEnd(mappedCnt.value * blockSize, mappedCnt.value)] else [])
      ensures flush.None? && fsync.None? ==>
                mappedSize == (if raised.None? then Some(mappedCnt.value * blockSize) else old(mappedSize))
      ensures flush.None? && fsync.None? ==>
                image.pos == (if includeChecksums then Min(SumSpans(Yielded(fibmap, blocksCnt), blockSize), |image.content|) else 0)
    {
      BmapFileStart();
      image.Seek(0);
      if flush.Some? {
        raised := Some(BmapError(CannotFlushImage, flush.value));
      } else if fsync.Some? {
        raised := Some(BmapError(CannotSyncImage, fsync.value));
      } else {
        var rs, err := GetRanges(fibmap, blocksCnt);
        EmitRanges(rs, includeChecksums, sha1);
        raised := err;
        if err.None? {
          mappedSize := Some(mappedCnt.value * blockSize);
          BmapFileEnd();
        }
      }
    }
  }
}

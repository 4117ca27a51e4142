# bmaptools BmapCreator — a Dafny model

`BmapCreator` (in `bmaptools/BmapCreator.py`) builds the block map ("bmap") of a
sparse image file. The block map is an XML document with three parts:
- a header giving the image size, the host block size and the block count;
- one `<Range>` element per maximal run of mapped blocks, each optionally
  carrying the SHA-1 of as many bytes as the run spans, read from where the
  previous checksum stopped (see below);
- a footer giving the mapped block count.

This project models the core of that class in Dafny 4 and proves what it
promises. The core is:
- the geometry computed by the constructor;
- its failure modes;
- the FIBMAP-driven range coalescer (`_is_mapped`, `_get_ranges`);
- the chunked checksum reader (`_calculate_sha1`);
- the document assembly in `generate`.

Files (one module each):

- `common.dfy` — `Common`: `byte`, `Option`, `Result`, and `Reply`, the
  answer of a system call (a value or an errno).
- `errors.dfy` — `Errors`: the module's `Error` exception (a cause standing
  for its message, plus the errno), and the two Python exceptions the code
  lets escape.
- `geometry.dfy` — `Geometry`: the block count, a rounded-up quotient.
- `ranges.dfy` — `BlockRanges`: the run-length specification `Ranges(m)` of a
  mapped/unmapped signal, with its correctness proof (maximal runs, ordered,
  separated, covering).
- `coalescer.dfy` — `Coalescer`: FIBMAP as an oracle `nat -> Reply<nat>`, the
  generator `GetRanges` as an `inRun`/`runStart` loop proved equal to the
  specification, and what is yielded when a query fails part way.
- `image_file.dfy` — `ImageFile`: the opened image as a `File` object (fixed
  bytes, a position) with Python's short-read semantics.
- `checksum.dfy` — `Checksum`: the 1 MiB chunk schedule and its byte
  accounting.
- `creator.dfy` — `Creator`: the `BmapCreator` class (constructor, checksum
  loop, `generate`), the output as a sequence of `info` records, and the
  document lemmas.

The checksum reader never seeks to the start of its range. Its docstring
(`bmaptools/BmapCreator.py:215-216`) promises the checksum of the blocks "from
block 'first' to block 'last'", and the comment written into the document
(`bmaptools/BmapCreator.py:155-157`) calls the `sha1` attribute the checksum of
"this blocks range". But `_calculate_sha1` computes `start` (line 218) and
never seeks to it: it reads from the file's current position (line 229), and
`generate` rewinds the image only once, with `seek(0)` at line 240. So the
digest of the k-th range covers the bytes that follow those read for the
ranges before it, counted from offset 0. That start lies `h * blockSize`
bytes before the range's own offset, where `h` is the number of unmapped
blocks before the range. So only a first range that starts at block 0 gets
its own bytes (`FirstRangeAtZeroGetsOwnBytes`); every range after a hole gets
the wrong ones. `Generate` models the code as written (`RangeElementAt`,
`ChecksumDoesNotSeek`); `CalculateSha1Seeking` is the checksum the
documentation describes, listed under "## Findings".

The zero-size check (`bmaptools/BmapCreator.py:88-90`) builds its `Error` from
`err.errno`, but no `err` is bound at that point. So construction fails with
`UnboundLocalError`, and the model says exactly that. A block size of 0
reaches the division at line 102 and fails with `ZeroDivisionError`.

## Model

| member | source | states |
|---|---|---|
| Geometry.BlocksCount | bmaptools/BmapCreator.py:101-102 | the block count is the rounded-up quotient: `n * blockSize >= imageSize` and `(n - 1) * blockSize < imageSize`, which pin it down uniquely |
| Creator.BmapCreator.Create | bmaptools/BmapCreator.py:64-113 | each failure is modelled. Open failure gives `Error` with open's errno. Zero size gives `UnboundLocalError`. FIGETBSZ failure gives `Error` with its errno. Block size 0 gives `ZeroDivisionError`. A probe of block 0 failing with EPERM or EACCES gives the permission error with the same errno; any other probe failure gives the FIBMAP error unchanged. Otherwise a fresh creator with size, block size, rounded-up block count, image at position 0 and empty output |
| Coalescer.IsMapped | bmaptools/BmapCreator.py:172-179 | a block is mapped iff FIBMAP answers a non-zero physical block; a failed ioctl becomes the FIBMAP `Error` carrying its errno |
| Coalescer.SignalAt | bmaptools/BmapCreator.py:172-179 | bit `b` of the signal the generator groups is set iff FIBMAP answers block `b` with a non-zero physical block |
| Coalescer.FirstFailure | bmaptools/BmapCreator.py:173-177 | the first block whose query fails: every earlier query is answered, and the query at it fails unless it is the block count |
| Coalescer.GetRanges | bmaptools/BmapCreator.py:181-197 | the generator's loop yields exactly `Yielded`. That is the run-length ranges of the whole signal when every query is answered. When a query fails first at block k, it is only the runs already closed before k, and the error is that query's FIBMAP `Error` |
| BlockRanges.RangesAreBlockMap | bmaptools/BmapCreator.py:190-197 | every range is a maximal run of mapped blocks with `first <= last < N`, unmapped or at the edge on both sides; ranges are strictly increasing, never overlap or touch; every mapped block is in one |
| BlockRanges.RangesCoverExactlyMapped | bmaptools/BmapCreator.py:190-197 | a block lies in some range iff it is a mapped block in `[0, N)` (both directions) |
| BlockRanges.NoneMappedNoRanges | bmaptools/BmapCreator.py:190-197 | an all-unmapped signal yields no ranges |
| BlockRanges.AllMappedOneRange | bmaptools/BmapCreator.py:190-197 | an all-mapped signal of N > 0 blocks yields exactly `[0-(N-1)]` |
| BlockRanges.SumLengthsIsMappedCount | bmaptools/BmapCreator.py:256-258 | the lengths `last - first + 1` of the ranges add up to the number of mapped blocks |
| BlockRanges.ClosedAreFinishedRuns | bmaptools/BmapCreator.py:190-197 | the runs closed before the end of a prefix are maximal runs followed by an unmapped block inside it, ordered and separated |
| Coalescer.YieldedIsBlockMap | bmaptools/BmapCreator.py:190-197 | with every FIBMAP query answered, the yielded ranges are the block map of the image's mapped signal |
| Coalescer.YieldedCoverage | bmaptools/BmapCreator.py:172-197 | with every query answered, a block is in a yielded range iff it is below the block count and FIBMAP gives it a non-zero physical block |
| Coalescer.YieldedOnFailure | bmaptools/BmapCreator.py:190-197 | when the query of block k fails first, the yielded ranges are exactly the maximal runs of the blocks before k that end before k - 1 (each yielded range is one, and each such run is yielded), in order and separated |
| BlockRanges.FinishedRunIsClosed | bmaptools/BmapCreator.py:190-197 | a maximal run followed by an unmapped block inside the prefix seen so far has already been yielded |
| Coalescer.YieldedCountBound | bmaptools/BmapCreator.py:256-258 | the mapped block count of what is yielded is between 0 and the block count, whether or not a query failed |
| Checksum.ChunkPlanAccounts | bmaptools/BmapCreator.py:222-231 | the chunk sizes asked for add up to exactly the bytes to read, and each is positive and at most 1 MiB |
| Checksum.ChunkPlanAdvance | bmaptools/BmapCreator.py:226-231 | the next size asked for is 1 MiB, or the remainder when that is less |
| ImageFile.ReadsConcatenate | bmaptools/BmapCreator.py:226-231 | reading in chunks returns, in order, exactly what one read of the combined size returns and leaves the position where that read would |
| ImageFile.File.Read | bmaptools/BmapCreator.py:229 | `read(size)` returns the bytes from the position on, at most `size`, fewer at the end of the file, and moves the position past them |
| ImageFile.File.Seek | bmaptools/BmapCreator.py:240 | `seek(offset)` sets the position |
| Creator.ChunkAdvance | bmaptools/BmapCreator.py:226-231 | one turn of the chunk loop keeps its invariant: bytes hashed are one read of `read` bytes from the start position, the position follows, the sizes so far prefix the chunk plan |
| Creator.BmapCreator.CalculateSha1 | bmaptools/BmapCreator.py:214-233 | the digest is the SHA-1 of the `(last + 1) * bs - first * bs` bytes read from the current position, with no seek; the image ends after them; the chunk sizes asked for are the 1 MiB plan |
| Creator.BmapCreator.CalculateSha1Seeking | bmaptools/BmapCreator.py:214-233 | corrected checksum: seeks to `first * bs`, so the digest is the SHA-1 of the range's span read from there, whatever earlier reads did |
| Creator.SeekingChecksumCoversRange | bmaptools/BmapCreator.py:214-218 | from `first * bs`, the span of a range inside the image is exactly its blocks' bytes, `(last - first + 1) * bs` of them |
| Creator.SpanIsRangeBytes | bmaptools/BmapCreator.py:218-223 | a range's checksum reads `(last - first + 1) * blockSize` bytes |
| Creator.SumSpansIsMappedBytes | bmaptools/BmapCreator.py:218-223 | the checksum reads of a pass request, in total, the mapped block count times the block size |
| Creator.ChecksumPassEnd | bmaptools/BmapCreator.py:240-262 | with checksums, the pass leaves the image at mapped count times block size, or at its end if smaller |
| Creator.ChecksumDoesNotSeek | bmaptools/BmapCreator.py:218-229 | concrete case: with one-byte blocks, content `[7, 9]` and only block 1 mapped, range `1-1` carries the digest of byte 7, not of byte 9 |
| Creator.FirstRangeAtZeroGetsOwnBytes | bmaptools/BmapCreator.py:218-229 | the case the missing seek gets right: a first range starting at block 0 inside the image carries the digest of exactly its own blocks' bytes |
| Creator.RangeElementAt | bmaptools/BmapCreator.py:257-265 | the k-th range element names the k-th range and has a digest iff checksums are requested; the digest covers that range's span read from where the earlier ranges' reads stopped |
| Creator.ParseRangeElements | bmaptools/BmapCreator.py:264-265 | parsing the range elements gives back exactly the ranges, in yield order |
| Creator.DocumentCountsAgree | bmaptools/BmapCreator.py:256-258 | re-summing the lengths of the ranges a reader parses from the body and the footer gives the footer's mapped block count |
| Creator.EmitAdvance | bmaptools/BmapCreator.py:257-265 | one turn of the counting loop moves its state from k ranges emitted to k + 1: count, output and image position |
| Creator.BmapCreator.BmapFileStart | bmaptools/BmapCreator.py:115-160 | appends one header record with the version "1.2", image size, block size and block count |
| Creator.BmapCreator.BmapFileEnd | bmaptools/BmapCreator.py:199-212 | appends one footer record with the mapped size and the mapped block count |
| Creator.BmapCreator.EmitRange | bmaptools/BmapCreator.py:257-265 | adds `last - first + 1` to the count and appends one range element, carrying the digest of the bytes read on from the current position iff checksums are requested |
| Creator.BmapCreator.EmitRanges | bmaptools/BmapCreator.py:256-265 | from an image at 0: the mapped count is the sum of range lengths, the output gains exactly the range elements in order, and the image ends after all checksum reads |
| Creator.BmapCreator.constructor | bmaptools/BmapCreator.py:64-113 | a creator holds the geometry computed at construction: a non-empty image, a positive block size and the rounded-up block count (`Valid`), with no counts and no output yet |
| Creator.BmapCreator.Generate | bmaptools/BmapCreator.py:235-270 | checksums are included unless asked otherwise (default `true`). The header comes first. A flush or fsync failure stops with that `Error` and nothing else changes. Otherwise the output gains one element per yielded range in yield order (`sha1` iff requested), then the footer; mapped count is the sum of range lengths and mapped size is count times block size. On a FIBMAP failure mid-pass, that `Error` is raised after the ranges yielded so far, with no footer and no new mapped size |
| Creator.FourBlockImage | bmaptools/BmapCreator.py:101-102 | concrete case: a 2048-byte image of 512-byte blocks with blocks 0 and 1 mapped has 4 blocks, the single range `0-1`, 2 mapped blocks, 50 per cent of the block count, and no error |

## Findings

| source | as written | input that shows it | evidently intended | confidence | as-written member | corrected member |
|---|---|---|---|---|---|---|
| bmaptools/BmapCreator.py:218-229 | `start` is computed but never sought to; each range's checksum reads on from where the previous one stopped, after a single `seek(0)` | one-byte blocks, image bytes `[7, 9]`, only block 1 mapped: range `1-1` gets the SHA-1 of `[7]` | the SHA-1 of the range's own blocks, `[9]` here | not executed | Creator.ChecksumDoesNotSeek | Creator.BmapCreator.CalculateSha1Seeking, Creator.SeekingChecksumCoversRange |

## Left out

- The system calls are inputs, not calls. `open` is a `Reply` holding the image's bytes, and the image size that
  `os.fstat` reports is the length of those bytes; a failing `os.fstat` is not modelled. The FIGETBSZ ioctl is a
  `Reply` and the FIBMAP ioctl a per-block oracle of `Reply` values. The 32-bit `pack('I')`/`unpack('I')`
  encoding of their arguments and results is not modelled.
- SHA-1 and `hexdigest`: the hash is a parameter `seq<byte> -> string` applied to the exact bytes fed to the hash
  object; the cryptography is not modelled.
- The XML text: the comment prose, the markup and `BmapHelpers.human_size` are not modelled (the helper is not
  part of this model). Each `info` call is a record of the values it carries.
- `bmap_mapped_percent` (floating point) is not modelled; `FourBlockImage` states the 50 per cent case as an
  integer ratio.
- `flush` and `fsync` are modelled only as possible failures (their errno) before any range is emitted; their
  effect on the disk is not modelled.
- Errors from `read()` while checksumming, closing the file in `__del__`, and the logger object itself are not
  modelled.
- Generate: the generator interleaves FIBMAP queries with checksum reads; the model runs the queries first and then
  the reads. The trace and final state are the same, because the queries and the reads share no state.
- The FIEMAP fallback mentioned in the docstrings is not implemented in the source, so it is not modelled.
- The human-readable message text of each `Error` is reduced to a `Cause` tag.
- Creator.BmapCreator.BmapFileEnd: requires the mapped count and size to be set. The source would fail formatting
  `None`, and `generate` always sets both before calling it.
- Creator.BmapCreator.EmitRanges: requires the image at position 0, which is where `generate` has just left it
  (line 240); the loop is not modelled on its own from any other position.
- Creator.BmapCreator.Generate: requires `Valid()`, the geometry the constructor establishes for every creator
  `Create` returns; a creator is never used in any other state.

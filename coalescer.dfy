/**
 * The range coalescer driven by the FIBMAP oracle: it asks the host, block
 * by block in increasing order, whether each block is mapped, and yields
 * the maximal runs of mapped blocks as inclusive ranges.
 */
module Coalescer {
  import opened Common
  import opened Errors
  import opened BlockRanges

  /**
   * The FIBMAP answer for a block: the physical block number it is stored
   * at, or the errno of a failed ioctl. Physical block 0 means a hole.
   */
  type Oracle = nat -> Reply<nat>

  /** Whether a block is mapped, from its FIBMAP reply; a failed ioctl becomes `Error`. */
  function IsMapped(reply: Reply<nat>): (r: Result<bool, Exception>)
    ensures r.Success? <==> reply.Done?
    ensures r.Success? ==> (r.value <==> reply.value != 0)
    ensures r.Failure? ==> r.error == BmapError(FibmapFailed, reply.errno)
  {
    match reply
    case Done(physical) => Success(physical != 0)
    case Failed(errno) => Failure(BmapError(FibmapFailed, errno))
  }

  /** Mapped status of the first `n` blocks (a failed reply reads as unmapped; only answered prefixes are used). */
  function Signal(oracle: Oracle, n: nat): (m: seq<bool>)
    ensures |m| == n
  {
    if n == 0 then [] else Signal(oracle, n - 1) + [IsMapped(oracle(n - 1)) == Success(true)]
  }

  /** One more answered query extends the signal by that block's mapped status. */
  lemma SignalSnoc(oracle: Oracle, n: nat, mapped: bool)
    requires IsMapped(oracle(n)) == Success(mapped)
    ensures Signal(oracle, n + 1) == Signal(oracle, n) + [mapped]
  {
  }

  /** Block `b` of the signal is set exactly when FIBMAP places the block at a non-zero physical block. */
  lemma {:induction false} SignalAt(oracle: Oracle, n: nat, b: nat)
    requires b < n
    ensures Signal(oracle, n)[b] <==> oracle(b).Done? && oracle(b).value != 0
    decreases n
  {
    if b < n - 1 {
      SignalAt(oracle, n - 1, b);
    }
  }

  /** The first block in `[0, n)` whose FIBMAP query fails, or `n` if none does. */
  function FirstFailure(oracle: Oracle, n: nat): (k: nat)
    ensures k <= n
    ensures forall j | 0 <= j < k :: oracle(j).Done?
    ensures k < n ==> oracle(k).Failed?
  {
    FirstFailureFrom(oracle, 0, n)
  }

  function FirstFailureFrom(oracle: Oracle, i: nat, n: nat): (k: nat)
    requires i <= n
    requires forall j | 0 <= j < i :: oracle(j).Done?
    ensures i <= k <= n
    ensures forall j | 0 <= j < k :: oracle(j).Done?
    ensures k < n ==> oracle(k).Failed?
    decreases n - i
  {
    if i == n then n
    else if oracle(i).Failed? then i
    else FirstFailureFrom(oracle, i + 1, n)
  }

  /** The first failure is at `i` when every query before `i` is answered and `i` is the end or fails. */
  lemma FirstFailureAt(oracle: Oracle, n: nat, i: nat)
    requires i <= n
    requires forall j | 0 <= j < i :: oracle(j).Done?
    requires i < n ==> oracle(i).Failed?
    ensures FirstFailure(oracle, n) == i
  {
  }

  /**
   * The ranges the generator yields over blocks `[0, n)`. With every query
   * answered, these are the ranges of the whole signal. When the query of
   * block `k` fails first, a run is only yielded once the block after it has
   * been queried, so the ranges yielded are those closed before `k`.
   */
  function Yielded(oracle: Oracle, n: nat): seq<Range>
  {
    var k := FirstFailure(oracle, n);
    if k == n then Ranges(Signal(oracle, n)) else Closed(Signal(oracle, k))
  }

  /** The exception that ends the generator, if any: that of the first failing query. */
  function ScanError(oracle: Oracle, n: nat): Option<Exception>
  {
    var k := FirstFailure(oracle, n);
    if k == n then None else Some(BmapError(FibmapFailed, oracle(k).errno))
  }

  /**
   * The generator's state once the blocks of `m` are seen: `inRun` says
   * whether the last of them is mapped, and the ranges yielded so far are
   * those of `m`, but for the run still open at `runStart`.
   */
  ghost predicate ScanState(m: seq<bool>, rs: seq<Range>, inRun: bool, runStart: nat)
  {
    (inRun <==> |m| > 0 && m[|m| - 1])
    && (inRun ==> runStart < |m| && Ranges(m) == rs + [Range(runStart, |m| - 1)])
    && (!inRun ==> Ranges(m) == rs)
  }

  /** A mapped block opens a run, or continues the open one. */
  lemma ScanMapped(m: seq<bool>, rs: seq<Range>, inRun: bool, runStart: nat)
    requires ScanState(m, rs, inRun, runStart)
    ensures ScanState(m + [true], rs, true, if inRun then runStart else |m|)
  {
    RangesSnoc(m, true);
  }

  /** An unmapped block closes the open run, if any, and yields it. */
  lemma ScanUnmapped(m: seq<bool>, rs: seq<Range>, inRun: bool, runStart: nat)
    requires ScanState(m, rs, inRun, runStart)
    ensures ScanState(m + [false], if inRun then rs + [Range(runStart, |m| - 1)] else rs, false, runStart)
  {
    RangesSnoc(m, false);
  }

  /** A query failing at block `i` stops the generator with the ranges yielded so far, the runs already closed. */
  lemma ScanStopped(oracle: Oracle, n: nat, i: nat, rs: seq<Range>, inRun: bool, runStart: nat)
    requires i < n && oracle(i).Failed?
    requires forall j | 0 <= j < i :: oracle(j).Done?
    requires ScanState(Signal(oracle, i), rs, inRun, runStart)
    ensures Yielded(oracle, n) == rs
    ensures ScanError(oracle, n) == Some(BmapError(FibmapFailed, oracle(i).errno))
  {
    FirstFailureAt(oracle, n, i);
    if inRun {
      assert (rs + [Range(runStart, i - 1)])[..|rs|] == rs;
    }
  }

  /** A generator that has queried every block yields the open run, if any, after the closed ones. */
  lemma ScanFinished(oracle: Oracle, n: nat, rs: seq<Range>, inRun: bool, runStart: nat)
    requires forall j | 0 <= j < n :: oracle(j).Done?
    requires ScanState(Signal(oracle, n), rs, inRun, runStart)
    ensures Yielded(oracle, n) == if inRun then rs + [Range(runStart, n - 1)] else rs
    ensures ScanError(oracle, n) == None
  {
    FirstFailureAt(oracle, n, n);
  }

  /**
   * The generator over blocks `[0, blocksCnt)`, as a state machine: `inRun`
   * says whether the previous block was mapped, `runStart` where its run
   * began. Returns the ranges yielded and the exception it stopped with.
   */
  method GetRanges(oracle: Oracle, blocksCnt: nat) returns (rs: seq<Range>, err: Option<Exception>)
    ensures rs == Yielded(oracle, blocksCnt)
    ensures err == ScanError(oracle, blocksCnt)
  {
    rs := [];
    var inRun := false;
    var runStart := 0;
    var i := 0;
    ghost var m: seq<bool> := [];
    while i < blocksCnt
      invariant i <= blocksCnt
      invariant forall j | 0 <= j < i :: oracle(j).Done?
      invariant m == Signal(oracle, i)
      invariant ScanState(m, rs, inRun, runStart)
    {
      var mapped := IsMapped(oracle(i));
      if mapped.Failure? {
        ScanStopped(oracle, blocksCnt, i, rs, inRun, runStart);
        return rs, Some(mapped.error);
      }
      if mapped.value {
        ScanMapped(m, rs, inRun, runStart);
        if !inRun {
          inRun, runStart := true, i;
        }
      } else {
        ScanUnmapped(m, rs, inRun, runStart);
        if inRun {
          rs := rs + [Range(runStart, i - 1)];
          inRun := false;
        }
      }
      SignalSnoc(oracle, i, mapped.value);
      m := m + [mapped.value];
      i := i + 1;
    }
    ScanFinished(oracle, blocksCnt, rs, inRun, runStart);
    if inRun {
      rs := rs + [Range(runStart, blocksCnt - 1)];
    }
    return rs, None;
  }

  /**
   * A pass with every query answered yields the block map of the image:
   * maximal runs of mapped blocks within `[0, n)`, strictly increasing,
   * never touching, and covering every mapped block.
   */
  lemma YieldedIsBlockMap(oracle: Oracle, n: nat)
    requires ScanError(oracle, n) == None
    ensures IsBlockMap(Signal(oracle, n), Yielded(oracle, n))
  {
    RangesAreBlockMap(Signal(oracle, n));
  }

  /** With every query answered, a block is in a yielded range exactly when FIBMAP places it at a non-zero physical block. */
  lemma YieldedCoverage(oracle: Oracle, n: nat, b: int)
    requires ScanError(oracle, n) == None
    ensures InSome(Yielded(oracle, n), b) <==> 0 <= b < n && oracle(b).Done? && oracle(b).value != 0
  {
    RangesCoverExactlyMapped(Signal(oracle, n), b);
    if 0 <= b < n {
      SignalAt(oracle, n, b);
    }
  }

  /**
   * When the query of block `k` fails first, the ranges yielded are exactly
   * the maximal runs of the blocks before `k` that ended before `k - 1`:
   * each yielded range is one, each such run is yielded, and the ranges
   * keep the order and the gaps of a block map.
   */
  lemma YieldedOnFailure(oracle: Oracle, n: nat)
    requires ScanError(oracle, n).Some?
    ensures var k := FirstFailure(oracle, n);
            var rs := Yielded(oracle, n);
            (forall j | 0 <= j < |rs| :: IsMaximalRun(Signal(oracle, k), rs[j]) && rs[j].last + 1 < k)
            && (forall r | IsMaximalRun(Signal(oracle, k), r) && r.last + 1 < k :: r in rs)
            && Separated(rs)
  {
    var k := FirstFailure(oracle, n);
    var m := Signal(oracle, k);
    ClosedAreFinishedRuns(m);
    forall r | IsMaximalRun(m, r) && r.last + 1 < k ensures r in Closed(m) {
      FinishedRunIsClosed(m, r);
    }
  }

  /**
   * The yielded ranges, whether or not a query failed part way, span a
   * number of blocks between 0 and the block count: the mapped count never
   * exceeds `n`.
   */
  lemma YieldedCountBound(oracle: Oracle, n: nat)
    ensures 0 <= SumLengths(Yielded(oracle, n)) <= n
  {
    var k := FirstFailure(oracle, n);
    var m := Signal(oracle, k);
    SumLengthsIsMappedCount(m);
    MappedCountBound(m);
    ClosedSpanBound(m);
    if k < n {
      ClosedAreFinishedRuns(m);
      RunLengthsNonNegative(m, Closed(m));
    }
  }
}

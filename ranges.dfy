/**
 * The run-length view of an image's mapped/unmapped signal: `m[b]` is true
 * when block `b` is backed by storage, and the block map lists the maximal
 * runs of mapped blocks as inclusive ranges `first-last`, in increasing order.
 */
module BlockRanges {

  /** An inclusive range of block numbers `[first, last]`. */
  datatype Range = Range(first: nat, last: nat)

  /** The number of blocks a range spans, `last - first + 1`. */
  function Len(r: Range): int
  {
    r.last - r.first + 1
  }

  /**
   * The ranges of maximal runs of mapped blocks of `m`, in increasing order.
   * Defined block by block, the way a forward scan meets them.
   */
  function Ranges(m: seq<bool>): seq<Range>
  {
    if m == [] then []
    else
      var n := |m| - 1;
      Step(Ranges(m[..n]), n, m[n], n > 0 && m[n - 1])
  }

  /** Seeing one more block `x` after `p` is one `Step`. */
  lemma RangesSnoc(p: seq<bool>, x: bool)
    ensures Ranges(p + [x]) == Step(Ranges(p), |p|, x, |p| > 0 && p[|p| - 1])
  {
    assert (p + [x])[..|p|] == p;
  }

  /**
   * The ranges once block `n` is seen, given those of the blocks before it:
   * an unmapped block adds nothing, a mapped block right after a mapped one
   * extends the last range, any other mapped block opens a one-block range.
   */
  function Step(prev: seq<Range>, n: nat, mapped: bool, prevMapped: bool): seq<Range>
  {
    if !mapped then prev
    else if prevMapped && prev != [] then prev[..|prev| - 1] + [Range(prev[|prev| - 1].first, n)]
    else prev + [Range(n, n)]
  }

  /**
   * The ranges of `m` whose run has ended before the end of `m`: all of them,
   * except the last one when `m` ends with a mapped block (that run may still
   * go on past the end of `m`).
   */
  function Closed(m: seq<bool>): seq<Range>
  {
    var rs := Ranges(m);
    if |m| > 0 && m[|m| - 1] && rs != [] then rs[..|rs| - 1] else rs
  }

  /** The number of mapped blocks in `m`. */
  function MappedCount(m: seq<bool>): nat
  {
    if m == [] then 0 else MappedCount(m[..|m| - 1]) + (if m[|m| - 1] then 1 else 0)
  }

  /** The total number of blocks the ranges span. */
  function SumLengths(rs: seq<Range>): int
  {
    if rs == [] then 0 else SumLengths(rs[..|rs| - 1]) + Len(rs[|rs| - 1])
  }

  /** `r` is a maximal run of mapped blocks of `m`: in bounds, all mapped, unmapped (or the edge) on both sides. */
  predicate IsMaximalRun(m: seq<bool>, r: Range)
  {
    r.first <= r.last < |m|
    && (forall b | r.first <= b <= r.last :: m[b])
    && (r.first == 0 || !m[r.first - 1])
    && (r.last + 1 == |m| || !m[r.last + 1])
  }

  /** Strictly increasing, disjoint and never adjacent: a gap of at least one block between consecutive ranges. */
  predicate Separated(rs: seq<Range>)
  {
    forall j, k | 0 <= j < k < |rs| :: rs[j].last + 1 < rs[k].first
  }

  /** Block `b` lies in one of the ranges. */
  predicate InSome(rs: seq<Range>, b: int)
  {
    exists k | 0 <= k < |rs| :: rs[k].first <= b <= rs[k].last
  }

  /** Every mapped block of `m` lies in one of the ranges. */
  predicate Covers(m: seq<bool>, rs: seq<Range>)
  {
    forall b {:trigger InSome(rs, b)} | 0 <= b < |m| && m[b] :: InSome(rs, b)
  }

  /** The three properties that together say `rs` is the block map of `m`. */
  predicate IsBlockMap(m: seq<bool>, rs: seq<Range>)
  {
    (forall k {:trigger IsMaximalRun(m, rs[k])} | 0 <= k < |rs| :: IsMaximalRun(m, rs[k])) && Separated(rs) && Covers(m, rs)
  }

  /**
   * The coalescer is correct: every range is a maximal run of mapped blocks
   * within `[0, |m|)`, the ranges are strictly increasing and never overlap
   * or touch, and every mapped block is in one of them.
   */
  lemma {:induction false} RangesAreBlockMap(m: seq<bool>)
    ensures IsBlockMap(m, Ranges(m))
    decreases |m|
  {
    if m != [] {
      var n := |m| - 1;
      var p := m[..n];
      RangesAreBlockMap(p);
      assert m == p + [m[n]];
      StepKeepsBlockMap(p, Ranges(p), m[n]);
    }
  }

  /** One more block keeps a block map a block map. */
  lemma StepKeepsBlockMap(p: seq<bool>, prev: seq<Range>, x: bool)
    requires IsBlockMap(p, prev)
    ensures IsBlockMap(p + [x], Step(prev, |p|, x, |p| > 0 && p[|p| - 1]))
  {
    if !x {
      UnmappedStep(p, prev);
    } else if |p| > 0 && p[|p| - 1] && prev != [] {
      ExtendStep(p, prev);
    } else {
      OpenStep(p, prev);
    }
  }

  /** An unmapped block at the end changes nothing. */
  lemma UnmappedStep(p: seq<bool>, prev: seq<Range>)
    requires IsBlockMap(p, prev)
    ensures IsBlockMap(p + [false], prev)
  {
    var m := p + [false];
    forall k | 0 <= k < |prev| ensures IsMaximalRun(m, prev[k]) {
      assert IsMaximalRun(p, prev[k]);
    }
    forall b | 0 <= b < |m| && m[b] ensures InSome(prev, b) {
      assert p[b];
    }
  }

  /** A mapped block right after a mapped one extends the last range. */
  lemma ExtendStep(p: seq<bool>, prev: seq<Range>)
    requires IsBlockMap(p, prev)
    requires |p| > 0 && p[|p| - 1] && prev != []
    ensures IsBlockMap(p + [true], Step(prev, |p|, true, true))
  {
    var m := p + [true];
    var n := |p|;
    var L := |prev| - 1;
    OpenRunIsLast(p, prev);
    var f := prev[L].first;
    var rs := Step(prev, n, true, true);
    assert rs == prev[..L] + [Range(f, n)];
    assert IsMaximalRun(p, prev[L]);
    forall k | 0 <= k < |rs| ensures IsMaximalRun(m, rs[k]) {
      if k < L {
        assert IsMaximalRun(p, prev[k]);
        assert prev[k].last + 1 < prev[L].first;
      } else {
        assert rs[k] == Range(f, n);
        forall b | f <= b <= n ensures m[b] {
          if b < n { assert p[b]; }
        }
      }
    }
    forall j, k | 0 <= j < k < |rs| ensures rs[j].last + 1 < rs[k].first {
      assert rs[j] == prev[j];
      assert rs[k].first == prev[k].first;
    }
    forall b | 0 <= b < |m| && m[b] ensures InSome(rs, b) {
      if b == n {
        assert rs[L].first <= b <= rs[L].last;
      } else {
        assert p[b] && InSome(prev, b);
        var k :| 0 <= k < |prev| && prev[k].first <= b <= prev[k].last;
        assert rs[k].first <= b <= rs[k].last;
      }
    }
  }

  /** A mapped block after an unmapped one, or at block 0, opens a new one-block range. */
  lemma OpenStep(p: seq<bool>, prev: seq<Range>)
    requires IsBlockMap(p, prev)
    requires !(|p| > 0 && p[|p| - 1] && prev != [])
    ensures IsBlockMap(p + [true], Step(prev, |p|, true, |p| > 0 && p[|p| - 1]))
  {
    var m := p + [true];
    var n := |p|;
    // A mapped last block of `p` would be covered, and `prev` would not be empty.
    assert n > 0 ==> p[n - 1] ==> InSome(prev, n - 1);
    var rs := Step(prev, n, true, n > 0 && p[n - 1]);
    assert rs == prev + [Range(n, n)];
    forall k | 0 <= k < |prev| ensures IsMaximalRun(m, rs[k]) && rs[k].last + 1 < n {
      assert IsMaximalRun(p, prev[k]);
      assert p[prev[k].last];
    }
    forall b | 0 <= b < |m| && m[b] ensures InSome(rs, b) {
      if b == n {
        assert rs[|prev|].first <= b <= rs[|prev|].last;
      } else {
        assert p[b] && InSome(prev, b);
        var k :| 0 <= k < |prev| && prev[k].first <= b <= prev[k].last;
        assert rs[k] == prev[k];
      }
    }
  }

  /** In a block map of `m`, a mapped last block belongs to the last range, which ends there. */
  lemma OpenRunIsLast(m: seq<bool>, rs: seq<Range>)
    requires IsBlockMap(m, rs)
    requires |m| > 0 && m[|m| - 1]
    ensures rs != [] && rs[|rs| - 1].last == |m| - 1
  {
    var b := |m| - 1;
    assert InSome(rs, b);
    var k :| 0 <= k < |rs| && rs[k].first <= b <= rs[k].last;
    assert IsMaximalRun(m, rs[k]);
    assert IsMaximalRun(m, rs[|rs| - 1]);
  }

  /** A block lies in a range of `Ranges(m)` exactly when it is a mapped block of `m`. */
  lemma RangesCoverExactlyMapped(m: seq<bool>, b: int)
    ensures InSome(Ranges(m), b) <==> 0 <= b < |m| && m[b]
  {
    RangesAreBlockMap(m);
    var rs := Ranges(m);
    if InSome(rs, b) {
      var k :| 0 <= k < |rs| && rs[k].first <= b <= rs[k].last;
      assert IsMaximalRun(m, rs[k]);
    }
  }

  /** An image with no mapped block has an empty block map. */
  lemma {:induction false} NoneMappedNoRanges(m: seq<bool>)
    requires forall b | 0 <= b < |m| :: !m[b]
    ensures Ranges(m) == []
    decreases |m|
  {
    if m != [] {
      NoneMappedNoRanges(m[..|m| - 1]);
    }
  }

  /** An image of N > 0 blocks, all mapped, has exactly one range, `0-(N-1)`. */
  lemma {:induction false} AllMappedOneRange(m: seq<bool>)
    requires |m| > 0
    requires forall b | 0 <= b < |m| :: m[b]
    ensures Ranges(m) == [Range(0, |m| - 1)]
    decreases |m|
  {
    if |m| > 1 {
      AllMappedOneRange(m[..|m| - 1]);
    }
  }

  /** The ranges span exactly the mapped blocks: their lengths add up to the mapped count. */
  lemma {:induction false} SumLengthsIsMappedCount(m: seq<bool>)
    ensures SumLengths(Ranges(m)) == MappedCount(m)
    decreases |m|
  {
    if m != [] {
      var n := |m| - 1;
      var p := m[..n];
      var prev := Ranges(p);
      SumLengthsIsMappedCount(p);
      if m[n] {
        if n > 0 && m[n - 1] && prev != [] {
          var L := |prev| - 1;
          RangesAreBlockMap(p);
          OpenRunIsLast(p, prev);
          assert prev[..L] + [prev[L]] == prev;
          assert (prev[..L] + [Range(prev[L].first, n)])[..L] == prev[..L];
        } else {
          assert (prev + [Range(n, n)])[..|prev|] == prev;
        }
      }
    }
  }

  /** There are never more mapped blocks than blocks. */
  lemma {:induction false} MappedCountBound(m: seq<bool>)
    ensures MappedCount(m) <= |m|
    decreases |m|
  {
    if m != [] {
      MappedCountBound(m[..|m| - 1]);
    }
  }

  /** Dropping the last range of a block map lowers the span count, never raises it. */
  lemma ClosedSpanBound(m: seq<bool>)
    ensures SumLengths(Closed(m)) <= MappedCount(m)
  {
    SumLengthsIsMappedCount(m);
    var rs := Ranges(m);
    if |m| > 0 && m[|m| - 1] && rs != [] {
      RangesAreBlockMap(m);
      assert IsMaximalRun(m, rs[|rs| - 1]);
    }
  }

  /**
   * The ranges closed before the end of `m` are finished runs: each is a
   * maximal run of `m` followed by an unmapped block inside `m`, and they
   * keep the order and the gaps of a block map.
   */
  lemma ClosedAreFinishedRuns(m: seq<bool>)
    ensures forall k | 0 <= k < |Closed(m)| :: IsMaximalRun(m, Closed(m)[k]) && Closed(m)[k].last + 1 < |m|
    ensures Separated(Closed(m))
  {
    RangesAreBlockMap(m);
    var rs := Ranges(m);
    var c := Closed(m);
    if |m| > 0 && m[|m| - 1] && rs != [] {
      OpenRunIsLast(m, rs);
      assert IsMaximalRun(m, rs[|rs| - 1]);
      forall k | 0 <= k < |c| ensures IsMaximalRun(m, c[k]) && c[k].last + 1 < |m| {
        assert c[k] == rs[k];
        assert IsMaximalRun(m, rs[k]);
        assert rs[k].last + 1 < rs[|rs| - 1].first;
      }
    } else {
      forall k | 0 <= k < |c| ensures IsMaximalRun(m, c[k]) && c[k].last + 1 < |m| {
        assert IsMaximalRun(m, rs[k]);
        assert c[k] == rs[k] && m[rs[k].last];
      }
    }
  }

  /** Ranges that are all runs of some signal span a non-negative number of blocks. */
  lemma {:induction false} RunLengthsNonNegative(m: seq<bool>, rs: seq<Range>)
    requires forall k | 0 <= k < |rs| :: IsMaximalRun(m, rs[k])
    ensures SumLengths(rs) >= 0
    decreases |rs|
  {
    if rs != [] {
      RunLengthsNonNegative(m, rs[..|rs| - 1]);
      assert IsMaximalRun(m, rs[|rs| - 1]);
    }
  }

  /** Two maximal runs of `m` that share a block are the same run. */
  lemma MaximalRunsMeetingAreEqual(m: seq<bool>, r1: Range, r2: Range, b: int)
    requires IsMaximalRun(m, r1) && IsMaximalRun(m, r2)
    requires r1.first <= b <= r1.last && r2.first <= b <= r2.last
    ensures r1 == r2
  {
  }

  /** Every maximal run of `m` followed by an unmapped block inside `m` is among the closed ranges. */
  lemma FinishedRunIsClosed(m: seq<bool>, r: Range)
    requires IsMaximalRun(m, r) && r.last + 1 < |m|
    ensures r in Closed(m)
  {
    RangesAreBlockMap(m);
    var rs := Ranges(m);
    assert m[r.first];
    assert InSome(rs, r.first);
    var j :| 0 <= j < |rs| && rs[j].first <= r.first <= rs[j].last;
    assert IsMaximalRun(m, rs[j]);
    MaximalRunsMeetingAreEqual(m, rs[j], r, r.first);
    if |m| > 0 && m[|m| - 1] && rs != [] {
      OpenRunIsLast(m, rs);
      assert j != |rs| - 1;
      assert Closed(m)[j] == rs[j];
    }
  }
}

/**
 * The chunk schedule of the checksum reader: a range's bytes are read in
 * chunks of 1 MiB, the last one trimmed to what remains.
 */
module Checksum {

  const ChunkSize: nat := 1024 * 1024

  function Sum(s: seq<nat>): nat
  {
    if s == [] then 0 else s[0] + Sum(s[1..])
  }

  /** The sizes the reader asks for, in order, to read `toRead` bytes: 1 MiB at a time, the last one trimmed. */
  function ChunkPlan(toRead: nat): seq<nat>
    decreases toRead
  {
    if toRead == 0 then []
    else if toRead <= ChunkSize then [toRead]
    else [ChunkSize] + ChunkPlan(toRead - ChunkSize)
  }

  /** Exact byte accounting: the sizes asked for add up to `toRead`, and each is positive and at most 1 MiB. */
  lemma {:induction false} ChunkPlanAccounts(toRead: nat)
    ensures Sum(ChunkPlan(toRead)) == toRead
    ensures forall i | 0 <= i < |ChunkPlan(toRead)| :: 0 < ChunkPlan(toRead)[i] <= ChunkSize
    decreases toRead
  {
    if toRead > ChunkSize {
      ChunkPlanAccounts(toRead - ChunkSize);
    }
  }

  /**
   * One more chunk read: when `done` is the plan so far, the next size asked
   * for, `c`, is 1 MiB, or what remains when that is less.
   */
  lemma ChunkPlanAdvance(done: seq<nat>, toRead: nat, read: nat, c: nat)
    requires read < toRead
    requires done + ChunkPlan(toRead - read) == ChunkPlan(toRead)
    requires c == if toRead - read < ChunkSize then toRead - read else ChunkSize
    ensures (done + [c]) + ChunkPlan(toRead - (read + c)) == ChunkPlan(toRead)
  {
    var rem := toRead - read;
    assert ChunkPlan(rem) == [c] + ChunkPlan(rem - c);
    assert done + ([c] + ChunkPlan(rem - c)) == (done + [c]) + ChunkPlan(rem - c);
  }
}

/**
 The collective transfers as a whole, over a group whose per-rank buffer
 sizes are given as a sequence indexed by rank. Every rank computes its
 local chunk count, the group agrees on the largest one through an
 all-reduce with `MPI_MAX`, and every rank then runs that many rounds.

 `main` gives every rank `total_size / cores` bytes, so in the benchmark as
 configured all ranks share one chunk count and no rank runs surplus rounds.
 */
module Transfer {
  import opened Chunks
  import opened Collectives
  import opened RoundLoop
  import opened Offsets

  /** The dataset size `main` splits across the ranks, 2^36 bytes. */
  const TotalSize: nat := 0x10_0000_0000

  /** What the group agrees on before the round loop: the per-call unit and the shared round count. */
  datatype TransferPlan = TransferPlan(unitSize: nat, roundCount: nat)

  /** Each rank's local chunk count, indexed by rank. */
  function LocalCounts(sizes: seq<nat>): seq<nat>
  {
    seq(|sizes|, r requires 0 <= r < |sizes| => LocalChunkCount(sizes[r]))
  }

  /**
   The plan every rank holds after the all-reduce: the round count is the
   largest local chunk count, so it covers every rank's buffer and is some
   rank's own count.
   */
  function Plan(sizes: seq<nat>): (plan: TransferPlan)
    requires |sizes| > 0
    ensures plan.unitSize == Gigabyte
    ensures forall r :: 0 <= r < |sizes| ==> LocalChunkCount(sizes[r]) <= plan.roundCount
    ensures exists r :: 0 <= r < |sizes| && LocalChunkCount(sizes[r]) == plan.roundCount
    ensures forall r :: 0 <= r < |sizes| ==> sizes[r] <= plan.unitSize * plan.roundCount
  {
    var counts := LocalCounts(sizes);
    assert forall r :: 0 <= r < |sizes| ==> counts[r] == LocalChunkCount(sizes[r]);
    TransferPlan(Gigabyte, AllreduceMax(counts))
  }

  /**
   The requests rank `rank` issues in `mpi_write_shared` or
   `mpi_read_shared`. Every rank issues the same number of calls, the shared
   round count, whatever its own size.
   */
  function SharedTransfer(sizes: seq<nat>, rank: nat): (reqs: seq<Request>)
    requires rank < |sizes|
    ensures |reqs| == Plan(sizes).roundCount
  {
    Rounds(sizes[rank], Plan(sizes).roundCount)
  }

  /** No call of any rank asks for more than a gigabyte, or for bytes outside that rank's buffer. */
  lemma SharedTransferBounded(sizes: seq<nat>, rank: nat)
    requires rank < |sizes|
    ensures forall k :: 0 <= k < |SharedTransfer(sizes, rank)| ==>
      SharedTransfer(sizes, rank)[k].length <= Gigabyte < IntCountMax
    ensures forall k :: 0 <= k < |SharedTransfer(sizes, rank)| ==>
      SharedTransfer(sizes, rank)[k].End() <= sizes[rank]
  {
    RoundsBounded(0, sizes[rank], Plan(sizes).roundCount);
  }

  /**
   A rank whose own chunk count is the shared round count moves exactly its
   buffer: the slices it requests, in round order, are the whole buffer.
   */
  lemma FullestRankMovesBuffer<T>(sizes: seq<nat>, rank: nat, buf: seq<T>)
    requires rank < |sizes| && |buf| == sizes[rank]
    requires LocalChunkCount(sizes[rank]) == Plan(sizes).roundCount
    ensures forall k :: 0 <= k < |SharedTransfer(sizes, rank)| ==> SharedTransfer(sizes, rank)[k].End() <= |buf|
    ensures TotalLength(SharedTransfer(sizes, rank)) == |buf|
    ensures Gather(buf, SharedTransfer(sizes, rank)) == buf
  {
    ExactRoundsMoveBuffer(buf, Plan(sizes).roundCount);
  }

  /**
   As written, a rank holding data but fewer chunks than the shared round
   count repeats its last request in every surplus round, and so asks for
   more bytes than its buffer holds.
   */
  lemma ShorterRankRepeats(sizes: seq<nat>, rank: nat)
    requires rank < |sizes| && sizes[rank] > 0
    requires LocalChunkCount(sizes[rank]) < Plan(sizes).roundCount
    ensures var own := LocalChunkCount(sizes[rank]);
      forall k :: own <= k < |SharedTransfer(sizes, rank)| ==> SharedTransfer(sizes, rank)[k] == SharedTransfer(sizes, rank)[own - 1]
    ensures TotalLength(SharedTransfer(sizes, rank)) > sizes[rank]
  {
    var size, rounds := sizes[rank], Plan(sizes).roundCount;
    var own := LocalChunkCount(size);
    assert IsChunkCount(own, size) && 0 < own < rounds;
    assert SharedTransfer(sizes, rank) == RoundsFrom(0, size, rounds);
    SurplusRoundsRepeatLast(0, size, own, rounds);
    SurplusRoundsOverTransfer(0, size, own, rounds);
  }

  /** Two ranks, one holding 2^31 bytes and one holding a single byte: the second asks for its byte twice. */
  lemma ShorterRankExample()
    ensures Plan([0x8000_0000, 1]).roundCount == 2
    ensures SharedTransfer([0x8000_0000, 1], 1) == [Request(0, 1), Request(0, 1)]
  {
    var sizes := [0x8000_0000, 1];
    assert LocalChunkCount(sizes[0]) == 2;
    assert LocalChunkCount(sizes[1]) == 1;
  }

  /**
   The corrected transfer: the same shared round count, with the loop that
   drops the remaining size to zero once it has been moved.
   */
  function ZeroFillTransfer(sizes: seq<nat>, rank: nat): (reqs: seq<Request>)
    requires rank < |sizes|
    ensures |reqs| == Plan(sizes).roundCount
  {
    ZeroFillRoundsFrom(0, sizes[rank], Plan(sizes).roundCount)
  }

  /**
   With the corrected loop every rank, whatever its size, keeps the shared
   round count and moves exactly its buffer: surplus rounds are empty calls.
   */
  lemma ZeroFillTransferMovesBuffer<T>(sizes: seq<nat>, rank: nat, buf: seq<T>)
    requires rank < |sizes| && |buf| == sizes[rank]
    ensures forall k :: 0 <= k < |ZeroFillTransfer(sizes, rank)| ==> ZeroFillTransfer(sizes, rank)[k].length <= Gigabyte
    ensures forall k :: LocalChunkCount(sizes[rank]) <= k < |ZeroFillTransfer(sizes, rank)| ==> ZeroFillTransfer(sizes, rank)[k].length == 0
    ensures TotalLength(ZeroFillTransfer(sizes, rank)) == |buf|
    ensures forall k :: 0 <= k < |ZeroFillTransfer(sizes, rank)| ==> ZeroFillTransfer(sizes, rank)[k].End() <= |buf|
    ensures Gather(buf, ZeroFillTransfer(sizes, rank)) == buf
  {
    var own := LocalChunkCount(sizes[rank]);
    ZeroFillBounded(0, sizes[rank], Plan(sizes).roundCount);
    ZeroFillMovesExactly(buf, 0, sizes[rank], own, Plan(sizes).roundCount);
    assert buf[0..|buf|] == buf;
  }

  /** The per-rank size `main` computes: the total divided by the rank count, rounded down. */
  function SizePerCore(total: nat, cores: nat): (s: nat)
    requires cores > 0
    ensures s * cores <= total < s * cores + cores
  {
    total / cores
  }

  /** The group `main` builds: `cores` ranks, each with `SizePerCore(total, cores)` bytes. */
  function EqualSplit(total: nat, cores: nat): seq<nat>
    requires cores > 0
  {
    seq(cores, r => SizePerCore(total, cores))
  }

  /**
   With every rank holding the same size, the shared round count is each
   rank's own chunk count, so every rank moves exactly its buffer with no
   repeated request, and together the ranks hold at most the total.
   */
  lemma EqualSplitPlan(total: nat, cores: nat)
    requires cores > 0
    ensures Plan(EqualSplit(total, cores)).roundCount == LocalChunkCount(SizePerCore(total, cores))
    ensures Sum(EqualSplit(total, cores)) == cores * SizePerCore(total, cores) <= total
  {
    var sizes := EqualSplit(total, cores);
    SumUniform(sizes, SizePerCore(total, cores));
  }

  /** Every rank of the equal split moves exactly its buffer. */
  lemma EqualSplitMovesBuffer<T>(total: nat, cores: nat, rank: nat, buf: seq<T>)
    requires rank < cores && |buf| == SizePerCore(total, cores)
    ensures forall k :: 0 <= k < |SharedTransfer(EqualSplit(total, cores), rank)| ==> SharedTransfer(EqualSplit(total, cores), rank)[k].End() <= |buf|
    ensures Gather(buf, SharedTransfer(EqualSplit(total, cores), rank)) == buf
  {
    EqualSplitPlan(total, cores);
    FullestRankMovesBuffer(EqualSplit(total, cores), rank, buf);
  }

  /**
   With every rank holding s bytes, the inclusive scan puts rank r at
   (r + 1) * s, one rank's worth past the exclusive prefix sum r * s.
   */
  lemma EqualSplitOffsets(total: nat, cores: nat, rank: nat)
    requires rank < cores
    ensures Region(EqualSplit(total, cores), rank).offset == (rank + 1) * SizePerCore(total, cores)
    ensures ExclusiveRegion(EqualSplit(total, cores), rank).offset == rank * SizePerCore(total, cores)
  {
    var sizes := EqualSplit(total, cores);
    var s := SizePerCore(total, cores);
    ScanUniform(sizes, s, rank);
    assert (rank + 1) * s - s == rank * s;
  }

  /**
   In the configuration `main` runs, with 2^36 bytes over any number of
   ranks, the shared round count is at most 64, which the loop's `int`
   counter and the `MPI_INT64_T` reduction both hold, and every scan offset
   stays below 2^63.
   */
  lemma ConfiguredRunFits(cores: nat)
    requires cores > 0
    ensures Plan(EqualSplit(TotalSize, cores)).roundCount <= 64
    ensures forall r :: 0 <= r < cores ==> Region(EqualSplit(TotalSize, cores), r).End() < Int64Limit
  {
    var sizes := EqualSplit(TotalSize, cores);
    var s := SizePerCore(TotalSize, cores);
    EqualSplitPlan(TotalSize, cores);
    if s > 0 {
      MulAtLeast(s, cores);
    }
    ChunkCountAtMost(LocalChunkCount(s), s, 64);
    forall r | 0 <= r < cores
      ensures Region(sizes, r).End() < Int64Limit
    {
      assert Region(sizes, r).offset <= Sum(sizes);
    }
  }

  /**
   `mpi_write_at_all` passes each rank's whole size as the `int` element
   count of one call. In the configured run with at most 32 ranks every rank
   holds at least 2^31 bytes, more than that count can carry.
   */
  lemma WriteAtAllCountExceedsInt(cores: nat, rank: nat)
    requires 0 < cores <= 32 && rank < cores
    ensures Region(EqualSplit(TotalSize, cores), rank).length > IntCountMax
  {
    var s := SizePerCore(TotalSize, cores);
    assert (s + 1) * cores == s * cores + cores;
    assert 0x8000_0000 * cores <= TotalSize < (s + 1) * cores;
    MulCancel(0x8000_0000, s + 1, cores);
  }

  /** A single rank with 2^31 bytes runs two rounds of one gigabyte each, never asking for 2^31 bytes at once. */
  lemma SingleRankTwoGigabytes()
    ensures Plan([0x8000_0000]).roundCount == 2
    ensures SharedTransfer([0x8000_0000], 0) == [Request(0, Gigabyte), Request(Gigabyte, Gigabyte)]
  {
    assert LocalChunkCount(0x8000_0000) == 2;
  }

  /**
   Four ranks holding 0, 500, 1024 and 3000 bytes: the inclusive scan gives
   offsets 0, 500, 1524 and 4524, so the last rank's 3000 bytes lie past the
   end of a 4524-byte file; less their own sizes, the offsets are 0, 0, 500
   and 1524.
   */
  lemma FourRankOffsets()
    ensures Scan([0, 500, 1024, 3000]) == [0, 500, 1524, 4524]
    ensures Sum([0, 500, 1024, 3000]) == 4524
    ensures Region([0, 500, 1024, 3000], 3) == FileRegion(4524, 3000)
    ensures ExclusiveRegion([0, 500, 1024, 3000], 3) == FileRegion(1524, 3000)
  {
    var xs: seq<nat> := [0, 500, 1024, 3000];
    ScanEnds(xs);
    ScanStep(xs, 0);
    ScanStep(xs, 1);
    ScanStep(xs, 2);
  }
}

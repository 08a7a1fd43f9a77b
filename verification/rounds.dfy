/**
 The round loop of `mpi_write_shared` and `mpi_read_shared`. Both loops run
 the shared round count and issue one transfer call per round; they differ
 only in the direction of the call, so one model serves both. A transfer is
 represented by the request it makes: a cursor into the local buffer and a
 byte count.

 Each round, if more than a gigabyte remains, the loop moves exactly one
 gigabyte and advances both the remaining size and the cursor; otherwise it
 moves the remaining size and changes neither. A rank that runs out of data
 before the shared round count therefore re-issues its last request.
 */
module RoundLoop {
  import opened Chunks

  /** One transfer call: `length` bytes of the local buffer starting at `cursor`. */
  datatype Request = Request(cursor: nat, length: nat)
  {
    function End(): nat
    {
      cursor + length
    }
  }

  /**
   The requests of `rounds` iterations of the loop, entered with the cursor at
   `cursor` and `size` bytes remaining. Every request stays inside the
   remaining part of the buffer and asks for at most a gigabyte.
   */
  function RoundsFrom(cursor: nat, size: nat, rounds: nat): (reqs: seq<Request>)
    ensures |reqs| == rounds
    decreases rounds
  {
    if rounds == 0 then []
    else if size > Gigabyte then [Request(cursor, Gigabyte)] + RoundsFrom(cursor + Gigabyte, size - Gigabyte, rounds - 1)
    else [Request(cursor, size)] + RoundsFrom(cursor, size, rounds - 1)
  }

  /**
   Every request of the loop asks for at most a gigabyte, well under the
   signed `int` count limit, and stays inside the part of the buffer that
   remained when the loop was entered.
   */
  lemma {:induction false} RoundsBounded(cursor: nat, size: nat, rounds: nat)
    ensures forall k :: 0 <= k < rounds ==> RoundsFrom(cursor, size, rounds)[k].length <= Gigabyte < IntCountMax
    ensures forall k :: 0 <= k < rounds ==>
      cursor <= RoundsFrom(cursor, size, rounds)[k].cursor && RoundsFrom(cursor, size, rounds)[k].End() <= cursor + size
    decreases rounds
  {
    if rounds > 0 {
      var reqs := RoundsFrom(cursor, size, rounds);
      var next: nat, left: nat := if size > Gigabyte then cursor + Gigabyte else cursor, if size > Gigabyte then size - Gigabyte else size;
      RoundsBounded(next, left, rounds - 1);
      assert forall k :: 1 <= k < rounds ==> reqs[k] == RoundsFrom(next, left, rounds - 1)[k - 1];
    }
  }

  /** The requests of the whole loop over a buffer of `size` bytes. */
  function Rounds(size: nat, rounds: nat): seq<Request>
  {
    RoundsFrom(0, size, rounds)
  }

  /**
   The loop itself, with the remaining size, the cursor and the round index
   as in the source: it issues the requests `Rounds` describes.
   */
  method IssueRounds(size: nat, rounds: nat) returns (reqs: seq<Request>)
    ensures reqs == Rounds(size, rounds)
    ensures |reqs| == rounds
    ensures forall k :: 0 <= k < rounds ==> reqs[k].length <= Gigabyte < IntCountMax
    ensures forall k :: 0 <= k < rounds ==> reqs[k].End() <= size
  {
    reqs := [];
    var remaining: nat := size;
    var cursor: nat := 0;
    var i := 0;
    while i < rounds
      invariant i <= rounds && |reqs| == i
      invariant cursor + remaining == size
      invariant forall k :: 0 <= k < i ==> reqs[k].length <= Gigabyte && reqs[k].End() <= cursor + remaining
      invariant reqs + RoundsFrom(cursor, remaining, rounds - i) == Rounds(size, rounds)
    {
      ghost var before := RoundsFrom(cursor, remaining, rounds - i);
      var req;
      if remaining > Gigabyte {
        req := Request(cursor, Gigabyte);
        remaining := remaining - Gigabyte;
        cursor := cursor + Gigabyte;
      } else {
        req := Request(cursor, remaining);
      }
      assert before == [req] + RoundsFrom(cursor, remaining, rounds - i - 1);
      assert reqs + before == (reqs + [req]) + RoundsFrom(cursor, remaining, rounds - i - 1);
      reqs := reqs + [req];
      i := i + 1;
    }
  }

  /** The total number of bytes a list of requests asks for. */
  function TotalLength(reqs: seq<Request>): nat
  {
    if |reqs| == 0 then 0 else reqs[0].length + TotalLength(reqs[1..])
  }

  /** The bytes a list of requests moves out of (or into) a buffer, in request order. */
  function Gather<T>(buf: seq<T>, reqs: seq<Request>): (data: seq<T>)
    requires forall k :: 0 <= k < |reqs| ==> reqs[k].End() <= |buf|
    ensures |data| == TotalLength(reqs)
  {
    if |reqs| == 0 then []
    else
      var first := reqs[0];
      assert first.cursor <= first.End() <= |buf|;
      buf[first.cursor..first.End()] + Gather(buf, reqs[1..])
  }

  lemma {:induction false} TotalLengthAppend(a: seq<Request>, b: seq<Request>)
    ensures TotalLength(a + b) == TotalLength(a) + TotalLength(b)
    decreases |a|
  {
    if |a| == 0 {
      assert a + b == b;
    } else {
      assert (a + b)[1..] == a[1..] + b;
      TotalLengthAppend(a[1..], b);
    }
  }

  lemma {:induction false} GatherAppend<T>(buf: seq<T>, a: seq<Request>, b: seq<Request>)
    requires forall k :: 0 <= k < |a| ==> a[k].End() <= |buf|
    requires forall k :: 0 <= k < |b| ==> b[k].End() <= |buf|
    ensures Gather(buf, a + b) == Gather(buf, a) + Gather(buf, b)
    decreases |a|
  {
    if |a| == 0 {
      assert a + b == b;
    } else {
      assert (a + b)[1..] == a[1..] + b;
      GatherAppend(buf, a[1..], b);
    }
  }

  /**
   Requests that tile `size` bytes of the buffer from `cursor`: each is
   non-empty, the first starts at the cursor, and each next one starts where
   the previous one ends, until exactly `size` bytes are covered.
   */
  predicate Tiles(reqs: seq<Request>, cursor: nat, size: nat)
    decreases |reqs|
  {
    if |reqs| == 0 then size == 0
    else
      && reqs[0].cursor == cursor
      && 0 < reqs[0].length <= size
      && Tiles(reqs[1..], reqs[0].End(), size - reqs[0].length)
  }

  /** Tiling requests, stated rank by rank: contiguous, non-empty, ending `size` bytes on, and asking for `size` bytes in all. */
  lemma {:induction false} TilesIndexed(reqs: seq<Request>, cursor: nat, size: nat)
    requires Tiles(reqs, cursor, size)
    ensures |reqs| == 0 <==> size == 0
    ensures |reqs| > 0 ==> reqs[0].cursor == cursor && reqs[|reqs| - 1].End() == cursor + size
    ensures forall k :: 0 <= k < |reqs| - 1 ==> reqs[k + 1].cursor == reqs[k].End()
    ensures forall k :: 0 <= k < |reqs| ==> 0 < reqs[k].length && cursor <= reqs[k].cursor && reqs[k].End() <= cursor + size
    ensures TotalLength(reqs) == size
    decreases |reqs|
  {
    if |reqs| > 0 {
      var rest := reqs[1..];
      TilesIndexed(rest, reqs[0].End(), size - reqs[0].length);
      assert forall k :: 1 <= k < |reqs| ==> reqs[k] == rest[k - 1];
    }
  }

  /** Tiling requests move exactly the slice they tile. */
  lemma {:induction false} TilesGather<T>(buf: seq<T>, reqs: seq<Request>, cursor: nat, size: nat)
    requires Tiles(reqs, cursor, size) && cursor + size <= |buf|
    ensures forall k :: 0 <= k < |reqs| ==> reqs[k].End() <= |buf|
    ensures Gather(buf, reqs) == buf[cursor..cursor + size]
    decreases |reqs|
  {
    TilesIndexed(reqs, cursor, size);
    if |reqs| > 0 {
      var mid := reqs[0].End();
      TilesGather(buf, reqs[1..], mid, size - reqs[0].length);
      assert buf[cursor..mid] + buf[mid..cursor + size] == buf[cursor..cursor + size];
    }
  }

  /**
   When the loop runs exactly the rank's own chunk count, its requests tile
   the buffer from the cursor.
   */
  lemma {:induction false} ExactRoundsTile(cursor: nat, size: nat, own: nat)
    requires IsChunkCount(own, size)
    ensures Tiles(RoundsFrom(cursor, size, own), cursor, size)
    decreases size
  {
    var reqs := RoundsFrom(cursor, size, own);
    if size > Gigabyte {
      ChunkCountStep(own, size);
      ExactRoundsTile(cursor + Gigabyte, size - Gigabyte, own - 1);
      assert reqs[1..] == RoundsFrom(cursor + Gigabyte, size - Gigabyte, own - 1);
    } else if size > 0 {
      ChunkCountOne(own, size);
      assert reqs[1..] == [];
    }
  }

  /**
   The loop over the rank's own chunk count moves its whole buffer and
   nothing else: the requests start at cursor 0, each begins where the
   previous one ended, their lengths add up to the buffer size, and the
   requested slices, concatenated in round order, are the buffer.
   */
  lemma ExactRoundsMoveBuffer<T>(buf: seq<T>, own: nat)
    requires IsChunkCount(own, |buf|)
    ensures var reqs := Rounds(|buf|, own);
      && (own > 0 ==> reqs[0].cursor == 0 && reqs[own - 1].End() == |buf|)
      && (forall k :: 0 <= k < own - 1 ==> reqs[k + 1].cursor == reqs[k].End())
      && (forall k :: 0 <= k < own ==> reqs[k].End() <= |buf|)
      && TotalLength(reqs) == |buf|
      && Gather(buf, reqs) == buf
  {
    var reqs := Rounds(|buf|, own);
    ExactRoundsTile(0, |buf|, own);
    TilesIndexed(reqs, 0, |buf|);
    TilesGather(buf, reqs, 0, |buf|);
    assert buf[0..|buf|] == buf;
  }

  /**
   Once no more than a gigabyte remains, neither the remaining size nor the
   cursor changes again: every further round repeats the same request.
   */
  lemma {:induction false} SettledRoundsRepeat(cursor: nat, size: nat, rounds: nat)
    requires size <= Gigabyte
    ensures forall k :: 0 <= k < rounds ==> RoundsFrom(cursor, size, rounds)[k] == Request(cursor, size)
  {
    if rounds > 0 {
      SettledRoundsRepeat(cursor, size, rounds - 1);
      assert RoundsFrom(cursor, size, rounds)[1..] == RoundsFrom(cursor, size, rounds - 1);
    }
  }

  /** The first m rounds of a longer run are the requests of a run of m rounds. */
  lemma {:induction false} RoundsPrefix(cursor: nat, size: nat, m: nat, rounds: nat)
    requires m <= rounds
    ensures RoundsFrom(cursor, size, rounds)[..m] == RoundsFrom(cursor, size, m)
    decreases m
  {
    if m > 0 {
      if size > Gigabyte {
        RoundsPrefix(cursor + Gigabyte, size - Gigabyte, m - 1, rounds - 1);
      } else {
        RoundsPrefix(cursor, size, m - 1, rounds - 1);
      }
    }
  }

  /**
   Rounds beyond the rank's own chunk count repeat its last request; a rank
   with no data at all issues only empty requests at its starting cursor.
   */
  lemma {:induction false} SurplusRoundsRepeatLast(cursor: nat, size: nat, own: nat, rounds: nat)
    requires IsChunkCount(own, size) && own <= rounds
    ensures own == 0 ==> forall k :: 0 <= k < rounds ==> RoundsFrom(cursor, size, rounds)[k] == Request(cursor, 0)
    ensures own > 0 ==> forall k :: own <= k < rounds ==> RoundsFrom(cursor, size, rounds)[k] == RoundsFrom(cursor, size, rounds)[own - 1]
    decreases size
  {
    var reqs := RoundsFrom(cursor, size, rounds);
    if size > Gigabyte {
      ChunkCountStep(own, size);
      SurplusRoundsRepeatLast(cursor + Gigabyte, size - Gigabyte, own - 1, rounds - 1);
      var rest := RoundsFrom(cursor + Gigabyte, size - Gigabyte, rounds - 1);
      assert own - 1 > 0;
      forall k | own <= k < rounds
        ensures reqs[k] == reqs[own - 1]
      {
        assert reqs[k] == rest[k - 1];
        assert rest[k - 1] == rest[own - 2];
        assert rest[own - 2] == reqs[own - 1];
      }
    } else {
      SettledRoundsRepeat(cursor, size, rounds);
    }
  }

  /**
   As written, a rank with data whose loop runs longer than its own chunk
   count asks for more bytes than its buffer holds: the repeated last request
   moves its final chunk again.
   */
  lemma SurplusRoundsOverTransfer(cursor: nat, size: nat, own: nat, rounds: nat)
    requires IsChunkCount(own, size) && size > 0 && own < rounds
    ensures TotalLength(RoundsFrom(cursor, size, rounds)) > size
  {
    var reqs := RoundsFrom(cursor, size, rounds);
    RoundsPrefix(cursor, size, own, rounds);
    ExactRoundsTile(cursor, size, own);
    TilesIndexed(RoundsFrom(cursor, size, own), cursor, size);
    SurplusRoundsRepeatLast(cursor, size, own, rounds);
    assert reqs == reqs[..own] + reqs[own..];
    TotalLengthAppend(reqs[..own], reqs[own..]);
    assert reqs[own..][0] == reqs[own - 1];
  }

  /** One byte over two rounds: the same one-byte request is issued twice, asking for two bytes. */
  lemma SurplusRoundsExample()
    ensures Rounds(1, 2) == [Request(0, 1), Request(0, 1)]
    ensures TotalLength(Rounds(1, 2)) == 2
  {
  }

  /**
   The corrected loop, which moves the remainder once and then issues
   zero-length calls: once the remaining size fits in a gigabyte it is moved,
   the cursor advances past it, and the remaining size drops to zero, so
   surplus rounds issue empty requests at the end of the buffer.
   */
  function ZeroFillRoundsFrom(cursor: nat, size: nat, rounds: nat): (reqs: seq<Request>)
    ensures |reqs| == rounds
    decreases rounds
  {
    if rounds == 0 then []
    else if size > Gigabyte then [Request(cursor, Gigabyte)] + ZeroFillRoundsFrom(cursor + Gigabyte, size - Gigabyte, rounds - 1)
    else [Request(cursor, size)] + ZeroFillRoundsFrom(cursor + size, 0, rounds - 1)
  }

  /** The corrected loop keeps the same per-call bound and stays inside the buffer. */
  lemma {:induction false} ZeroFillBounded(cursor: nat, size: nat, rounds: nat)
    ensures forall k :: 0 <= k < rounds ==> ZeroFillRoundsFrom(cursor, size, rounds)[k].length <= Gigabyte
    ensures forall k :: 0 <= k < rounds ==>
      cursor <= ZeroFillRoundsFrom(cursor, size, rounds)[k].cursor && ZeroFillRoundsFrom(cursor, size, rounds)[k].End() <= cursor + size
    decreases rounds
  {
    if rounds > 0 {
      var reqs := ZeroFillRoundsFrom(cursor, size, rounds);
      var next: nat, left: nat := if size > Gigabyte then cursor + Gigabyte else cursor + size, if size > Gigabyte then size - Gigabyte else 0;
      ZeroFillBounded(next, left, rounds - 1);
      assert forall k :: 1 <= k < rounds ==> reqs[k] == ZeroFillRoundsFrom(next, left, rounds - 1)[k - 1];
    }
  }

  /** With nothing left, the corrected loop issues only empty requests at the cursor. */
  lemma {:induction false} ZeroFillEmpty(cursor: nat, rounds: nat)
    ensures forall k :: 0 <= k < rounds ==> ZeroFillRoundsFrom(cursor, 0, rounds)[k] == Request(cursor, 0)
    ensures TotalLength(ZeroFillRoundsFrom(cursor, 0, rounds)) == 0
  {
    if rounds > 0 {
      ZeroFillEmpty(cursor, rounds - 1);
      assert ZeroFillRoundsFrom(cursor, 0, rounds)[1..] == ZeroFillRoundsFrom(cursor, 0, rounds - 1);
    }
  }

  /** Empty requests move nothing. */
  lemma {:induction false} ZeroFillGatherEmpty<T>(buf: seq<T>, cursor: nat, rounds: nat)
    requires cursor <= |buf|
    ensures forall k :: 0 <= k < rounds ==> ZeroFillRoundsFrom(cursor, 0, rounds)[k].End() <= |buf|
    ensures Gather(buf, ZeroFillRoundsFrom(cursor, 0, rounds)) == []
  {
    ZeroFillEmpty(cursor, rounds);
    if rounds > 0 {
      ZeroFillGatherEmpty(buf, cursor, rounds - 1);
      assert ZeroFillRoundsFrom(cursor, 0, rounds)[1..] == ZeroFillRoundsFrom(cursor, 0, rounds - 1);
    }
  }

  /**
   The corrected loop issues the as-written requests for the rank's own chunk
   count of rounds, followed by empty requests at the end of its data.
   */
  lemma {:induction false} ZeroFillSplit(cursor: nat, size: nat, own: nat, rounds: nat)
    requires IsChunkCount(own, size) && own <= rounds
    ensures ZeroFillRoundsFrom(cursor, size, rounds)
         == RoundsFrom(cursor, size, own) + ZeroFillRoundsFrom(cursor + size, 0, rounds - own)
    decreases size
  {
    if size > Gigabyte {
      ChunkCountStep(own, size);
      ZeroFillSplit(cursor + Gigabyte, size - Gigabyte, own - 1, rounds - 1);
    } else if size > 0 {
      ChunkCountOne(own, size);
    }
  }

  /** In the corrected loop every round past the rank's own chunk count is an empty request. */
  lemma ZeroFillSurplusEmpty(cursor: nat, size: nat, own: nat, rounds: nat)
    requires IsChunkCount(own, size) && own <= rounds
    ensures forall k :: own <= k < rounds ==> ZeroFillRoundsFrom(cursor, size, rounds)[k] == Request(cursor + size, 0)
  {
    var reqs := ZeroFillRoundsFrom(cursor, size, rounds);
    var exact := RoundsFrom(cursor, size, own);
    var tail := ZeroFillRoundsFrom(cursor + size, 0, rounds - own);
    assert reqs == exact + tail by {
      ZeroFillSplit(cursor, size, own, rounds);
    }
    ZeroFillEmpty(cursor + size, rounds - own);
    forall k | own <= k < rounds
      ensures reqs[k] == Request(cursor + size, 0)
    {
      assert reqs[k] == tail[k - own];
    }
  }

  /** Whatever the (sufficient) round count, the corrected loop asks for exactly `size` bytes in all. */
  lemma ZeroFillTotal(cursor: nat, size: nat, own: nat, rounds: nat)
    requires IsChunkCount(own, size) && own <= rounds
    ensures TotalLength(ZeroFillRoundsFrom(cursor, size, rounds)) == size
  {
    var exact := RoundsFrom(cursor, size, own);
    var tail := ZeroFillRoundsFrom(cursor + size, 0, rounds - own);
    ZeroFillSplit(cursor, size, own, rounds);
    ExactRoundsTile(cursor, size, own);
    TilesIndexed(exact, cursor, size);
    ZeroFillEmpty(cursor + size, rounds - own);
    TotalLengthAppend(exact, tail);
  }

  /** Whatever the (sufficient) round count, the corrected loop moves exactly `buf[cursor..cursor + size]`. */
  lemma ZeroFillGather<T>(buf: seq<T>, cursor: nat, size: nat, own: nat, rounds: nat)
    requires IsChunkCount(own, size) && own <= rounds
    requires cursor + size <= |buf|
    ensures forall k :: 0 <= k < rounds ==> ZeroFillRoundsFrom(cursor, size, rounds)[k].End() <= |buf|
    ensures Gather(buf, ZeroFillRoundsFrom(cursor, size, rounds)) == buf[cursor..cursor + size]
  {
    var exact := RoundsFrom(cursor, size, own);
    var tail := ZeroFillRoundsFrom(cursor + size, 0, rounds - own);
    ExactRoundsTile(cursor, size, own);
    TilesGather(buf, exact, cursor, size);
    ZeroFillGatherEmpty(buf, cursor + size, rounds - own);
    GatherAppend(buf, exact, tail);
    assert Gather(buf, exact + tail) == buf[cursor..cursor + size];
    ZeroFillSplit(cursor, size, own, rounds);
    ZeroFillBounded(cursor, size, rounds);
  }

  /**
   Whatever the round count, as long as it covers the rank's own chunk count,
   the corrected loop moves exactly the buffer: the surplus requests are
   empty, it asks for `size` bytes in all, and the slices it moves are
   `buf[cursor..cursor + size]`.
   */
  lemma ZeroFillMovesExactly<T>(buf: seq<T>, cursor: nat, size: nat, own: nat, rounds: nat)
    requires IsChunkCount(own, size) && own <= rounds
    requires cursor + size <= |buf|
    ensures forall k :: own <= k < rounds ==> ZeroFillRoundsFrom(cursor, size, rounds)[k].length == 0
    ensures TotalLength(ZeroFillRoundsFrom(cursor, size, rounds)) == size
    ensures forall k :: 0 <= k < rounds ==> ZeroFillRoundsFrom(cursor, size, rounds)[k].End() <= |buf|
    ensures Gather(buf, ZeroFillRoundsFrom(cursor, size, rounds)) == buf[cursor..cursor + size]
  {
    ZeroFillSurplusEmpty(cursor, size, own, rounds);
    ZeroFillTotal(cursor, size, own, rounds);
    ZeroFillGather(buf, cursor, size, own, rounds);
  }
}

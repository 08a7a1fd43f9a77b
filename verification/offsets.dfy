/**
 The explicit-offset file regions of `mpi_write_at_all` and
 `posix_read_shared`: each rank starts from its own size, runs an inclusive
 `MPI_Scan` with `MPI_SUM`, and uses the result as its file offset.

 As written, the code never subtracts the rank's own size, so rank r's region
 starts after ranks 0..r rather than after ranks 0..r-1. `Region` models that;
 `ExclusiveRegion` is the exclusive prefix sum (inclusive scan less the rank's
 own size), and the lemmas below show that only the latter lays the ranks'
 regions end to end over `[0, total)`.
 */
module Offsets {
  import opened Collectives

  /** A byte range of the shared file: `length` bytes starting at `offset`. */
  datatype FileRegion = FileRegion(offset: nat, length: nat)
  {
    function End(): nat
    {
      offset + length
    }

    predicate Contains(b: nat)
    {
      offset <= b < End()
    }
  }

  /**
   The region rank r accesses as the code is written: its offset is the
   inclusive scan of the sizes, the sum over ranks 0..r.
   */
  function Region(sizes: seq<nat>, r: nat): (g: FileRegion)
    requires r < |sizes|
    ensures g.offset == Sum(sizes[..r + 1])
    ensures g.length == sizes[r]
    ensures sizes[r] <= g.offset <= Sum(sizes)
  {
    ScanBounds(sizes, r);
    FileRegion(Scan(sizes)[r], sizes[r])
  }

  /**
   As written, no rank covers the first byte of the file whenever rank 0 has
   any data: every offset is at least rank 0's size.
   */
  lemma RegionSkipsFileStart(sizes: seq<nat>)
    requires |sizes| > 0 && sizes[0] > 0
    ensures forall r :: 0 <= r < |sizes| ==> !Region(sizes, r).Contains(0)
  {
    forall r | 0 <= r < |sizes|
      ensures Region(sizes, r).offset >= sizes[0]
    {
      ScanEnds(sizes);
      ScanMonotone(sizes, 0, r);
    }
  }

  /**
   As written, the last rank's region ends past the total size of the data
   whenever that rank has any data, so a file of exactly the total size is
   too short for it.
   */
  lemma RegionOverrunsTotal(sizes: seq<nat>)
    requires |sizes| > 0 && sizes[|sizes| - 1] > 0
    ensures Region(sizes, |sizes| - 1).End() == Sum(sizes) + sizes[|sizes| - 1]
    ensures Region(sizes, |sizes| - 1).End() > Sum(sizes)
  {
    ScanEnds(sizes);
  }

  /**
   As written, when a rank holds fewer bytes than the rank before it (but not
   none), the two ranks' regions share a byte.
   */
  lemma RegionsOverlapWhenShrinking(sizes: seq<nat>, r: nat)
    requires r + 1 < |sizes| && 0 < sizes[r + 1] < sizes[r]
    ensures Region(sizes, r).Contains(Region(sizes, r + 1).offset)
    ensures Region(sizes, r + 1).Contains(Region(sizes, r + 1).offset)
  {
    ScanStep(sizes, r);
  }

  /** A single rank holding one byte seeks to offset 1 of a one-byte file. */
  lemma RegionSingleByteExample()
    ensures Region([1], 0) == FileRegion(1, 1)
    ensures Sum([1]) == 1
  {
    assert [1][..1] == [1];
  }

  /**
   The corrected region: the exclusive prefix sum, that is the inclusive scan
   less the rank's own size, the sum over ranks 0..r-1.
   */
  function ExclusiveRegion(sizes: seq<nat>, r: nat): (g: FileRegion)
    requires r < |sizes|
    ensures g.offset == Sum(sizes[..r])
    ensures g.length == sizes[r]
    ensures g.End() == Region(sizes, r).offset
  {
    ScanMinusOwn(sizes, r);
    ScanBounds(sizes, r);
    FileRegion(Scan(sizes)[r] - sizes[r], sizes[r])
  }

  /** The exclusive regions are laid end to end: rank 0 starts at 0, each next rank where the previous ends, the last ends at the total. */
  lemma ExclusiveRegionsTile(sizes: seq<nat>)
    requires |sizes| > 0
    ensures ExclusiveRegion(sizes, 0).offset == 0
    ensures forall r :: 0 <= r < |sizes| - 1 ==> ExclusiveRegion(sizes, r + 1).offset == ExclusiveRegion(sizes, r).End()
    ensures ExclusiveRegion(sizes, |sizes| - 1).End() == Sum(sizes)
  {
    ScanEnds(sizes);
    forall r | 0 <= r < |sizes| - 1
      ensures ExclusiveRegion(sizes, r + 1).offset == ExclusiveRegion(sizes, r).End()
    {
      ScanStep(sizes, r);
    }
  }

  /** Exclusive regions of distinct ranks share no byte. */
  lemma ExclusiveRegionsDisjoint(sizes: seq<nat>, a: nat, b: nat, x: nat)
    requires a < |sizes| && b < |sizes| && a != b
    ensures !(ExclusiveRegion(sizes, a).Contains(x) && ExclusiveRegion(sizes, b).Contains(x))
  {
    var lo, hi := if a < b then a else b, if a < b then b else a;
    ScanStep(sizes, hi - 1);
    ScanMonotone(sizes, lo, hi - 1);
    assert ExclusiveRegion(sizes, lo).End() <= ExclusiveRegion(sizes, hi).offset;
  }

  /** Every byte below the total lies in the exclusive region of some rank. */
  lemma ExclusiveRegionsCover(sizes: seq<nat>, x: nat)
    requires x < Sum(sizes)
    ensures exists r :: 0 <= r < |sizes| && ExclusiveRegion(sizes, r).Contains(x)
  {
    ExclusiveRegionsTile(sizes);
    var r := OwnerSearch(sizes, x, 0);
  }

  /** Searches upward from rank `from` for the rank whose exclusive region holds byte x. */
  lemma {:induction false} OwnerSearch(sizes: seq<nat>, x: nat, from: nat) returns (r: nat)
    requires from < |sizes| && x < Sum(sizes)
    requires ExclusiveRegion(sizes, from).offset <= x
    ensures from <= r < |sizes| && ExclusiveRegion(sizes, r).Contains(x)
    decreases |sizes| - from
  {
    if x < ExclusiveRegion(sizes, from).End() {
      r := from;
    } else if from == |sizes| - 1 {
      ExclusiveRegionsTile(sizes);
      assert false;
    } else {
      ExclusiveRegionsTile(sizes);
      r := OwnerSearch(sizes, x, from + 1);
    }
  }
}

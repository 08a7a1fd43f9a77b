/**
 The two MPI collectives the transfers use, as total functions over the
 per-rank values of a group, indexed by rank: `MPI_Allreduce` with `MPI_MAX`
 and `MPI_Scan` with `MPI_SUM`. A group always holds at least one rank.
 */
module Collectives {

  /** The sum of a sequence, peeling off its last element. */
  function Sum(xs: seq<nat>): nat
  {
    if |xs| == 0 then 0 else Sum(xs[..|xs| - 1]) + xs[|xs| - 1]
  }

  /** The value every rank holds after an all-reduce with `MPI_MAX`: the largest contribution. */
  function AllreduceMax(xs: seq<nat>): (m: nat)
    requires |xs| > 0
    ensures forall i :: 0 <= i < |xs| ==> xs[i] <= m
    ensures exists i :: 0 <= i < |xs| && xs[i] == m
  {
    if |xs| == 1 then xs[0]
    else
      var rest := AllreduceMax(xs[1..]);
      assert forall i :: 1 <= i < |xs| ==> xs[i] == xs[1..][i - 1];
      if xs[0] >= rest then xs[0] else rest
  }

  /**
   The values the ranks hold after an inclusive `MPI_Scan` with `MPI_SUM`,
   built the way the scan carries a running total from rank to rank: rank r
   receives the sum of the contributions of ranks 0..r.
   */
  function Scan(xs: seq<nat>): (ps: seq<nat>)
    ensures |ps| == |xs|
    ensures forall r :: 0 <= r < |xs| ==> ps[r] == Sum(xs[..r + 1])
  {
    if |xs| == 0 then []
    else
      var n := |xs|;
      var front := Scan(xs[..n - 1]);
      var carried := if n == 1 then 0 else front[n - 2];
      PrefixOfPrefix(xs, n - 1);
      assert xs[..n] == xs;
      front + [carried + xs[n - 1]]
  }

  lemma PrefixOfPrefix(xs: seq<nat>, m: nat)
    requires m <= |xs|
    ensures forall a :: 0 <= a <= m ==> xs[..m][..a] == xs[..a]
  {
  }

  /** Consecutive ranks' scan results differ by the later rank's contribution. */
  lemma ScanStep(xs: seq<nat>, r: nat)
    requires r + 1 < |xs|
    ensures Scan(xs)[r + 1] == Scan(xs)[r] + xs[r + 1]
  {
    assert xs[..r + 2][..r + 1] == xs[..r + 1];
  }

  /** Rank 0 receives its own contribution and the last rank receives the total. */
  lemma ScanEnds(xs: seq<nat>)
    requires |xs| > 0
    ensures Scan(xs)[0] == xs[0]
    ensures Scan(xs)[|xs| - 1] == Sum(xs)
  {
    assert xs[..|xs|] == xs;
    assert xs[..1] == [xs[0]];
    assert Sum([xs[0]]) == Sum([]) + xs[0] by { assert [xs[0]][..0] == []; }
  }

  /** Scan results never decrease with rank. */
  lemma {:induction false} ScanMonotone(xs: seq<nat>, a: nat, b: nat)
    requires a <= b < |xs|
    ensures Scan(xs)[a] <= Scan(xs)[b]
    decreases b - a
  {
    if a < b {
      ScanStep(xs, a);
      ScanMonotone(xs, a + 1, b);
    }
  }

  /** Every rank's scan result lies between its own contribution and the total. */
  lemma ScanBounds(xs: seq<nat>, r: nat)
    requires r < |xs|
    ensures xs[r] <= Scan(xs)[r] <= Sum(xs)
  {
    ScanEnds(xs);
    ScanMonotone(xs, r, |xs| - 1);
    if r > 0 {
      ScanStep(xs, r - 1);
    }
  }

  /** When every rank contributes the same value s, rank r receives (r + 1) * s. */
  lemma {:induction false} ScanUniform(xs: seq<nat>, s: nat, r: nat)
    requires forall i :: 0 <= i < |xs| ==> xs[i] == s
    requires r < |xs|
    ensures Scan(xs)[r] == (r + 1) * s
  {
    if r == 0 {
      ScanEnds(xs);
    } else {
      ScanUniform(xs, s, r - 1);
      ScanStep(xs, r - 1);
      assert (r + 1) * s == r * s + s;
    }
  }

  /** The sum of a prefix ending before a rank is that rank's scan result less its own contribution. */
  lemma ScanMinusOwn(xs: seq<nat>, r: nat)
    requires r < |xs|
    ensures Scan(xs)[r] - xs[r] == Sum(xs[..r])
  {
    assert xs[..r + 1][..r] == xs[..r];
  }

  /** When every rank contributes the same value s, the total is |xs| * s. */
  lemma SumUniform(xs: seq<nat>, s: nat)
    requires |xs| > 0
    requires forall i :: 0 <= i < |xs| ==> xs[i] == s
    ensures Sum(xs) == |xs| * s
  {
    ScanEnds(xs);
    ScanUniform(xs, s, |xs| - 1);
  }
}

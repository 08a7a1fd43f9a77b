/**
 The chunk planner of the shared-pointer transfers: how many transfer calls of
 at most one gigabyte a rank needs for its local buffer.

 MPI passes the element count of a transfer as a signed 32-bit `int`, so a
 single call can move at most 2^31 - 1 bytes. The benchmark works around this
 by never asking for more than 2^30 bytes in one call.
 */
module Chunks {

  /** 2^30 bytes, the largest count one transfer call is ever given. */
  const Gigabyte: nat := 0x4000_0000

  /** 2^31 - 1, the largest count MPI's signed `int` count argument can carry. */
  const IntCountMax: nat := 0x7FFF_FFFF

  /** 2^63, the first value that no longer fits the `MPI_INT64_T` the reductions use. */
  const Int64Limit: nat := 0x8000_0000_0000_0000

  /** 2^64, the first value that no longer fits a `size_t`. */
  const SizeTLimit: nat := 0x1_0000_0000_0000_0000

  function Pow2(k: nat): (p: nat)
    ensures p >= 1
  {
    if k == 0 then 1 else 2 * Pow2(k - 1)
  }

  /** Bitwise AND of two naturals, taken one bit at a time from the least significant end. */
  function BitAnd(a: nat, b: nat): nat
  {
    if a == 0 || b == 0 then 0
    else (if a % 2 == 1 && b % 2 == 1 then 1 else 0) + 2 * BitAnd(a / 2, b / 2)
  }

  lemma DivModUnique(n: int, d: int, q: int, r: int)
    requires d > 0 && 0 <= r < d && n == d * q + r
    ensures n / d == q && n % d == r
  {
    var q', r' := n / d, n % d;
    assert d * (q - q') == r' - r;
    if q > q' {
      MulAtLeast(d, q - q');
    } else if q < q' {
      MulAtLeast(d, q' - q);
    }
  }

  lemma MulAtLeast(d: int, k: int)
    requires d > 0 && k >= 1
    ensures d * k >= d
  {
  }

  /** A product with a positive factor grows with the other factor, so a strict bound on products bounds the factors. */
  lemma MulCancel(a: nat, b: nat, c: nat)
    requires a * c < b * c
    ensures a < b
  {
    if b <= a {
      MulMonotone(b, a, c);
    }
  }

  lemma MulMonotone(a: nat, b: nat, c: nat)
    requires a <= b
    ensures a * c <= b * c
  {
  }

  /** Splitting off the lowest bit: a remainder modulo 2m is the low bit plus twice the remainder of the rest modulo m. */
  lemma ModDouble(n: nat, m: nat)
    requires m > 0
    ensures n % (2 * m) == n % 2 + 2 * ((n / 2) % m)
  {
    var q, b := n / 2, n % 2;
    var t, u := q / m, q % m;
    assert n == (2 * m) * t + (2 * u + b);
    DivModUnique(n, 2 * m, t, 2 * u + b);
  }

  /** An odd mask keeps the lowest bit and masks the rest with its upper bits. */
  lemma BitAndOddMask(n: nat, h: nat)
    requires n > 0
    ensures BitAnd(n, 2 * h + 1) == n % 2 + 2 * BitAnd(n / 2, h)
  {
    var mask := 2 * h + 1;
    assert mask % 2 == 1 && mask / 2 == h;
  }

  /** Masking with 2^k - 1 keeps exactly the remainder modulo 2^k. */
  lemma {:induction false} BitAndLowMask(n: nat, k: nat)
    ensures BitAnd(n, Pow2(k) - 1) == n % Pow2(k)
  {
    if k == 0 {
      assert Pow2(k) == 1;
    } else if n == 0 {
      assert BitAnd(n, Pow2(k) - 1) == 0;
    } else {
      var half := Pow2(k - 1);
      var low := BitAnd(n / 2, half - 1);
      assert BitAnd(n, Pow2(k) - 1) == n % 2 + 2 * low by {
        BitAndOddMask(n, half - 1);
      }
      assert low == (n / 2) % half by {
        BitAndLowMask(n / 2, k - 1);
      }
      assert n % Pow2(k) == n % 2 + 2 * ((n / 2) % half) by {
        ModDouble(n, half);
      }
    }
  }

  lemma GigabyteIsPow2()
    ensures Pow2(30) == Gigabyte
  {
    assert Pow2(5) == 32;
    assert Pow2(10) == 1024;
    assert Pow2(15) == 32768;
    assert Pow2(20) == 1048576;
    assert Pow2(25) == 33554432;
  }

  /**
   The test `size & (gigabyte - 1)` the planner uses is non-zero exactly when
   the size is not a whole number of gigabytes.
   */
  lemma MaskTestIsRemainder(size: nat)
    ensures BitAnd(size, Gigabyte - 1) != 0 <==> size % Gigabyte != 0
    ensures BitAnd(size, Gigabyte - 1) == size % Gigabyte
  {
    GigabyteIsPow2();
    BitAndLowMask(size, 30);
  }

  /**
   `n` is the number of gigabyte chunks `size` bytes need: the least n with
   size <= n * 2^30, which is the ceiling of size / 2^30.
   */
  predicate IsChunkCount(n: nat, size: nat)
  {
    size <= n * Gigabyte && (n > 0 ==> (n - 1) * Gigabyte < size)
  }

  /** At most one chunk count fits a size. */
  lemma ChunkCountUnique(a: nat, b: nat, size: nat)
    requires IsChunkCount(a, size) && IsChunkCount(b, size)
    ensures a == b
  {
  }

  /**
   A rank's local chunk count: the number of whole gigabytes in its buffer,
   plus one when the low thirty bits of the size leave bytes over. It is the
   ceiling of size / 2^30, and a zero-byte buffer needs no chunk at all.
   */
  function LocalChunkCount(size: nat): (count: nat)
    ensures count == size / Gigabyte + (if size % Gigabyte != 0 then 1 else 0)
    ensures IsChunkCount(count, size)
    ensures count == 0 <==> size == 0
    ensures size < SizeTLimit ==> count < Int64Limit
  {
    MaskTestIsRemainder(size);
    var whole := size / Gigabyte;
    if BitAnd(size, Gigabyte - 1) != 0 then whole + 1 else whole
  }

  /** Handing off one full gigabyte removes exactly one chunk from what is still needed. */
  lemma ChunkCountStep(n: nat, size: nat)
    requires IsChunkCount(n, size) && size > Gigabyte
    ensures n >= 2 && IsChunkCount(n - 1, size - Gigabyte)
  {
  }

  /** A size of at most m gigabytes needs at most m chunks. */
  lemma ChunkCountAtMost(n: nat, size: nat, m: nat)
    requires IsChunkCount(n, size) && size <= m * Gigabyte
    ensures n <= m
  {
  }

  /** Every size that fits in one gigabyte, except zero, needs exactly one chunk. */
  lemma ChunkCountOne(n: nat, size: nat)
    requires IsChunkCount(n, size) && 0 < size <= Gigabyte
    ensures n == 1
  {
  }
}

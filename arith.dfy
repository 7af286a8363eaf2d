/** Machine-integer helpers: the unsigned wrap-around and signed casts the C source
    relies on, and the division facts the position proofs need. */
module Arith {

  const TwoTo32: int := 0x1_0000_0000
  const TwoTo64: int := 0x1_0000_0000_0000_0000

  /** Unsigned 32-bit wrap-around (assignment to a uint32_t). */
  function Wrap32(x: int): (r: nat)
    ensures r < TwoTo32
    ensures 0 <= x < TwoTo32 ==> r == x
  {
    x % TwoTo32
  }

  /** Unsigned 64-bit wrap-around (uint64_t arithmetic). */
  function Wrap64(x: int): (r: nat)
    ensures r < TwoTo64
    ensures 0 <= x < TwoTo64 ==> r == x
    ensures -TwoTo64 <= x < 0 ==> r == x + TwoTo64
    ensures TwoTo64 <= x < 2 * TwoTo64 ==> r == x - TwoTo64
  {
    x % TwoTo64
  }

  /** The C cast `(int)` of a uint32_t value: two's complement reinterpretation. */
  function AsInt32(x: nat): (r: int)
    requires x < TwoTo32
    ensures -0x8000_0000 <= r < 0x8000_0000
    ensures r >= 0 <==> x < 0x8000_0000
    ensures r >= 0 ==> r == x
  {
    if x < 0x8000_0000 then x else x - TwoTo32
  }

  /** Quotient and remainder are determined by any decomposition with a remainder in range. */
  lemma DivModUnique(a: int, b: int, q: int, r: int)
    requires 0 < b && 0 <= r < b && a == q * b + r
    ensures a / b == q && a % b == r
  {
    var d := q - a / b;
    assert d * b == a % b - r by {
      assert a == (a / b) * b + a % b;
      assert q * b - (a / b) * b == d * b;
    }
    MulAwayFromZero(d, b);
  }

  lemma MulAwayFromZero(d: int, b: int)
    requires 0 < b
    ensures d >= 1 ==> d * b >= b
    ensures d <= -1 ==> d * b <= -b
  {
  }

  /** The quotient of a non-negative number by a positive one is non-negative. */
  lemma DivNat(a: int, b: int)
    requires 0 < b && 0 <= a
    ensures 0 <= a / b
  {
    assert a == (a / b) * b + a % b;
    MulAwayFromZero(a / b, b);
  }

  /** A position below `n` blocks of `b` bytes lies in a block numbered below `n`. */
  lemma DivBelow(p: int, b: int, n: int)
    requires 0 < b && 0 <= p < n * b
    ensures 0 <= p / b < n
  {
    assert p == (p / b) * b + p % b;
    MulAwayFromZero(p / b - n + 1, b);
    assert (p / b - n + 1) * b == (p / b) * b - n * b + b;
  }

  /** `k` whole blocks of `b` bytes: none, or at least one block. */
  lemma Multiple(k: nat, b: nat)
    requires 0 < b
    ensures 0 <= k * b
    ensures k == 0 ==> k * b == 0
    ensures k >= 1 ==> k * b >= b
  {
    MulAwayFromZero(k, b);
  }

  /** Shifting by a multiple of `b` leaves the remainder alone. */
  lemma ModShift(a: int, m: int, b: int)
    requires 0 < b
    ensures (a + m * b) % b == a % b
    ensures (a + m * b) / b == a / b + m
  {
    DivModUnique(a + m * b, b, a / b + m, a % b);
  }

  /** A byte position `k*b + j` with `j < b` lies in block `k` at offset `j`. */
  lemma BlockOf(k: int, b: int, j: int)
    requires 0 < b && 0 <= j < b
    ensures (k * b + j) / b == k && (k * b + j) % b == j
  {
    DivModUnique(k * b + j, b, k, j);
  }
}

/** Byte-order readers: the model of `tsk_getu16/32/64`. The journal itself is always
    little-endian (the source passes `0x01`); the journal info block is read in the
    volume's own byte order. */
module Bytes {

  /** An octet. */
  newtype byte = x: int | 0 <= x < 256

  datatype Endian = Little | Big

  function Pow256(n: nat): (p: nat)
    ensures p >= 1
  {
    if n == 0 then 1 else 256 * Pow256(n - 1)
  }

  /** Unsigned value of `s`, least significant byte first. */
  function LE(s: seq<byte>): nat
  {
    if |s| == 0 then 0 else s[0] as nat + 256 * LE(s[1..])
  }

  /** Unsigned value of `s`, most significant byte first. */
  function BE(s: seq<byte>): nat
  {
    if |s| == 0 then 0 else BE(s[..|s| - 1]) * 256 + s[|s| - 1] as nat
  }

  /** The `n`-byte little-endian encoding of `x` (its low `n` bytes). */
  function EncodeLE(x: nat, n: nat): (s: seq<byte>)
    ensures |s| == n
  {
    if n == 0 then [] else [(x % 256) as byte] + EncodeLE(x / 256, n - 1)
  }

  /** An unsigned field of `width` bytes at `at`, in byte order `e`. */
  function Uint(e: Endian, s: seq<byte>, at: nat, width: nat): nat
    requires at + width <= |s|
  {
    var f := s[at..at + width];
    if e == Little then LE(f) else BE(f)
  }

  function U16(s: seq<byte>, at: nat): (v: nat)
    requires at + 2 <= |s|
    ensures v < 0x1_0000
  {
    LEBound(s[at..at + 2]);
    Uint(Little, s, at, 2)
  }

  function U32(s: seq<byte>, at: nat): (v: nat)
    requires at + 4 <= |s|
    ensures v < 0x1_0000_0000
  {
    LEBound(s[at..at + 4]);
    Uint(Little, s, at, 4)
  }

  function U64(s: seq<byte>, at: nat): (v: nat)
    requires at + 8 <= |s|
    ensures v < 0x1_0000_0000_0000_0000
  {
    LEBound(s[at..at + 8]);
    Uint(Little, s, at, 8)
  }

  /** A little-endian value of `|s|` bytes is below 256^|s|. */
  lemma {:induction false} LEBound(s: seq<byte>)
    ensures LE(s) < Pow256(|s|)
  {
    if |s| > 0 {
      LEBound(s[1..]);
    }
  }

  /** Decoding the little-endian encoding gives the value back. */
  lemma {:induction false} LERoundTrip(x: nat, n: nat)
    requires x < Pow256(n)
    ensures LE(EncodeLE(x, n)) == x
  {
    if n > 0 {
      var q, r := x / 256, x % 256;
      assert x == 256 * q + r;
      assert q < Pow256(n - 1);
      LERoundTrip(q, n - 1);
      var e := EncodeLE(x, n);
      assert e[1..] == EncodeLE(q, n - 1);
      assert e[0] as nat == r;
    }
  }
}

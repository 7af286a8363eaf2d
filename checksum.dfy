/** The journal checksum (`hfs_calc_checksum`) and the block-list header test
    (`hfs_test_checksum_jblock`), tsk/fs/hfs_journal.c lines 15-48. */
module Checksum {
  import opened Bytes

  /** One byte folded into the 64-bit accumulator: `acc = (acc << 8) ^ (acc + b)`. */
  function Step(acc: bv64, b: byte): bv64
  {
    (acc << 8) ^ (acc + b as bv64)
  }

  /** The accumulator after folding the first `n` bytes of `s`, in order, from 0. */
  function Fold(s: seq<byte>, n: nat): bv64
    requires n <= |s|
  {
    if n == 0 then 0 else Step(Fold(s, n - 1), s[n - 1])
  }

  /** The value `hfs_calc_checksum` returns: the complement of the accumulator,
      truncated to the 32-bit return type. */
  function Checksum(s: seq<byte>): bv32
  {
    Low32(!Fold(s, |s|))
  }

  function Low32(x: bv64): bv32
  {
    (x & 0xFFFF_FFFF) as bv32
  }

  /** The checksum of an empty range is all ones. */
  lemma ChecksumOfEmpty()
    ensures Checksum([]) == 0xFFFF_FFFF
  {
  }

  /** `hfs_calc_checksum(ptr, len)` over the `len` bytes of `a` from `from`. */
  method CalcChecksum(a: array<byte>, from: nat, len: nat) returns (c: bv32)
    requires from + len <= a.Length
    ensures c == Checksum(a[from..from + len])
  {
    ghost var bytes := a[from..from + len];
    var cksum: bv64 := 0;
    var i := 0;
    while i < len
      invariant i <= len
      invariant cksum == Fold(bytes, i)
    {
      assert bytes[i] == a[from + i];
      cksum := Step(cksum, a[from + i]);
      i := i + 1;
    }
    c := Low32(!cksum);
  }

  /** Struct bytes `s` with the 4-byte checksum field at `at` cleared. */
  function Zeroed(s: seq<byte>, at: nat): (z: seq<byte>)
    requires at + 4 <= |s|
    ensures |z| == |s|
    ensures forall i :: 0 <= i < |s| ==> z[i] == if at <= i < at + 4 then 0 else s[i]
  {
    s[..at] + [0, 0, 0, 0] + s[at + 4..]
  }

  /** The stored little-endian checksum equals the checksum of the struct with the field
      cleared: the test both `load_jheader_action` and `hfs_test_checksum_jblock` apply. */
  predicate ChecksumValid(s: seq<byte>, at: nat)
    requires at + 4 <= |s|
  {
    U32(s, at) == Checksum(Zeroed(s, at)) as nat
  }

  /** What a writer of the journal stores: the struct with its checksum field filled in. */
  function Sealed(s: seq<byte>, at: nat): (r: seq<byte>)
    requires at + 4 <= |s|
    ensures |r| == |s|
  {
    s[..at] + EncodeLE(Checksum(Zeroed(s, at)) as nat, 4) + s[at + 4..]
  }

  /** Sealing changes only the checksum field. */
  lemma SealedKeepsFields(s: seq<byte>, at: nat)
    requires at + 4 <= |s|
    ensures Zeroed(Sealed(s, at), at) == Zeroed(s, at)
    ensures forall i :: 0 <= i < |s| && !(at <= i < at + 4) ==> Sealed(s, at)[i] == s[i]
  {
    var t := Sealed(s, at);
    assert forall i :: 0 <= i < |s| && !(at <= i < at + 4) ==> t[i] == s[i];
    assert Zeroed(t, at) == Zeroed(s, at);
  }

  /** An honestly computed checksum always validates. */
  lemma SealedValidates(s: seq<byte>, at: nat)
    requires at + 4 <= |s|
    ensures ChecksumValid(Sealed(s, at), at)
  {
    var c := Checksum(Zeroed(s, at)) as nat;
    var t := Sealed(s, at);
    SealedKeepsFields(s, at);
    assert t[at..at + 4] == EncodeLE(c, 4);
    assert Pow256(4) == 0x1_0000_0000;
    LERoundTrip(c, 4);
  }

  /** Clearing the field's bytes inside a larger buffer clears them in the struct's slice. */
  lemma ZeroedInPlace(before: seq<byte>, after: seq<byte>, at: nat, size: nat, ckAt: nat)
    requires ckAt + 4 <= size && at + size <= |before| == |after|
    requires forall k :: 0 <= k < |after| ==>
      after[k] == if at + ckAt <= k < at + ckAt + 4 then 0 else before[k]
    ensures after[at..at + size] == Zeroed(before[at..at + size], ckAt)
  {
  }

  /** `hfs_test_checksum_jblock`: clears the checksum field of the block-list header at
      `at` in place, recomputes the checksum over the `size` bytes of the header, restores
      the field, and answers 0 for a match and 1 otherwise. */
  method TestChecksumJBlock(a: array<byte>, at: nat, size: nat, ckAt: nat) returns (r: nat)
    requires ckAt + 4 <= size && at + size <= a.Length
    modifies a
    ensures a[..] == old(a[..])
    ensures r == if ChecksumValid(old(a[at..at + size]), ckAt) then 0 else 1
  {
    var field := at + ckAt;
    var checksum := U32(a[at..at + size], ckAt);
    var temp: seq<byte> := [];
    for i := 0 to 4
      invariant |temp| == i
      invariant forall k :: 0 <= k < a.Length ==> a[k] == if field <= k < field + i then 0 else old(a[k])
      invariant forall k :: 0 <= k < i ==> temp[k] == old(a[field + k])
    {
      temp := temp + [a[field + i]];
      a[field + i] := 0;
    }
    ZeroedInPlace(old(a[..]), a[..], at, size, ckAt);
    var c := CalcChecksum(a, at, size);
    for i := 0 to 4
      invariant forall k :: 0 <= k < a.Length ==> a[k] == if field + i <= k < field + 4 then 0 else old(a[k])
    {
      a[field + i] := temp[i];
    }
    assert a[..] == old(a[..]);
    if checksum == c as nat {
      r := 0;
    } else {
      r := 1;
    }
  }
}

/**
 Machine integers of the tracker's C++ fields, byte strings, the two byte orders
 of the wire formats, and the byte copy that stands for `memcpy`.
 */
module Bytes {

  type byte = x: int | 0 <= x < 0x100
  type uint16 = x: int | 0 <= x < 0x1_0000
  type uint32 = x: int | 0 <= x < 0x1_0000_0000
  type uint64 = x: int | 0 <= x < 0x1_0000_0000_0000_0000

  const WRAP32: int := 0x1_0000_0000
  const WRAP64: int := 0x1_0000_0000_0000_0000

  /** `++x` on a `uint32_t`. */
  function Increment(x: uint32): uint32 {
    (x + 1) % WRAP32
  }

  /** `--x` on a `uint32_t`: from 0 it wraps to the largest value. */
  function Decrement(x: uint32): uint32 {
    (x - 1) % WRAP32
  }

  /** The value a 32-bit pattern has when it is read as a two's complement `int`. */
  function AsInt32(x: int): (r: int)
    ensures -0x8000_0000 <= r < 0x8000_0000
    ensures -0x8000_0000 <= x < 0x8000_0000 ==> r == x
  {
    var y := x % WRAP32;
    if y < 0x8000_0000 then y else y - WRAP32
  }

  predicate IsInt64(x: int) {
    -0x8000_0000_0000_0000 <= x < 0x8000_0000_0000_0000
  }

  /** The value a 64-bit pattern has as a signed integer: what 64-bit arithmetic leaves of `x`. */
  function AsInt64(x: int): (r: int)
    ensures IsInt64(r)
    ensures IsInt64(x) ==> r == x
  {
    var y := x % WRAP64;
    if y < 0x8000_0000_0000_0000 then y else y - WRAP64
  }

  function Zeroes(n: nat): (b: seq<byte>)
    ensures |b| == n
    ensures forall i :: 0 <= i < n ==> b[i] == 0
  {
    seq(n, _ => 0)
  }

  function Pow256(n: nat): (p: nat)
    ensures p > 0
  {
    if n == 0 then 1 else 256 * Pow256(n - 1)
  }

  lemma Pow256Values()
    ensures Pow256(2) == 0x1_0000
    ensures Pow256(4) == 0x1_0000_0000
    ensures Pow256(8) == 0x1_0000_0000_0000_0000
  {
    assert Pow256(2) == 0x1_0000;
    assert Pow256(4) == 256 * (256 * Pow256(2));
    assert Pow256(6) == 256 * (256 * Pow256(4));
    assert Pow256(8) == 256 * (256 * Pow256(6));
  }

  // ---------------------------------------------------------------- network order

  /** The `n` low-order bytes of `x`, most significant first (`htobe16/32/64`). */
  function BigEndian(x: nat, n: nat): (b: seq<byte>)
    ensures |b| == n
  {
    if n == 0 then [] else BigEndian(x / 256, n - 1) + [x % 256]
  }

  /** The number a big-endian byte string denotes (`be16/32/64toh`). */
  function FromBigEndian(b: seq<byte>): (x: nat)
    ensures x < Pow256(|b|)
  {
    if b == [] then 0 else FromBigEndian(b[..|b| - 1]) * 256 + b[|b| - 1]
  }

  lemma {:induction false} BigEndianRoundTrip(x: nat, n: nat)
    requires x < Pow256(n)
    ensures FromBigEndian(BigEndian(x, n)) == x
  {
    if n > 0 {
      var q := x / 256;
      var b := BigEndian(q, n - 1);
      assert x == 256 * q + x % 256;
      assert Pow256(n) == 256 * Pow256(n - 1);
      BigEndianRoundTrip(q, n - 1);
      FromBigEndianAppend(b, x % 256);
    }
  }

  lemma FromBigEndianAppend(b: seq<byte>, last: byte)
    ensures FromBigEndian(b + [last]) == FromBigEndian(b) * 256 + last
  {
    assert (b + [last])[..|b|] == b;
  }

  lemma {:induction false} BigEndianOnto(b: seq<byte>)
    ensures BigEndian(FromBigEndian(b), |b|) == b
  {
    if b != [] {
      BigEndianOnto(b[..|b| - 1]);
      assert b == b[..|b| - 1] + [b[|b| - 1]];
    }
  }

  /** Every width the wire formats use reads back what was written. */
  lemma WordsRoundTrip(a: uint16, b: uint32, c: uint64)
    ensures U16(BigEndian(a, 2)) == a
    ensures U32(BigEndian(b, 4)) == b
    ensures U64(BigEndian(c, 8)) == c
  {
    Pow256Values();
    BigEndianRoundTrip(a, 2);
    BigEndianRoundTrip(b, 4);
    BigEndianRoundTrip(c, 8);
  }

  /** And every word that is read is written back as the same bytes. */
  lemma WordsOnto(a: seq<byte>, b: seq<byte>, c: seq<byte>)
    requires |a| == 2 && |b| == 4 && |c| == 8
    ensures BigEndian(U16(a), 2) == a && BigEndian(U32(b), 4) == b && BigEndian(U64(c), 8) == c
  {
    BigEndianOnto(a);
    BigEndianOnto(b);
    BigEndianOnto(c);
  }

  function U16(b: seq<byte>): uint16
    requires |b| == 2
  {
    Pow256Values(); FromBigEndian(b)
  }

  function U32(b: seq<byte>): uint32
    requires |b| == 4
  {
    Pow256Values(); FromBigEndian(b)
  }

  function U64(b: seq<byte>): uint64
    requires |b| == 8
  {
    Pow256Values(); FromBigEndian(b)
  }

  // ------------------------------------------------------------------- host order

  /** The bytes of an integer stored without byte swapping (little-endian host). */
  function HostOrder(x: nat, n: nat): (b: seq<byte>)
    ensures |b| == n
  {
    if n == 0 then [] else [x % 256] + HostOrder(x / 256, n - 1)
  }

  function FromHostOrder(b: seq<byte>): (x: nat)
    ensures x < Pow256(|b|)
  {
    if b == [] then 0 else b[0] + 256 * FromHostOrder(b[1..])
  }

  lemma {:induction false} HostOrderRoundTrip(x: nat, n: nat)
    requires x < Pow256(n)
    ensures FromHostOrder(HostOrder(x, n)) == x
  {
    if n > 0 {
      assert HostOrder(x, n)[1..] == HostOrder(x / 256, n - 1);
      HostOrderRoundTrip(x / 256, n - 1);
    }
  }

  lemma LowByte(low: byte, high: nat)
    ensures (low + 256 * high) % 256 == low && (low + 256 * high) / 256 == high
  {
  }

  lemma {:induction false} HostOrderOnto(b: seq<byte>)
    ensures HostOrder(FromHostOrder(b), |b|) == b
  {
    if b != [] {
      LowByte(b[0], FromHostOrder(b[1..]));
      HostOrderOnto(b[1..]);
      assert b == [b[0]] + b[1..];
    }
  }

  // ----------------------------------------------------------------------- memcpy

  /** `b` with the bytes from `at` on replaced by `src`. */
  function Overwrite(b: seq<byte>, at: nat, src: seq<byte>): (r: seq<byte>)
    requires at + |src| <= |b|
    ensures |r| == |b|
  {
    b[..at] + src + b[at + |src|..]
  }

  /** `memcpy(&a[at], src, |src|)`; the bounds are what the call demands. */
  method CopyInto(a: array<byte>, at: nat, src: seq<byte>)
    requires at + |src| <= a.Length
    modifies a
    ensures a[..] == Overwrite(old(a[..]), at, src)
  {
    for i := 0 to |src|
      invariant forall k :: 0 <= k < i ==> a[at + k] == src[k]
      invariant forall k :: 0 <= k < a.Length && !(at <= k < at + i) ==> a[k] == old(a[k])
    {
      a[at + i] := src[i];
    }
    ghost var r := Overwrite(old(a[..]), at, src);
    forall k | 0 <= k < a.Length ensures a[k] == r[k] {
      if at <= k < at + |src| {
        assert a[k] == src[k - at];
      }
    }
  }

  /** A slice of a slice. */
  lemma Subslice(b: seq<byte>, from: nat, to: nat, i: nat, j: nat)
    requires from <= to <= |b| && i <= j <= to - from
    ensures b[from..to][i..j] == b[from + i..from + j]
  {
    forall k | 0 <= k < j - i ensures b[from..to][i..j][k] == b[from + i..from + j][k] {
    }
  }
}

/** Fixed-width integers, little- and big-endian byte strings. */
module Bytes {

  type byte = b: int | 0 <= b < 0x100

  type int8 = i: int | -0x80 <= i < 0x80
  type int16 = i: int | -0x8000 <= i < 0x8000
  type int32 = i: int | -0x8000_0000 <= i < 0x8000_0000
  type int64 = i: int | -0x8000_0000_0000_0000 <= i < 0x8000_0000_0000_0000

  type uint16 = n: int | 0 <= n < 0x1_0000
  type uint32 = n: int | 0 <= n < 0x1_0000_0000
  type uint64 = n: int | 0 <= n < 0x1_0000_0000_0000_0000

  // Go's integer conversions: uintN(x) keeps the low N bits, intN(x) reads them as two's complement.

  function U8(n: int): (r: byte)
    ensures 0 <= n < 0x100 ==> r == n
  {
    n % 0x100
  }

  function U16(n: int): (r: uint16)
    ensures 0 <= n < 0x1_0000 ==> r == n
  {
    n % 0x1_0000
  }

  function U32(n: int): (r: uint32)
    ensures 0 <= n < 0x1_0000_0000 ==> r == n
  {
    n % 0x1_0000_0000
  }

  function U64(n: int): (r: uint64)
    ensures 0 <= n < 0x1_0000_0000_0000_0000 ==> r == n
  {
    n % 0x1_0000_0000_0000_0000
  }

  function S8(n: int): (r: int8)
    ensures -0x80 <= n < 0x80 <==> r == n
    ensures U8(r) == U8(n)
  {
    if U8(n) < 0x80 then U8(n) else U8(n) - 0x100
  }

  function S16(n: int): (r: int16)
    ensures -0x8000 <= n < 0x8000 <==> r == n
    ensures U16(r) == U16(n)
  {
    if U16(n) < 0x8000 then U16(n) else U16(n) - 0x1_0000
  }

  function S32(n: int): (r: int32)
    ensures -0x8000_0000 <= n < 0x8000_0000 <==> r == n
    ensures U32(r) == U32(n)
  {
    if U32(n) < 0x8000_0000 then U32(n) else U32(n) - 0x1_0000_0000
  }

  function S64(n: int): (r: int64)
    ensures -0x8000_0000_0000_0000 <= n < 0x8000_0000_0000_0000 <==> r == n
    ensures U64(r) == U64(n)
  {
    if U64(n) < 0x8000_0000_0000_0000 then U64(n) else U64(n) - 0x1_0000_0000_0000_0000
  }

  // ---------- little-endian ----------

  function Pow256(width: nat): (p: nat)
    ensures p > 0
  {
    if width == 0 then 1 else 256 * Pow256(width - 1)
  }

  function LE(n: nat, width: nat): (bs: seq<byte>)
    ensures |bs| == width
  {
    if width == 0 then [] else [n % 256] + LE(n / 256, width - 1)
  }

  function FromLE(bs: seq<byte>): nat {
    if bs == [] then 0 else bs[0] + 256 * FromLE(bs[1..])
  }

  lemma {:induction false} FromLEOfLE(n: nat, width: nat)
    requires n < Pow256(width)
    ensures FromLE(LE(n, width)) == n
  {
    if width > 0 {
      FromLEOfLE(n / 256, width - 1);
      assert LE(n, width)[1..] == LE(n / 256, width - 1);
    }
  }

  lemma {:induction false} LEOfFromLE(bs: seq<byte>)
    ensures LE(FromLE(bs), |bs|) == bs
  {
    if bs != [] {
      LEOfFromLE(bs[1..]);
      assert FromLE(bs) % 256 == bs[0] && FromLE(bs) / 256 == FromLE(bs[1..]);
    }
  }

  lemma {:induction false} FromLEBound(bs: seq<byte>)
    ensures FromLE(bs) < Pow256(|bs|)
  {
    if bs != [] {
      FromLEBound(bs[1..]);
    }
  }

  lemma PowerValues()
    ensures Pow256(2) == 0x1_0000 && Pow256(4) == 0x1_0000_0000 && Pow256(8) == 0x1_0000_0000_0000_0000
  {
    assert Pow256(1) == 256 && Pow256(3) == 0x100_0000;
    assert Pow256(5) == 0x100_0000_0000 && Pow256(6) == 0x1_0000_0000_0000 && Pow256(7) == 0x100_0000_0000_0000;
  }

  function LE16(n: uint16): (bs: seq<byte>) ensures |bs| == 2 { LE(n, 2) }
  function LE32(n: uint32): (bs: seq<byte>) ensures |bs| == 4 { LE(n, 4) }
  function LE64(n: uint64): (bs: seq<byte>) ensures |bs| == 8 { LE(n, 8) }

  function Get16(bs: seq<byte>): uint16
    requires |bs| >= 2
  {
    FromLEBound(bs[..2]);
    PowerValues();
    FromLE(bs[..2])
  }

  function Get32(bs: seq<byte>): uint32
    requires |bs| >= 4
  {
    FromLEBound(bs[..4]);
    PowerValues();
    FromLE(bs[..4])
  }

  function Get64(bs: seq<byte>): uint64
    requires |bs| >= 8
  {
    FromLEBound(bs[..8]);
    PowerValues();
    FromLE(bs[..8])
  }

  lemma Get16OfLE16(n: uint16, tail: seq<byte>)
    ensures Get16(LE16(n) + tail) == n && (LE16(n) + tail)[2..] == tail
  {
    PowerValues();
    FromLEOfLE(n, 2);
    assert (LE16(n) + tail)[..2] == LE16(n);
  }

  lemma Get32OfLE32(n: uint32, tail: seq<byte>)
    ensures Get32(LE32(n) + tail) == n && (LE32(n) + tail)[4..] == tail
  {
    PowerValues();
    FromLEOfLE(n, 4);
    assert (LE32(n) + tail)[..4] == LE32(n);
  }

  lemma Get32OfPrefix(a: seq<byte>, b: seq<byte>)
    requires |a| >= 4 && |b| >= 4 && a[..4] == b[..4]
    ensures Get32(a) == Get32(b)
  {
  }

  lemma Get64OfLE64(n: uint64, tail: seq<byte>)
    ensures Get64(LE64(n) + tail) == n && (LE64(n) + tail)[8..] == tail
  {
    PowerValues();
    FromLEOfLE(n, 8);
    assert (LE64(n) + tail)[..8] == LE64(n);
  }

  // ---------- big-endian magnitudes (math/big's Bytes and SetBytes) ----------

  function Abs(n: int): nat { if n < 0 then -n else n }

  function ToBE(n: nat): seq<byte> {
    if n == 0 then [] else ToBE(n / 256) + [n % 256]
  }

  function FromBE(bs: seq<byte>): nat {
    if bs == [] then 0 else 256 * FromBE(bs[..|bs| - 1]) + bs[|bs| - 1]
  }

  lemma {:induction false} FromBEOfToBE(n: nat)
    ensures FromBE(ToBE(n)) == n
  {
    if n > 0 {
      FromBEOfToBE(n / 256);
      assert ToBE(n)[..|ToBE(n)| - 1] == ToBE(n / 256);
    }
  }
}

/**
 Unsigned LEB128 (section 7.6 of the DWARF version 5 standard), as Go's binary.PutUvarint and
 binary.Uvarint write and read it.
 */
module Varint {
  import opened Bytes

  /** PutUvarint: seven bits a byte, low bits first, the high bit set on all bytes but the last. */
  function PutUvarint(x: nat): (bs: seq<byte>)
    ensures |bs| > 0
  {
    if x < 128 then [x] else [x % 128 + 128] + PutUvarint(x / 128)
  }

  /** What Uvarint reports: a value with its width, a buffer that ends too early, or a 64-bit overflow. */
  datatype Reading = Decoded(value: nat, width: nat) | Short | Overflow

  const MAX_VARINT_LEN_64 := 10

  function Uvarint(bs: seq<byte>): Reading { UvarintFrom(bs, 0) }

  /** The loop of Uvarint once `i` bytes with the high bit set have been read. */
  function UvarintFrom(bs: seq<byte>, i: nat): Reading {
    if bs == [] then Short
    else if i == MAX_VARINT_LEN_64 then Overflow
    else if bs[0] < 128 then (if i == 9 && bs[0] > 1 then Overflow else Decoded(bs[0], 1))
    else
      match UvarintFrom(bs[1..], i + 1)
      case Decoded(value, width) => Decoded(bs[0] - 128 + 128 * value, width + 1)
      case failed => failed
  }

  function Pow128(k: nat): (p: nat)
    ensures p > 0
  {
    if k == 0 then 1 else 128 * Pow128(k - 1)
  }

  lemma Pow128Values()
    ensures Pow128(5) == 0x8_0000_0000 && Pow128(9) == 0x8000_0000_0000_0000
  {
    assert Pow128(3) == 0x20_0000;
    assert Pow128(7) == 0x2_0000_0000_0000;
  }

  /** Values below 128^k take at most k bytes. */
  lemma {:induction false} PutUvarintWidth(x: nat, k: nat)
    requires k > 0 && x < Pow128(k)
    ensures |PutUvarint(x)| <= k
  {
    if x >= 128 {
      PutUvarintWidth(x / 128, k - 1);
    }
  }

  /** The buffers of MaxVarintLen32 and MaxVarintLen64 bytes suffice for every int32 and int64. */
  lemma VarintBuffersSuffice(n32: uint32, n64: uint64)
    ensures |PutUvarint(n32)| <= 5
    ensures |PutUvarint(n64)| <= 10
  {
    Pow128Values();
    PutUvarintWidth(n32, 5);
    assert Pow128(10) == 128 * Pow128(9);
    PutUvarintWidth(n64, 10);
  }

  lemma {:induction false} UvarintFromOfPut(x: nat, i: nat, tail: seq<byte>)
    requires i <= 9 && x < 2 * Pow128(9 - i)
    ensures UvarintFrom(PutUvarint(x) + tail, i) == Decoded(x, |PutUvarint(x)|)
  {
    var bs := PutUvarint(x) + tail;
    if x >= 128 && i < 9 {
      UvarintFromOfPut(x / 128, i + 1, tail);
      assert bs[1..] == PutUvarint(x / 128) + tail;
    }
  }

  /** Reading back any 64-bit varint, whatever bytes follow it. */
  lemma UvarintOfPut(x: uint64, tail: seq<byte>)
    ensures Uvarint(PutUvarint(x) + tail) == Decoded(x, |PutUvarint(x)|)
  {
    Pow128Values();
    UvarintFromOfPut(x, 0, tail);
  }

  /** A varint read uses a nonempty prefix of the buffer. */
  lemma {:induction false} UvarintWidth(bs: seq<byte>, i: nat)
    ensures UvarintFrom(bs, i).Decoded? ==> 0 < UvarintFrom(bs, i).width <= |bs|
  {
    if bs != [] {
      UvarintWidth(bs[1..], i + 1);
    }
  }

  /** A varint is read from its own bytes alone. */
  lemma {:induction false} UvarintOfPrefix(a: seq<byte>, b: seq<byte>, i: nat)
    requires UvarintFrom(a, i).Decoded? && UvarintFrom(a, i).width <= |b|
    requires |a| >= UvarintFrom(a, i).width && a[..UvarintFrom(a, i).width] == b[..UvarintFrom(a, i).width]
    ensures UvarintFrom(b, i) == UvarintFrom(a, i)
  {
    var n := UvarintFrom(a, i).width;
    UvarintWidth(a, i);
    assert a[0] == a[..n][0] == b[..n][0] == b[0];
    if a[0] >= 128 {
      assert a[1..][..n - 1] == a[..n][1..] && b[1..][..n - 1] == b[..n][1..];
      UvarintOfPrefix(a[1..], b[1..], i + 1);
    }
  }

  /** What is read fits in 64 bits. */
  lemma {:induction false} UvarintBelow(bs: seq<byte>, i: nat)
    requires i <= 9
    ensures UvarintFrom(bs, i).Decoded? ==> UvarintFrom(bs, i).value < 2 * Pow128(9 - i)
  {
    if bs != [] && i < 9 {
      UvarintBelow(bs[1..], i + 1);
    }
  }

  /** Leaving out the first `k` bytes of a varint leaves a smaller one. */
  lemma {:induction false} ShiftedVarint(x: nat, k: nat) returns (y: nat)
    requires 0 < k < |PutUvarint(x)|
    ensures y < x && PutUvarint(x)[k..] == PutUvarint(y)
  {
    y := x / 128;
    if k > 1 {
      var z := ShiftedVarint(y, k - 1);
      assert PutUvarint(x)[k..] == PutUvarint(y)[k - 1..];
      y := z;
    }
  }

  /** Reading fixed-width bytes as a varint never gives a larger number, and gives the same one only below 128. */
  lemma {:induction false} UvarintAtMostLE(bs: seq<byte>, i: nat)
    ensures UvarintFrom(bs, i).Decoded? ==> UvarintFrom(bs, i).value <= FromLE(bs)
    ensures UvarintFrom(bs, i).Decoded? && bs[0] >= 128 ==> UvarintFrom(bs, i).value < FromLE(bs)
  {
    if bs != [] {
      UvarintAtMostLE(bs[1..], i + 1);
    }
  }
}

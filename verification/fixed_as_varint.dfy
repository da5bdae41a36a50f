/** Eight fixed bytes read as a varint: when they give their own number back, and how many bytes that takes. */
module FixedAsVarint {
  import opened Bits
  import opened Bytes
  import opened Varint

  /** The two bytes that complete a varint of eight bytes all with the high bit set. */
  predicate Completes(rest: seq<byte>) {
    |rest| >= 2 && rest[0] == 255 && rest[1] == 1
  }

  /** An odd number below 128, one less than a power of two, has an inverse modulo 128. */
  lemma NoCommonMultiple(q: nat, d: nat, z: int)
    requires q in {1, 3, 7, 15, 31, 63, 127} && d < 128 && q * d == 128 * z
    ensures d == 0
  {
    match q {
      case 1 => Multiple(d, z);
      case 3 => assert 3 * d == 128 * z; Multiple(d, 2 * d - 85 * z);
      case 7 => assert 7 * d == 128 * z; Multiple(d, 4 * d - 73 * z);
      case 15 => assert 15 * d == 128 * z; Multiple(d, 2 * d - 17 * z);
      case 31 => assert 31 * d == 128 * z; Multiple(d, 8 * d - 33 * z);
      case 63 => assert 63 * d == 128 * z; Multiple(d, 32 * d - 65 * z);
      case 127 => assert 127 * d == 128 * z; Multiple(d, d - z);
    }
  }

  lemma Multiple(d: nat, k: int)
    requires d < 128 && d == 128 * k
    ensures d == 0
  {
  }

  /** The value that a varint still has to add, `p` being 2 to the number of bytes read before. */
  function Owed(p: nat, x: nat): int {
    p - 1 + p * x
  }

  /** One byte of the comparison: `p` is 2 to the number of bytes read before. */
  lemma ContinuedByte(p: nat, b: byte, x: nat, y: nat)
    requires p in {2, 4, 8, 16, 32, 64, 128} && b >= 128
    ensures b - 128 + 128 * y == Owed(p, b + 256 * x) <==> b == 255 && y == Owed(2 * p, x)
  {
    var d, m := 255 - b, p * x;
    OwedStep(p, b, x);
    hide Owed;
    assert (p - 1) * d == 255 * p - 255 - p * b + b;
    if b - 128 + 128 * y == p - 1 + p * b + 256 * m {
      NoCommonMultiple(p - 1, d, 2 * p - 1 + 2 * m - y);
    }
  }

  lemma OwedStep(p: nat, b: byte, x: nat)
    ensures Owed(p, b + 256 * x) == p - 1 + p * b + 256 * (p * x) && Owed(2 * p, x) == 2 * p - 1 + 2 * (p * x)
  {
  }

  lemma LastByte(p: nat, b: byte, x: nat)
    requires p >= 2
    ensures b < Owed(p, b + 256 * x)
  {
    var m := b + 256 * x;
    assert p * m >= 2 * m;
  }

  lemma PowersOfTwo(n: nat)
    requires 0 < n < 8
    ensures Pow2(8 - n) in {2, 4, 8, 16, 32, 64, 128} && Pow2(9 - n) == 2 * Pow2(8 - n)
  {
    assert Pow2(1) == 2 && Pow2(2) == 4 && Pow2(3) == 8 && Pow2(4) == 16 && Pow2(5) == 32 && Pow2(6) == 64;
  }

  /** The varint being read has the value it should have. */
  predicate Gives(r: Reading, value: int) {
    r.Decoded? && r.value == value
  }

  lemma NoBytesLeft(rest: seq<byte>)
    ensures Gives(UvarintFrom(rest, 8), 255) <==> Completes(rest)
    ensures Completes(rest) ==> UvarintFrom(rest, 8).width == 2
  {
    if |rest| >= 2 && rest[0] >= 128 {
      var r := UvarintFrom(rest[1..], 9);
      assert !UvarintFrom(rest[1..][1..], 10).Decoded?;
      assert r.Decoded? ==> r == Decoded(rest[1], 1) && rest[1] <= 1;
      assert rest[1] == 1 ==> r == Decoded(1, 1);
    }
  }

  lemma OneByte(p: nat, b: byte, x: nat, bs: seq<byte>, i: nat)
    requires p in {2, 4, 8, 16, 32, 64, 128} && i < 8
    ensures
      var r, later := UvarintFrom([b] + bs, i), UvarintFrom(bs, i + 1);
      && (Gives(r, Owed(p, b + 256 * x)) <==> b == 255 && Gives(later, Owed(2 * p, x)))
      && (r.Decoded? && b >= 128 ==> r.width == later.width + 1)
  {
    var later := UvarintFrom(bs, i + 1);
    hide Owed;
    assert ([b] + bs)[1..] == bs;
    if b < 128 {
      LastByte(p, b, x);
    } else if later.Decoded? {
      ContinuedByte(p, b, x, later.value);
    }
  }

  lemma AllOnes(n: nat, b: byte, x: nat)
    requires n > 0 && x < Pow256(n - 1)
    ensures b + 256 * x == Pow256(n) - 1 <==> b == 255 && x == Pow256(n - 1) - 1
  {
  }

  /** The last `n` of eight bytes, when 8 - n have been read and all had the high bit set. */
  lemma {:induction false} LastBytes(x: nat, n: nat, rest: seq<byte>)
    requires n < 8 && x < Pow256(n)
    ensures
      var p, r := Pow2(8 - n), UvarintFrom(LE(x, n) + rest, 8 - n);
      && (Gives(r, Owed(p, x)) <==> x == Pow256(n) - 1 && Completes(rest))
      && (Gives(r, Owed(p, x)) ==> r.width == n + 2)
    decreases n
  {
    if n == 0 {
      NothingLeft(x, rest);
    } else {
      hide UvarintFrom, Pow2, Completes, Owed;
      var b, y, p := x % 256, x / 256, Pow2(8 - n);
      var bs := LE(y, n - 1) + rest;
      LowestByte(x, n, rest);
      AllOnes(n, b, y);
      LastBytes(y, n - 1, rest);
      PowersOfTwo(n);
      hide LE, Pow256;
      OneByte(p, b, y, bs, 8 - n);
    }
  }

  lemma LowestByte(x: nat, n: nat, rest: seq<byte>)
    requires n > 0
    ensures LE(x, n) + rest == [x % 256] + (LE(x / 256, n - 1) + rest)
    ensures x == x % 256 + 256 * (x / 256)
  {
  }

  lemma NothingLeft(x: nat, rest: seq<byte>)
    requires x < Pow256(0)
    ensures
      var p, r := Pow2(8), UvarintFrom(LE(x, 0) + rest, 8);
      && (Gives(r, Owed(p, x)) <==> x == Pow256(0) - 1 && Completes(rest))
      && (Gives(r, Owed(p, x)) ==> r.width == 2)
  {
    Pow2Eight();
    assert x == 0 && LE(x, 0) + rest == rest;
    hide UvarintFrom, Completes, Pow2;
    NoBytesLeft(rest);
  }

  lemma FirstByte(b: byte, x: nat, bs: seq<byte>)
    ensures
      var r, later := Uvarint([b] + bs), UvarintFrom(bs, 1);
      && (Gives(r, b + 256 * x) <==> if b < 128 then x == 0 else Gives(later, Owed(2, x)))
      && (b < 128 ==> r == Decoded(b, 1))
      && (r.Decoded? && b >= 128 ==> r.width == later.width + 1)
  {
    assert ([b] + bs)[1..] == bs;
  }

  lemma HighBytesOfSmall(n: int64)
    ensures
      var b, y := U64(n) % 256, U64(n) / 256;
      && y < 0x100_0000_0000_0000
      && (b < 128 && y == 0 <==> 0 <= n < 128)
      && (b >= 128 && y == 0x100_0000_0000_0000 - 1 <==> -128 <= n < 0)
  {
  }

  /**
   Eight fixed bytes in front of anything are read as the varint of their own number exactly for 0 to 127, in one
   byte, and for -128 to -1 where FF 01 follows, in ten.
   */
  lemma FixedReadAsVarint(n: int64, rest: seq<byte>)
    ensures
      var r := Uvarint(LE64(U64(n)) + rest);
      && (Gives(r, U64(n)) <==> 0 <= n < 128 || (-128 <= n < 0 && Completes(rest)))
      && (Gives(r, U64(n)) ==> r.width == if n >= 0 then 1 else 10)
  {
    var x := U64(n);
    var b, y := x % 256, x / 256;
    var bs := LE(y, 7) + rest;
    assert Pow256(7) == 0x100_0000_0000_0000 && Pow2(1) == 2;
    hide Completes, UvarintFrom, Uvarint, Pow256, Pow2, U64, Owed;
    LowestByte(x, 8, rest);
    HighBytesOfSmall(n);
    LastBytes(y, 7, rest);
    hide LE;
    FirstByte(b, y, bs);
  }
}

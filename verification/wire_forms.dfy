/**
 Numbers as they stand on the wire, spelled out byte by byte, and the proof that the codec writes and reads them so.
 The statements here name no function of the codec on their own side: they say what bytes there are.
 */
module WireForms {
  import opened Bytes
  import opened Varint

  // ---------- fixed width: the lowest byte first, negative numbers in two's complement ----------

  function Two(n: int): (bs: seq<byte>)
    ensures |bs| == 2
  {
    [n % 0x100, n / 0x100 % 0x100]
  }

  function Four(n: int): (bs: seq<byte>)
    ensures |bs| == 4
  {
    [n % 0x100, n / 0x100 % 0x100, n / 0x1_0000 % 0x100, n / 0x100_0000 % 0x100]
  }

  function Eight(n: int): (bs: seq<byte>)
    ensures |bs| == 8
  {
    Four(n) + Four(n / 0x1_0000_0000)
  }

  lemma LETwo(n: uint16)
    ensures LE16(n) == Two(n)
  {
    assert LE(n, 2) == [n % 256] + LE(n / 256, 1);
    assert LE(n / 256, 1) == [n / 256 % 256] + LE(n / 256 / 256, 0);
  }

  lemma LEFour(n: uint32)
    ensures LE32(n) == Four(n)
  {
    FourLow(n, 0);
    assert LE(n / 0x1_0000_0000, 0) == [];
  }

  /** The four lowest of `more` + 4 bytes. */
  lemma FourLow(n: nat, more: nat)
    ensures LE(n, 4 + more) == Four(n) + LE(n / 0x1_0000_0000, more)
  {
    var a, b, c, d := n / 0x100, n / 0x1_0000, n / 0x100_0000, n / 0x1_0000_0000;
    assert LE(n, 4 + more) == [n % 256] + LE(a, 3 + more);
    assert a / 256 == b && LE(a, 3 + more) == [a % 256] + LE(b, 2 + more);
    assert b / 256 == c && LE(b, 2 + more) == [b % 256] + LE(c, 1 + more);
    assert c / 256 == d && LE(c, 1 + more) == [c % 256] + LE(d, more);
  }

  lemma LEEight(n: uint64)
    ensures LE64(n) == Eight(n)
  {
    FourLow(n, 4);
    LEFour(n / 0x1_0000_0000);
  }

  /** Wrapping a number to the width first changes none of its bytes. */
  lemma TwoWraps(n: int)
    ensures Two(U16(n)) == Two(n)
  {
    var q := n / 0x1_0000;
    assert n == U16(n) + 0x1_0000 * q;
    assert n / 0x100 == U16(n) / 0x100 + 0x100 * q;
  }

  lemma FourWraps(n: int)
    ensures Four(U32(n)) == Four(n)
  {
    SameLow(n, U32(n), n / 0x1_0000_0000);
  }

  lemma EightWraps(n: int)
    ensures Eight(U64(n)) == Eight(n)
  {
    var u, q := U64(n), n / 0x1_0000_0000_0000_0000;
    assert n == u + 0x1_0000_0000_0000_0000 * q;
    SameLow(n, u, 0x1_0000_0000 * q);
    var m, v := n / 0x1_0000_0000, u / 0x1_0000_0000;
    assert m == v + 0x1_0000_0000 * q;
    SameLow(m, v, q);
  }

  lemma SameLow(n: int, u: int, q: int)
    requires n == u + 0x1_0000_0000 * q
    ensures Four(n) == Four(u)
  {
    FourNested(n);
    FourNested(u);
    OneLower(n, u, 0x100_0000 * q);
    OneLower(n / 0x100, u / 0x100, 0x1_0000 * q);
    OneLower(n / 0x100 / 0x100, u / 0x100 / 0x100, 0x100 * q);
    OneLower(n / 0x100 / 0x100 / 0x100, u / 0x100 / 0x100 / 0x100, q);
  }

  lemma OneLower(n: int, u: int, m: int)
    requires n == u + 0x100 * m
    ensures n % 0x100 == u % 0x100 && n / 0x100 == u / 0x100 + m
  {
  }

  lemma FourNested(n: int)
    ensures
      var a, b, c := n / 0x100, n / 0x100 / 0x100, n / 0x100 / 0x100 / 0x100;
      Four(n) == [n % 0x100, a % 0x100, b % 0x100, c % 0x100]
  {
    assert n / 0x100 / 0x100 == n / 0x1_0000;
    assert n / 0x100 / 0x100 / 0x100 == n / 0x100_0000;
  }

  // ---------- fixed width, read ----------

  lemma GetTwo(bs: seq<byte>)
    requires |bs| >= 2
    ensures Two(Get16(bs)) == bs[..2]
  {
    hide LE, FromLE, Two;
    LEOfFromLE(bs[..2]);
    LETwo(Get16(bs));
  }

  lemma GetFour(bs: seq<byte>)
    requires |bs| >= 4
    ensures Four(Get32(bs)) == bs[..4]
  {
    hide LE, FromLE, Four;
    LEOfFromLE(bs[..4]);
    LEFour(Get32(bs));
  }

  lemma GetEight(bs: seq<byte>)
    requires |bs| >= 8
    ensures Eight(Get64(bs)) == bs[..8]
  {
    hide LE, FromLE, Eight;
    LEOfFromLE(bs[..8]);
    LEEight(Get64(bs));
  }

  lemma TwoInjective(m: uint16, n: uint16)
    requires Two(m) == Two(n)
    ensures m == n
  {
    hide LE, Two;
    LETwo(m);
    LETwo(n);
    Get16OfLE16(m, []);
    Get16OfLE16(n, []);
  }

  lemma FourInjective(m: uint32, n: uint32)
    requires Four(m) == Four(n)
    ensures m == n
  {
    hide LE, Four;
    LEFour(m);
    LEFour(n);
    Get32OfLE32(m, []);
    Get32OfLE32(n, []);
  }

  lemma EightInjective(m: uint64, n: uint64)
    requires Eight(m) == Eight(n)
    ensures m == n
  {
    hide LE, Eight;
    LEEight(m);
    LEEight(n);
    Get64OfLE64(m, []);
    Get64OfLE64(n, []);
  }

  /** The signed number that two bytes stand for. */
  lemma SignedTwo(bs: seq<byte>, n: int16)
    requires |bs| >= 2
    ensures S16(Get16(bs)) == n <==> Two(n) == bs[..2]
  {
    hide Get16, U16, S16, Two;
    GetTwo(bs);
    var s := S16(Get16(bs));
    TwoWraps(s);
    TwoWraps(Get16(bs));
    if Two(n) == bs[..2] {
      TwoWraps(n);
      TwoInjective(U16(n), U16(s));
      SameInt16(n, s);
    }
  }

  lemma SameInt16(m: int16, n: int16)
    requires U16(m) == U16(n)
    ensures m == n
  {
  }

  lemma SignedFour(bs: seq<byte>, n: int32)
    requires |bs| >= 4
    ensures S32(Get32(bs)) == n <==> Four(n) == bs[..4]
  {
    hide Get32, U32, S32, Four;
    GetFour(bs);
    var s := S32(Get32(bs));
    FourWraps(s);
    FourWraps(Get32(bs));
    if Four(n) == bs[..4] {
      FourWraps(n);
      FourInjective(U32(n), U32(s));
      SameInt32(n, s);
    }
  }

  lemma SameInt32(m: int32, n: int32)
    requires U32(m) == U32(n)
    ensures m == n
  {
  }

  lemma SignedEight(bs: seq<byte>, n: int64)
    requires |bs| >= 8
    ensures S64(Get64(bs)) == n <==> Eight(n) == bs[..8]
  {
    hide Get64, U64, S64, Eight;
    GetEight(bs);
    var s := S64(Get64(bs));
    EightWraps(s);
    EightWraps(Get64(bs));
    if Eight(n) == bs[..8] {
      EightWraps(n);
      EightInjective(U64(n), U64(s));
      SameInt64(n, s);
    }
  }

  lemma SameInt64(m: int64, n: int64)
    requires U64(m) == U64(n)
    ensures m == n
  {
  }

  lemma UnsignedFour(bs: seq<byte>, n: uint32)
    requires |bs| >= 4
    ensures Get32(bs) == n <==> Four(n) == bs[..4]
  {
    hide Get32, Four;
    GetFour(bs);
    if Four(n) == bs[..4] {
      FourInjective(n, Get32(bs));
    }
  }

  lemma UnsignedEight(bs: seq<byte>, n: uint64)
    requires |bs| >= 8
    ensures Get64(bs) == n <==> Eight(n) == bs[..8]
  {
    hide Get64, Eight;
    GetEight(bs);
    if Eight(n) == bs[..8] {
      EightInjective(n, Get64(bs));
    }
  }

  // ---------- varints: seven bits a byte, the lowest first, the high bit on all bytes but the last ----------

  predicate Continues(bs: seq<byte>) {
    && bs != []
    && bs[|bs| - 1] < 0x80
    && forall i :: 0 <= i < |bs| - 1 ==> bs[i] >= 0x80
  }

  function Groups(bs: seq<byte>): nat {
    if bs == [] then 0 else bs[0] % 0x80 + 0x80 * Groups(bs[1..])
  }

  /** The shortest varint of `n`. */
  predicate IsVarint(bs: seq<byte>, n: nat) {
    Continues(bs) && Groups(bs) == n && (|bs| > 1 ==> bs[|bs| - 1] != 0)
  }

  /** The varint of `n` takes up the first `w` bytes of `payload` and is below 2^64. */
  predicate VarintAt(payload: seq<byte>, n: nat, w: nat) {
    && 1 <= w <= |payload| && w <= 10
    && Continues(payload[..w]) && Groups(payload[..w]) == n
    && (w == 10 ==> payload[9] <= 1)
  }

  lemma ContinuesStep(bs: seq<byte>)
    requires |bs| > 1
    ensures Continues(bs) <==> bs[0] >= 0x80 && Continues(bs[1..])
    ensures bs[|bs| - 1] == bs[1..][|bs| - 2]
  {
    var rest := bs[1..];
    assert forall i :: 1 <= i < |bs| ==> bs[i] == rest[i - 1];
    assert forall i :: 0 <= i < |rest| ==> rest[i] == bs[i + 1];
  }

  /** The bytes written for `n` are its shortest varint. */
  lemma {:induction false} PutUvarintExactly(n: nat, bs: seq<byte>)
    ensures bs == PutUvarint(n) <==> IsVarint(bs, n)
    decreases n
  {
    if n < 0x80 {
      OneByteVarint(n, bs);
    } else if |bs| > 1 {
      PutUvarintExactly(n / 0x80, bs[1..]);
      ContinuesStep(bs);
      hide Continues;
      assert PutUvarint(n) == [n % 0x80 + 0x80] + PutUvarint(n / 0x80);
      assert bs == [bs[0]] + bs[1..];
      hide PutUvarint;
      GroupsStep(bs, n);
    } else {
      assert |PutUvarint(n / 0x80)| > 0;
    }
  }

  lemma GroupsStep(bs: seq<byte>, n: nat)
    requires bs != []
    ensures Groups(bs) == n <==> bs[0] % 0x80 == n % 0x80 && Groups(bs[1..]) == n / 0x80
    ensures |bs| == 2 ==> Groups(bs[1..]) == bs[1] % 0x80
  {
    if |bs| == 2 {
      assert bs[1..][1..] == [];
    }
  }

  lemma OneByteVarint(n: nat, bs: seq<byte>)
    requires n < 0x80
    ensures bs == [n] <==> IsVarint(bs, n)
  {
    if |bs| == 1 {
      assert bs == [bs[0]] && bs[1..] == [];
      assert Groups(bs) == bs[0] % 0x80;
    } else if IsVarint(bs, n) {
      ContinuesStep(bs);
      GroupsPositive(bs[1..]);
      hide Continues;
    }
  }

  lemma {:induction false} GroupsPositive(bs: seq<byte>)
    requires Continues(bs) && bs[|bs| - 1] != 0
    ensures Groups(bs) > 0
  {
    if |bs| > 1 {
      ContinuesStep(bs);
      GroupsPositive(bs[1..]);
    }
  }

  lemma GroupsOfOne(bs: seq<byte>)
    requires |bs| >= 1
    ensures Groups(bs[..1]) == bs[0] % 0x80 && (Continues(bs[..1]) <==> bs[0] < 0x80)
  {
    assert bs[..1][1..] == [];
  }

  lemma PrefixStep(bs: seq<byte>, w: nat)
    requires 1 < w <= |bs|
    ensures bs[..w][1..] == bs[1..][..w - 1]
    ensures Groups(bs[..w]) == bs[0] % 0x80 + 0x80 * Groups(bs[1..][..w - 1])
    ensures Continues(bs[..w]) <==> bs[0] >= 0x80 && Continues(bs[1..][..w - 1])
  {
    assert bs[..w][1..] == bs[1..][..w - 1];
    ContinuesStep(bs[..w]);
  }

  /** Reading is exact too, once `i` bytes of the varint have been read. */
  lemma {:induction false} UvarintFromExactly(bs: seq<byte>, i: nat, n: nat, w: nat)
    requires i <= 9
    ensures UvarintFrom(bs, i) == Decoded(n, w)
       <==> && 1 <= w <= |bs| && i + w <= 10
            && Continues(bs[..w]) && Groups(bs[..w]) == n
            && (i + w == 10 ==> bs[w - 1] <= 1)
    decreases |bs|
  {
    hide Continues, Groups;
    if bs != [] {
      GroupsOfOne(bs);
      if bs[0] >= 0x80 && i < 9 && 1 < w <= |bs| {
        PrefixStep(bs, w);
        assert bs[1..][w - 2] == bs[w - 1];
        UvarintFromExactly(bs[1..], i + 1, Groups(bs[1..][..w - 1]), w - 1);
        if n >= bs[0] - 0x80 {
          UvarintFromExactly(bs[1..], i + 1, (n - (bs[0] - 0x80)) / 0x80, w - 1);
        }
      } else if 1 < w <= |bs| {
        PrefixStep(bs, w);
      } else if w > 1 {
        UvarintWidth(bs, i);
      }
    }
  }

  lemma UvarintExactly(payload: seq<byte>, n: nat, w: nat)
    ensures Uvarint(payload) == Decoded(n, w) <==> VarintAt(payload, n, w)
  {
    hide UvarintFrom, Continues, Groups;
    UvarintFromExactly(payload, 0, n, w);
  }

  // ---------- magnitudes: the highest byte first ----------

  /** What the bytes stand for behind a number `sofar`. */
  function BigEndian(sofar: nat, bs: seq<byte>): nat
    decreases |bs|
  {
    if bs == [] then sofar else BigEndian(0x100 * sofar + bs[0], bs[1..])
  }

  /** The shortest big-endian bytes of `n`. */
  predicate IsMagnitude(bs: seq<byte>, n: nat) {
    BigEndian(0, bs) == n && (bs != [] ==> bs[0] != 0)
  }

  lemma {:induction false} BigEndianLast(sofar: nat, bs: seq<byte>, b: byte)
    ensures BigEndian(sofar, bs + [b]) == 0x100 * BigEndian(sofar, bs) + b
    decreases |bs|
  {
    if bs == [] {
      assert [b][1..] == [] && [] + [b] == [b];
    } else {
      assert (bs + [b])[1..] == bs[1..] + [b];
      BigEndianLast(0x100 * sofar + bs[0], bs[1..], b);
    }
  }

  lemma {:induction false} FromBEIsBigEndian(bs: seq<byte>)
    ensures FromBE(bs) == BigEndian(0, bs)
  {
    if bs != [] {
      var front, last := bs[..|bs| - 1], bs[|bs| - 1];
      assert bs == front + [last];
      FromBEIsBigEndian(front);
      BigEndianLast(0, front, last);
    }
  }

  lemma {:induction false} LeadPositive(bs: seq<byte>, sofar: nat)
    ensures BigEndian(sofar, bs) >= sofar
    decreases |bs|
  {
    if bs != [] {
      LeadPositive(bs[1..], 0x100 * sofar + bs[0]);
    }
  }

  /** The bytes written for a magnitude are its shortest ones. */
  lemma {:induction false} ToBEExactly(n: nat, bs: seq<byte>)
    ensures bs == ToBE(n) <==> IsMagnitude(bs, n)
    decreases n
  {
    if n == 0 {
      if bs != [] && bs[0] != 0 {
        LeadPositive(bs[1..], bs[0]);
      }
    } else if bs != [] {
      var front, last := bs[..|bs| - 1], bs[|bs| - 1];
      assert bs == front + [last];
      BigEndianLast(0, front, last);
      ToBEExactly(n / 0x100, front);
      assert ToBE(n) == ToBE(n / 0x100) + [n % 0x100];
      hide ToBE, BigEndian;
      assert front == [] || front[0] == bs[0];
      EmptyIsZero();
    }
  }

  lemma EmptyIsZero()
    ensures BigEndian(0, []) == 0 && ToBE(0) == []
  {
  }
}

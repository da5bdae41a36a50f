/**
 A decoder that has lost its place in a compacted row. Behind the column it wants, over zeros, it reads zeros; ahead
 of it, over anything but zeros, it never finds its place again.
 */
module CompactedPositions {
  import opened Bytes
  import opened CompactedColumns
  import opened FieldTypes
  import opened Results
  import opened RowCompacted
  import opened RowLayout
  import opened RowRoundTrip
  import opened Varint

  // ---------- codes made of zeros ----------

  lemma PutUvarintZero(x: nat)
    ensures AllZero(PutUvarint(x)) <==> x == 0
    ensures PutUvarint(x)[0] == 0 <==> x == 0
  {
    var bs := PutUvarint(x);
    assert bs[0] == if x < 128 then x else x % 128 + 128;
    assert x == 0 ==> bs == [0];
  }

  lemma {:induction false} FromLEZero(bs: seq<byte>)
    ensures FromLE(bs) == 0 <==> AllZero(bs)
  {
    if bs != [] {
      FromLEZero(bs[1..]);
      assert AllZero(bs) <==> bs[0] == 0 && AllZero(bs[1..]) by {
        assert bs == [bs[0]] + bs[1..];
      }
    }
  }

  lemma LE64Zero(x: uint64)
    ensures AllZero(LE64(x)) <==> x == 0
  {
    PowerValues();
    FromLEOfLE(x, 8);
    FromLEZero(LE64(x));
    hide LE, FromLE;
  }

  /** Bytes that equal what stands `s` places further on, where in the end there are only zeros, are zeros. */
  lemma {:induction false} ShiftedZero(a: seq<byte>, rest: seq<byte>, s: nat, j: nat)
    requires s > 0 && j < |a| && |rest| >= s
    requires forall i :: 0 <= i < |a| ==> a[i] == (a + rest)[s + i]
    requires AllZero(rest[..s])
    ensures a[j] == 0
    decreases |a| - j
  {
    assert a[j] == (a + rest)[s + j];
    if s + j < |a| {
      ShiftedZero(a, rest, s, s + j);
    } else {
      assert (a + rest)[s + j] == rest[s + j - |a|] == rest[..s][s + j - |a|];
    }
  }

  /** The same when the read begins `s` places on and covers `a` exactly. */
  lemma ReadShiftedZero(a: seq<byte>, rest: seq<byte>, s: nat)
    requires s > 0 && |rest| >= s && (a + rest)[s..][..|a|] == a && AllZero(rest[..s])
    ensures AllZero(a)
  {
    forall i | 0 <= i < |a|
      ensures a[i] == (a + rest)[s + i]
    {
      assert (a + rest)[s..][..|a|][i] == (a + rest)[s + i];
    }
    forall j | 0 <= j < |a|
      ensures a[j] == 0
    {
      ShiftedZero(a, rest, s, j);
    }
  }

  // ---------- ahead ----------

  /** The decoder starts `k` bytes into the code of `c` or behind it, and gets past `c` over zeros. */
  ghost predicate AheadOverZeros(c: Column, rest: seq<byte>, k: nat, w: nat) {
    && Written(c)
    && 0 < k <= |c.code| + |rest|
    && Reads(c, (c.code + rest)[k..], w)
    && (k + w > |c.code| ==> AllZero(rest[..k + w - |c.code|]))
  }

  lemma AheadByte(code: seq<byte>, rest: seq<byte>, k: nat, j: nat)
    requires k + j < |code| + |rest|
    ensures (code + rest)[k..][j] == if k + j < |code| then code[k + j] else rest[k + j - |code|]
  {
  }

  /** Bytes read as they stand, by a decoder that starts `k` bytes too late. */
  lemma AheadVerbatim(code: seq<byte>, rest: seq<byte>, k: nat, w: nat)
    requires 0 < k && |code| <= w && k + w <= |code| + |rest| && (code + rest)[k..][..|code|] == code
    requires AllZero(rest[..k + w - |code|])
    ensures AllZero(code)
  {
    forall i | 0 <= i < k
      ensures rest[..k][i] == 0
    {
      assert rest[..k + w - |code|][i] == rest[i];
    }
    ReadShiftedZero(code, rest, k);
  }

  lemma AheadPlain(c: Column, rest: seq<byte>, k: nat, w: nat)
    requires AheadOverZeros(c, rest, k, w) && (Plain(c.t) || Fine(c.t))
    ensures AllZero(c.code)
  {
    hide Written, Reads, Plain, Fine, AllZero;
    var payload := (c.code + rest)[k..];
    if Plain(c.t) {
      PlainRead(c, payload, w);
    } else {
      FineRead(c, payload, w);
    }
    AheadVerbatim(c.code, rest, k, w);
  }

  lemma AheadFlag(c: Column, rest: seq<byte>, k: nat, w: nat)
    requires AheadOverZeros(c, rest, k, w) && c.t.BoolType?
    ensures AllZero(c.code)
  {
    hide Written, Reads;
    FlagRead(c, (c.code + rest)[k..], w);
    AheadByte(c.code, rest, k, 0);
    assert rest[k - 1] == rest[..k][k - 1];
  }

  /** Past the code of `c` there is a zero, which is read as the varint 0. */
  lemma ZeroVarint(c: Column, rest: seq<byte>, k: nat, w: nat)
    requires AheadOverZeros(c, rest, k, w) && k >= |c.code| && w > 0
    ensures Uvarint((c.code + rest)[k..]) == Decoded(0, 1)
  {
    hide Written, ReadColumn;
    AheadByte(c.code, rest, k, 0);
    assert rest[k - |c.code|] == rest[..k + w - |c.code|][k - |c.code|];
  }

  lemma AheadCounted(c: Column, rest: seq<byte>, k: nat, w: nat)
    requires AheadOverZeros(c, rest, k, w) && Counted(c.t)
    ensures AllZero(c.code)
  {
    var payload := (c.code + rest)[k..];
    var x, y := CountedRead(c, payload, w);
    PutUvarintZero(x);
    UvarintWidth(payload, 0);
    hide UvarintFrom, PutUvarint;
    if k < |c.code| {
      ReadsTail(x, k, rest);
    } else {
      ZeroVarint(c, rest, k, w);
    }
  }

  /** The tail of a varint is a smaller varint. */
  lemma ReadsTail(x: uint64, k: nat, rest: seq<byte>)
    requires 0 < k < |PutUvarint(x)|
    ensures Uvarint((PutUvarint(x) + rest)[k..]).Decoded? && Uvarint((PutUvarint(x) + rest)[k..]).value < x
  {
    var z := ShiftedVarint(x, k);
    UvarintOfPut(z, rest);
    assert (PutUvarint(x) + rest)[k..] == PutUvarint(z) + rest;
  }

  lemma AheadPrefixed(c: Column, rest: seq<byte>, k: nat, w: nat)
    requires AheadOverZeros(c, rest, k, w) && Prefixed(c.t)
    ensures AllZero(c.code)
  {
    hide AllZero, Written, Reads, RawBytes, UvarintFrom, Prefixed, PutUvarint;
    var payload, raw := (c.code + rest)[k..], RawBytes(c);
    var y, p := PrefixedRead(c, payload, w);
    PrefixedCode(c);
    UvarintWidth(payload, 0);
    var prefix := PutUvarint(|raw|);
    if k < |prefix| {
      LengthTail(raw, rest, k);
    } else {
      RawAfterLength(prefix, raw, rest, k, w);
      LengthOverZeros(c, prefix, raw, rest, k, w);
      PutUvarintZero(|raw|);
      assert c.code == prefix;
    }
  }

  /** From the middle of its length on, a byte string seems shorter than it is. */
  lemma LengthTail(raw: seq<byte>, rest: seq<byte>, k: nat)
    requires |raw| < 0x1_0000_0000 && 0 < k < |PutUvarint(|raw|)|
    ensures
      var r := Uvarint(((PutUvarint(|raw|) + raw) + rest)[k..]);
      r.Decoded? && r.value < |raw|
  {
    hide PutUvarint, Uvarint;
    ReadsTail(|raw|, k, raw + rest);
    Reassociate(PutUvarint(|raw|), raw, rest);
  }

  /** Behind its own length, a byte string cannot be read again unless it is zeros. */
  lemma RawAfterLength(prefix: seq<byte>, raw: seq<byte>, rest: seq<byte>, k: nat, w: nat)
    requires |prefix| <= k && k + w <= |prefix| + |raw| + |rest| && w > |raw|
    requires ((prefix + raw) + rest)[k..][w - |raw|..w] == raw
    requires k + w > |prefix| + |raw| && AllZero(rest[..k + w - |prefix| - |raw|])
    ensures AllZero(raw)
  {
    var s := k - |prefix| + w - |raw|;
    assert (raw + rest)[s..][..|raw|] == ((prefix + raw) + rest)[k..][w - |raw|..w];
    ReadShiftedZero(raw, rest, s);
  }

  lemma LengthOverZeros(c: Column, prefix: seq<byte>, raw: seq<byte>, rest: seq<byte>, k: nat, w: nat)
    requires AheadOverZeros(c, rest, k, w) && c.code == prefix + raw && AllZero(raw) && |prefix| <= k
    requires k + w > |c.code| && w > 0
    ensures Uvarint((c.code + rest)[k..]) == Decoded(0, 1)
  {
    AheadByte(c.code, rest, k, 0);
    if k < |c.code| {
      assert c.code[k] == raw[k - |prefix|];
    } else {
      ZeroVarint(c, rest, k, w);
    }
  }

  /** Dropping low bytes of a number makes it smaller. */
  lemma {:induction false} DroppedBytes(bs: seq<byte>, k: nat)
    requires 0 < k <= |bs| && FromLE(bs) > 0
    ensures FromLE(bs[k..]) < FromLE(bs)
  {
    if k > 1 && FromLE(bs[1..]) > 0 {
      DroppedBytes(bs[1..], k - 1);
      assert bs[1..][k - 1..] == bs[k..];
    } else {
      FromLEZero(bs[1..]);
      FromLEZero(bs[k..]);
      if k > 1 {
        assert forall i :: 0 <= i < |bs[k..]| ==> bs[k..][i] == bs[1..][k - 1 + i];
      }
    }
  }

  /** Zeros behind a number's bytes do not count, nor do bytes that are cut off. */
  lemma {:induction false} PaddedLE(a: seq<byte>, b: seq<byte>)
    requires forall i :: 0 <= i < |a| ==> a[i] == if i < |b| then b[i] else 0
    ensures FromLE(a) <= FromLE(b)
  {
    if a != [] {
      if b != [] {
        PaddedLE(a[1..], b[1..]);
      } else {
        FromLEZero(a);
      }
    }
  }

  /** Read as a varint, all but the first bytes of a number give a smaller one. */
  lemma TailOfFixedReadAsVarint(code: seq<byte>, rest: seq<byte>, k: nat, w: nat)
    requires 0 < k <= |code| && k + w <= |code| + |rest| && FromLE(code) > 0
    requires k + w > |code| ==> AllZero(rest[..k + w - |code|])
    ensures FromLE((code + rest)[k..][..w]) < FromLE(code)
  {
    hide FromLE;
    var bs, kept := (code + rest)[k..][..w], code[k..];
    forall i | 0 <= i < w
      ensures bs[i] == if i < |kept| then kept[i] else 0
    {
      AheadByte(code, rest, k, i);
      if k + i >= |code| {
        assert rest[k + i - |code|] == rest[..k + w - |code|][k + i - |code|];
      }
    }
    PaddedLE(bs, kept);
    DroppedBytes(code, k);
  }

  /** The same for the eight bytes of a number. */
  lemma FixedTailSmaller(x: uint64, rest: seq<byte>, k: nat, y: nat, w: nat)
    requires 0 < k <= 8 && k + w <= 8 + |rest| && Uvarint((LE64(x) + rest)[k..]) == Decoded(y, w)
    requires x > 0 && (k + w > 8 ==> AllZero(rest[..k + w - 8]))
    ensures y < x
  {
    hide LE, FromLE, UvarintFrom, Pow256, AllZero;
    var payload := (LE64(x) + rest)[k..];
    PowerValues();
    FromLEOfLE(x, 8);
    TailOfFixedReadAsVarint(LE64(x), rest, k, w);
    UvarintOfPrefix(payload, payload[..w], 0);
    UvarintAtMostLE(payload[..w], 0);
  }

  lemma AheadNarrow(c: Column, rest: seq<byte>, k: nat, w: nat)
    requires AheadOverZeros(c, rest, k, w) && Narrow(c.t)
    ensures AllZero(c.code)
  {
    hide LE, UvarintFrom, Reads, Written, Narrow, AllZero;
    var payload := (c.code + rest)[k..];
    var x := NarrowRead(c, payload, w);
    UvarintWidth(payload, 0);
    LE64Zero(x);
    if k >= 8 {
      ZeroVarint(c, rest, k, w);
    } else if x > 0 {
      FixedTailSmaller(x, rest, k, x, w);
    }
  }

  /** Ahead of its own code and over zeros, the decoder finds nothing but zeros. */
  lemma OverZerosReadsZero(c: Column, rest: seq<byte>, k: nat, w: nat)
    requires AheadOverZeros(c, rest, k, w)
    ensures AllZero(c.code)
  {
    EveryKind(c.t);
    hide Uvarint, AllZero;
    if c.t.BoolType? {
      AheadFlag(c, rest, k, w);
    } else if Plain(c.t) || Fine(c.t) {
      AheadPlain(c, rest, k, w);
    } else if Counted(c.t) {
      AheadCounted(c, rest, k, w);
    } else if Prefixed(c.t) {
      AheadPrefixed(c, rest, k, w);
    } else if Narrow(c.t) {
      AheadNarrow(c, rest, k, w);
    } else {
      NestedUnread(c.t, (c.code + rest)[k..]);
    }
  }

  lemma NestedUnread(t: FieldType, payload: seq<byte>)
    requires Nested(t)
    ensures ReadColumn(t, payload) == Err(NotCompactable)
  {
  }

  lemma LongerNotZero(bs: seq<byte>, i: nat, j: nat)
    requires i <= j <= |bs| && !AllZero(bs[..i])
    ensures !AllZero(bs[..j])
  {
    var n :| 0 <= n < i && bs[..i][n] != 0;
    assert bs[..j][n] != 0;
  }

  lemma NotZeroBehind(code: seq<byte>, rest: seq<byte>, k: nat)
    requires k <= |code| + |rest| && AllZero(code) && !AllZero((code + rest)[..k])
    ensures k > |code| && !AllZero(rest[..k - |code|])
  {
    var n :| 0 <= n < k && (code + rest)[..k][n] != 0;
    assert n >= |code| && rest[..k - |code|][n - |code|] != 0;
  }

  /**
   Once the decoder has run ahead over a byte that is not zero, the rest of the row does not come back, if only zeros
   follow the row: whatever made that byte is still to be found, and only further on.
   */
  lemma {:induction false} NeverRecovers(columns: seq<Column>, k: nat, tail: seq<byte>)
    requires AllWritten(columns) && AllZero(tail) && k <= |Stream(columns)| + |tail|
    requires !AllZero((Stream(columns) + tail)[..k])
    ensures !ReadsBack(columns, (Stream(columns) + tail)[k..])
    decreases |columns|
  {
    hide Written, ReadColumn;
    var whole := Stream(columns) + tail;
    assert k > 0;
    hide AllZero;
    if columns == [] {
      ZerosAhead(tail, k);
    } else {
      var c, rest := columns[0], Stream(columns[1..]) + tail;
      var n := |c.code|;
      assert whole == c.code + rest;
      hide Stream;
      forall w: nat | Reads(c, whole[k..], w)
        ensures !ReadsBack(columns[1..], whole[k..][w..])
      {
        NotZeroFurtherOn(c, rest, k, w);
        assert whole[k..][w..] == rest[k + w - n..];
        NeverRecovers(columns[1..], k + w - n, tail);
      }
    }
  }

  lemma ZerosAhead(tail: seq<byte>, k: nat)
    requires AllZero(tail) && k <= |tail|
    ensures AllZero((Stream([]) + tail)[..k])
  {
    assert Stream([]) + tail == tail;
  }

  lemma NotZeroFurtherOn(c: Column, rest: seq<byte>, k: nat, w: nat)
    requires Written(c) && 0 < k <= |c.code| + |rest| && !(AllZero(c.code) && AllZero((c.code + rest)[..k]))
    requires Reads(c, (c.code + rest)[k..], w)
    ensures |c.code| < k + w <= |c.code| + |rest| && !AllZero(rest[..k + w - |c.code|])
  {
    hide Written, ReadColumn;
    if AllZero(c.code) {
      NotZeroBehind(c.code, rest, k);
      LongerNotZero(rest, k - |c.code|, k + w - |c.code|);
    } else if k + w <= |c.code| || AllZero(rest[..k + w - |c.code|]) {
      OverZerosReadsZero(c, rest, k, w);
    }
  }

  // ---------- behind ----------

  lemma BehindPlain(c: Column, zeros: seq<byte>, rest: seq<byte>, w: nat)
    requires Written(c) && Plain(c.t) && AllZero(zeros) && zeros != []
    requires Reads(c, zeros + (c.code + rest), w)
    ensures AllZero(c.code) && w == |c.code|
  {
    var payload := zeros + (c.code + rest);
    PlainRead(c, payload, w);
    forall j | 0 <= j < |c.code| ensures c.code[j] == 0 {
      BehindByte(zeros, c.code, rest, j);
    }
  }

  lemma {:induction false} BehindByte(zeros: seq<byte>, code: seq<byte>, rest: seq<byte>, j: nat)
    requires AllZero(zeros) && zeros != [] && j < |code|
    requires (zeros + (code + rest))[..|code|] == code
    ensures code[j] == 0
  {
    assert code[j] == (zeros + (code + rest))[j];
    if j >= |zeros| {
      BehindByte(zeros, code, rest, j - |zeros|);
    }
  }

  lemma FineUnread(c: Column, payload: seq<byte>, w: nat)
    requires Fine(c.t) && |payload| >= 2 && payload[0] == 0 && payload[1] == 0
    ensures !Reads(c, payload, w)
  {
    assert VarintSize(payload) == Ok(1) && VarintSize(payload[1..]) == Ok(1);
  }

  /** Over zeros and behind, the decoder reads a column back only if it is written in zeros and not twelve bytes. */
  lemma BehindReadsZero(c: Column, zeros: seq<byte>, rest: seq<byte>, w: nat)
    requires Written(c) && AllZero(zeros) && |zeros| >= 2 && Reads(c, zeros + (c.code + rest), w)
    ensures AllZero(c.code) && (CompactSafe(c.t) || Narrow(c.t)) && w == if Narrow(c.t) then 1 else |c.code|
  {
    var payload := zeros + (c.code + rest);
    EveryKind(c.t);
    assert payload[0] == 0 && payload[1] == 0 && Uvarint(payload) == Decoded(0, 1);
    hide UvarintFrom;
    if c.t.BoolType? {
      FlagRead(c, payload, w);
    } else if Plain(c.t) {
      BehindPlain(c, zeros, rest, w);
    } else if Counted(c.t) {
      var x, y := CountedRead(c, payload, w);
    } else if Prefixed(c.t) {
      var y, p := PrefixedRead(c, payload, w);
      PrefixedCode(c);
    } else if Narrow(c.t) {
      var x := NarrowRead(c, payload, w);
      LE64Zero(x);
    } else if Fine(c.t) {
      FineUnread(c, payload, w);
    } else {
      NestedUnread(c.t, payload);
    }
  }

  lemma ZerosCommute(a: seq<byte>, b: seq<byte>)
    requires AllZero(a) && AllZero(b)
    ensures a + b == b + a && AllZero(a + b)
  {
  }

  /** A column of zeros is found behind zeros, which leaves zeros in front of what follows. */
  lemma ZeroReads(c: Column, zeros: seq<byte>, rest: seq<byte>) returns (w: nat, more: seq<byte>)
    requires Written(c) && AllZero(zeros) && zeros != [] && AllZero(c.code) && (CompactSafe(c.t) || Narrow(c.t))
    ensures Reads(c, zeros + (c.code + rest), w) && w == (if Narrow(c.t) then 1 else |c.code|)
    ensures AllZero(more) && |more| == |zeros| + |c.code| - w >= |zeros|
    ensures (zeros + (c.code + rest))[w..] == more + rest
  {
    var payload := zeros + (c.code + rest);
    hide Reads;
    if Narrow(c.t) {
      NarrowCode(c);
      LE64Zero(U64(Number(c.Kept())));
      assert Uvarint(payload) == Decoded(0, 1);
      NarrowReads(c, payload, 1);
      w, more := 1, zeros[1..] + c.code;
    } else {
      ZerosCommute(zeros, c.code);
      Reassociate(zeros, c.code, rest);
      Reassociate(c.code, zeros, rest);
      SafeReads(c, zeros + rest);
      w, more := |c.code|, zeros;
      assert (c.code + (zeros + rest))[w..] == zeros + rest;
    }
  }

  /** Columns that the decoder also finds behind zeros. */
  predicate ZeroColumns(columns: seq<Column>) {
    forall c :: c in columns ==> (CompactSafe(c.t) || Narrow(c.t)) && AllZero(c.code)
  }

  lemma SplitColumns(columns: seq<Column>)
    requires columns != []
    ensures AllWritten(columns) <==> Written(columns[0]) && AllWritten(columns[1..])
    ensures ZeroColumns(columns)
       <==> (CompactSafe(columns[0].t) || Narrow(columns[0].t)) && AllZero(columns[0].code) && ZeroColumns(columns[1..])
  {
    hide Written, AllZero, CompactSafe, Narrow;
    assert columns == [columns[0]] + columns[1..];
  }

  /** Behind, over two zeros or more, the columns come back if and only if all of them are written in zeros. */
  lemma {:induction false} BehindExactly(columns: seq<Column>, zeros: seq<byte>, tail: seq<byte>)
    requires AllWritten(columns) && AllZero(zeros) && |zeros| >= 2
    ensures ReadsBack(columns, zeros + (Stream(columns) + tail)) <==> ZeroColumns(columns)
    decreases |columns|
  {
    if columns != [] {
      var c, rest := columns[0], Stream(columns[1..]) + tail;
      var payload := zeros + (Stream(columns) + tail);
      SplitColumns(columns);
      Reassociate(c.code, Stream(columns[1..]), tail);
      assert payload == zeros + (c.code + rest);
      hide AllZero, Reads, Written, CompactSafe, Narrow, AllWritten, ZeroColumns, Stream;
      if w: nat :| Reads(c, payload, w) {
        BehindReadsZero(c, zeros, rest, w);
      }
      if AllZero(c.code) && (CompactSafe(c.t) || Narrow(c.t)) {
        var w, more := ZeroReads(c, zeros, rest);
        ReadsBackStep(columns, payload, w);
        BehindExactly(columns[1..], more, tail);
      }
    }
  }
}

/**
 The columns of a compacted row that are not null, one after the other, and what the decoder makes of one column
 wherever in the stream it looks for it.
 */
module CompactedColumns {
  import opened Bytes
  import opened FieldTypes
  import opened Results
  import opened RowCompacted
  import opened RowLayout
  import opened RowRoundTrip
  import opened Varint

  /** A column that is not null, and the bytes written for it. */
  datatype Column = Column(t: FieldType, v: Value, code: seq<byte>) {
    function Kept(): Value {
      Canon(t, v)
    }
  }

  predicate Written(c: Column) {
    EncodeValue(c.t, c.v, false) == Ok(c.code) && PrefixFits(c.t, c.v)
  }

  predicate AllWritten(columns: seq<Column>) {
    forall c :: c in columns ==> Written(c)
  }

  function Stream(columns: seq<Column>): seq<byte> {
    if columns == [] then [] else columns[0].code + Stream(columns[1..])
  }

  /** One step of the decoder: the value at the front of `payload` and the bytes it takes up. */
  function ReadColumn(t: FieldType, payload: seq<byte>): Result<(Value, nat)> {
    var n :- CompactedFieldSize(t, payload);
    if n > |payload| then Err(PayloadTruncated)
    else
      var v :- DecodeValue(t, payload[..n], false);
      Ok((v, n))
  }

  /** The decoder finds the value of `c` in the first `w` bytes of `payload`. */
  ghost predicate Reads(c: Column, payload: seq<byte>, w: nat) {
    w <= |payload| && ReadColumn(c.t, payload) == Ok((c.Kept(), w))
  }

  /** The decoder finds the value of every column, one after the other, from the front of `payload`. */
  ghost predicate ReadsBack(columns: seq<Column>, payload: seq<byte>) {
    columns == []
    || exists w: nat :: Reads(columns[0], payload, w) && ReadsBack(columns[1..], payload[w..])
  }

  lemma ReadsBackStep(columns: seq<Column>, payload: seq<byte>, w: nat)
    requires columns != [] && Reads(columns[0], payload, w)
    ensures ReadsBack(columns, payload) <==> ReadsBack(columns[1..], payload[w..])
  {
    hide ReadColumn;
  }

  // ---------- kinds of columns ----------

  /** Written in eight fixed bytes, read as one varint. */
  predicate Narrow(t: FieldType) {
    match t
    case DecimalType(precision, _) => precision <= 18
    case TimestampNtzType(precision) => precision <= 3
    case TimestampLtzType(precision) => precision <= 3
    case _ => false
  }

  /** Written in twelve fixed bytes, measured as two varints. */
  predicate Fine(t: FieldType) {
    match t
    case TimestampNtzType(precision) => precision > 3
    case TimestampLtzType(precision) => precision > 3
    case _ => false
  }

  /** Written in a varint. */
  predicate Counted(t: FieldType) {
    t in {Int32Type, Int64Type, DateType, TimeType}
  }

  /** Written in fixed bytes and read from them. */
  predicate Plain(t: FieldType) {
    t in {Int8Type, Int16Type, Float32Type, Float64Type}
  }

  /** Written as a varint length and that many bytes. */
  predicate Prefixed(t: FieldType) {
    match t
    case StringType => true
    case BytesType => true
    case DecimalType(precision, _) => precision > 18
    case _ => false
  }

  lemma EveryKind(t: FieldType)
    ensures CompactSafe(t) <==> t.BoolType? || Plain(t) || Counted(t) || Prefixed(t)
    ensures !CompactSafe(t) <==> Narrow(t) || Fine(t) || Nested(t)
  {
  }

  predicate AllZero(bs: seq<byte>) {
    forall i :: 0 <= i < |bs| ==> bs[i] == 0
  }

  // ---------- what a successful read says about the bytes ----------

  lemma FlagRead(c: Column, payload: seq<byte>, w: nat)
    requires Written(c) && c.t.BoolType? && Reads(c, payload, w)
    ensures w == 1 <= |payload| && c.code == [if payload[0] == 0 then 0 else 1]
  {
  }

  lemma PlainRead(c: Column, payload: seq<byte>, w: nat)
    requires Written(c) && Plain(c.t) && Reads(c, payload, w)
    ensures 0 < w == |c.code| <= |payload| && payload[..w] == c.code
  {
    var bs := payload[..w];
    LEOfFromLE(bs);
    hide LE, FromLE;
    match c.t {
      case Int8Type => assert U8(S8(bs[0])) == bs[0];
      case Int16Type => assert bs[..2] == bs;
      case Float32Type => assert bs[..4] == bs;
      case Float64Type => assert bs[..8] == bs;
    }
  }

  lemma CountedRead(c: Column, payload: seq<byte>, w: nat) returns (x: uint64, y: nat)
    requires Written(c) && Counted(c.t) && Reads(c, payload, w)
    ensures c.code == PutUvarint(x) && Uvarint(payload) == Decoded(y, w) && y >= x
  {
    hide UvarintFrom, PutUvarint;
    UvarintOfPrefix(payload, payload[..w], 0);
    y := Uvarint(payload).value;
    x := if c.t.Int64Type? then U64(y) else U32(y);
  }

  lemma NarrowRead(c: Column, payload: seq<byte>, w: nat) returns (x: uint64)
    requires Written(c) && Narrow(c.t) && Reads(c, payload, w)
    ensures c.code == LE64(x) && Uvarint(payload) == Decoded(x, w)
  {
    hide LE, FromLE;
    UvarintOfPrefix(payload, payload[..w], 0);
    UvarintBelow(payload, 0);
    Pow128Values();
    hide UvarintFrom;
    x := Uvarint(payload).value;
    assert U64(S64(x)) == x;
  }

  /** Big-endian bytes are the shortest ones of their number with zeros in front. */
  lemma {:induction false} FromBEPadded(bs: seq<byte>)
    ensures |ToBE(FromBE(bs))| <= |bs| && bs[|bs| - |ToBE(FromBE(bs))|..] == ToBE(FromBE(bs))
  {
    if bs != [] {
      var front, n := bs[..|bs| - 1], FromBE(bs);
      FromBEPadded(front);
      assert n / 256 == FromBE(front) && n % 256 == bs[|bs| - 1];
      if n > 0 {
        var head := ToBE(n / 256);
        assert bs == front + [bs[|bs| - 1]];
        assert bs[|bs| - |ToBE(n)|..] == front[|front| - |head|..] + [bs[|bs| - 1]];
      }
    }
  }

  /** The bytes behind the length of a prefixed column. */
  function RawBytes(c: Column): seq<byte> {
    match c.t
    case StringType => AsString(c.v).GetOr([])
    case BytesType => AsBytes(c.v).GetOr([])
    case DecimalType(_, scale) => ToBE(Abs(AsDecimal(c.v, scale).GetOr(0)))
    case _ => []
  }

  lemma PrefixedCode(c: Column)
    requires Written(c) && Prefixed(c.t)
    ensures |RawBytes(c)| < 0x1_0000_0000 && c.code == PutUvarint(|RawBytes(c)|) + RawBytes(c)
  {
    hide ToBE, PutUvarint;
    var n := |RawBytes(c)|;
    assert c.code == PutUvarint(U32(S32(n))) + RawBytes(c);
    assert U32(S32(n)) == n;
  }

  /** The bytes behind a length, where the size that counts them is the size read. */
  lemma LengthPrefixedSpan(payload: seq<byte>, w: nat) returns (y: nat, p: nat)
    requires LengthPrefixedSize(payload) == Ok(w) && w <= |payload|
    ensures Uvarint(payload) == Decoded(y, p) && p + U32(y) == w
    ensures DecodeLengthPrefixedBytes(payload[..w], false) == Ok(payload[p..w])
  {
    hide UvarintFrom;
    y, p := Uvarint(payload).value, Uvarint(payload).width;
    UvarintOfPrefix(payload, payload[..w], 0);
    assert payload[..w][p..w] == payload[p..w];
  }

  /** The bytes read end in the bytes written; only a wide decimal may have zeros in front. */
  lemma PrefixedKept(c: Column, bs: seq<byte>)
    requires Written(c) && Prefixed(c.t) && DecodeValue(c.t, bs, false) == Ok(c.Kept())
    ensures
      var read, raw := DecodeLengthPrefixedBytes(bs, false), RawBytes(c);
      read.Ok? && |raw| <= |read.value| && read.value[|read.value| - |raw|..] == raw
  {
    hide DecodeLengthPrefixedBytes, EncodeLengthPrefixedBytes, ToBE, FromBE;
    if c.t.DecimalType? {
      FromBEPadded(DecodeLengthPrefixedBytes(bs, false).value);
    }
  }

  /** What is read behind the length ends in the bytes written behind it. */
  lemma PrefixedRead(c: Column, payload: seq<byte>, w: nat) returns (y: nat, p: nat)
    requires Written(c) && Prefixed(c.t) && Reads(c, payload, w)
    ensures Uvarint(payload) == Decoded(y, p) && p + U32(y) == w <= |payload|
    ensures |RawBytes(c)| <= U32(y) && payload[w - |RawBytes(c)|..w] == RawBytes(c)
  {
    hide Written, RawBytes, Uvarint, LengthPrefixedSize, DecodeLengthPrefixedBytes, DecodeValue;
    y, p := LengthPrefixedSpan(payload, w);
    PrefixedKept(c, payload[..w]);
    assert payload[p..w][w - p - |RawBytes(c)|..] == payload[w - |RawBytes(c)|..w];
  }

  function TimestampBytes(v: Value): seq<byte> {
    match v
    case TimestampNtzV(ms, nanos) => EncodeFixed64(ms) + EncodeFixed32(nanos)
    case TimestampLtzV(ms, nanos) => EncodeFixed64(ms) + EncodeFixed32(nanos)
    case _ => []
  }

  lemma FineBytes(c: Column)
    requires Written(c) && Fine(c.t)
    ensures (c.v.TimestampNtzV? || c.v.TimestampLtzV?) && c.Kept() == c.v
    ensures |c.code| == 12 && c.code == TimestampBytes(c.v)
  {
    hide LE;
  }

  lemma FineDecoded(t: FieldType, v: Value, bs: seq<byte>)
    requires Fine(t) && (v.TimestampNtzV? || v.TimestampLtzV?) && DecodeValue(t, bs, false) == Ok(v)
    ensures |bs| >= 12 && v.ms == S64(Get64(bs)) && v.nanos == S32(Get32(bs[8..]))
  {
    hide LE, FromLE, S64, S32;
  }

  lemma TwelveBytes(bs: seq<byte>)
    requires |bs| >= 12
    ensures EncodeFixed64(S64(Get64(bs))) + EncodeFixed32(S32(Get32(bs[8..]))) == bs[..12]
  {
    LEOfFromLE(bs[..8]);
    LEOfFromLE(bs[8..][..4]);
    hide LE, FromLE;
    assert bs[..12] == bs[..8] + bs[8..][..4];
  }

  lemma FineRead(c: Column, payload: seq<byte>, w: nat)
    requires Written(c) && Fine(c.t) && Reads(c, payload, w)
    ensures |c.code| == 12 <= w <= |payload| && payload[..12] == c.code
  {
    var bs := payload[..w];
    FineBytes(c);
    hide Written, Fine, DecodeValue, CompactedFieldSize, Get64, Get32, S64, S32, LE;
    FineDecoded(c.t, c.v, bs);
    TwelveBytes(bs);
    assert bs[..12] == payload[..12];
  }

  // ---------- what is read where the decoder should be ----------

  lemma SafeReads(c: Column, rest: seq<byte>)
    requires Written(c) && CompactSafe(c.t)
    ensures Reads(c, c.code + rest, |c.code|)
  {
    ScalarSelfDelimiting(c.t, c.v, rest);
    hide EncodeScalar, CompactedFieldSize, DecodeScalar, CanonScalar;
    assert (c.code + rest)[..|c.code|] == c.code;
  }

  /** The number a narrow column holds. */
  function Number(v: Value): int {
    match v
    case DecimalV(unscaled, _) => unscaled
    case TimestampNtzV(ms, _) => ms
    case TimestampLtzV(ms, _) => ms
    case _ => 0
  }

  lemma NarrowCode(c: Column)
    requires Written(c) && Narrow(c.t)
    ensures -0x8000_0000_0000_0000 <= Number(c.Kept()) < 0x8000_0000_0000_0000
    ensures c.code == LE64(U64(Number(c.Kept())))
  {
    hide LE;
  }

  /** A narrow column keeps its number and nothing else. */
  lemma NarrowKept(c: Column)
    requires Written(c) && Narrow(c.t)
    ensures
      match c.t
      case DecimalType(_, scale) => c.Kept() == DecimalV(Number(c.Kept()), scale)
      case TimestampNtzType(_) => c.Kept() == TimestampNtzV(Number(c.Kept()), 0)
      case TimestampLtzType(_) => c.Kept() == TimestampLtzV(Number(c.Kept()), 0)
      case _ => true
  {
    hide LE;
  }

  lemma SignedAgain(n: int64)
    ensures S64(U64(n)) == n
  {
  }

  lemma NarrowReads(c: Column, payload: seq<byte>, w: nat)
    requires Written(c) && Narrow(c.t) && Uvarint(payload) == Decoded(U64(Number(c.Kept())), w)
    ensures Reads(c, payload, w)
  {
    hide UvarintFrom, LE, EncodeValue, S64;
    NarrowKept(c);
    UvarintWidth(payload, 0);
    UvarintOfPrefix(payload, payload[..w], 0);
    var n := Number(c.Kept());
    assert S64(U64(n)) == n by {
      NarrowCode(c);
      SignedAgain(n);
    }
  }
}

/**
 What bytes a scalar column is, in both layouts, and what any bytes are read as: internal/codec/row/row.go:457-598,
 798-877, 1031-1107 against an account of the wire that shares nothing with the codec.
 */
module ScalarBytes {
  import opened Bytes
  import opened FieldTypes
  import opened Results
  import opened RowLayout
  import opened RowRoundTrip
  import opened Varint
  import opened WireForms

  // ---------- writing ----------

  /** The integer a Go value holds, whatever its width. */
  function IntegerOf(v: Value): Option<int> {
    match v
    case Int8V(i) => Some(i)
    case Int16V(i) => Some(i)
    case Int32V(i) => Some(i)
    case Int64V(i) => Some(i)
    case IntV(i) => Some(i)
    case _ => None
  }

  /** The columns of 32 and 64 bits do not take the narrower Go integers. */
  predicate WideInteger(v: Value) {
    v.Int32V? || v.Int64V? || v.IntV?
  }

  predicate Counting32(n: int, indexed: bool, bs: seq<byte>) {
    if indexed then bs == Four(n) else IsVarint(bs, n % 0x1_0000_0000)
  }

  predicate Counting64(n: int, indexed: bool, bs: seq<byte>) {
    if indexed then bs == Eight(n) else IsVarint(bs, n % 0x1_0000_0000_0000_0000)
  }

  /** Bytes behind their number, which four bytes or a varint hold modulo 2^32. */
  ghost predicate Prefixing(raw: seq<byte>, indexed: bool, bs: seq<byte>) {
    exists prefix: seq<byte> :: bs == prefix + raw && Counting32(|raw|, indexed, prefix)
  }

  ghost predicate DecimalForm(precision: int, d: int, indexed: bool, bs: seq<byte>) {
    if precision <= 18 then bs == Eight(d)
    else exists raw: seq<byte> :: IsMagnitude(raw, if d < 0 then -d else d) && Prefixing(raw, indexed, bs)
  }

  predicate TimestampForm(precision: int, ms: int, nanos: int, bs: seq<byte>) {
    bs == if precision <= 3 then Eight(ms) else Eight(ms) + Four(nanos)
  }

  /** `bs` is a value `v` in a column of scalar type `t`. */
  ghost predicate ScalarForm(t: FieldType, v: Value, indexed: bool, bs: seq<byte>) {
    match t
    case BoolType => v.BoolV? && bs == [if v.b then 1 else 0]
    case Int8Type => IntegerOf(v).Some? && bs == [IntegerOf(v).value % 0x100]
    case Int16Type => IntegerOf(v).Some? && bs == Two(IntegerOf(v).value)
    case Int32Type => WideInteger(v) && Counting32(IntegerOf(v).value, indexed, bs)
    case DateType => WideInteger(v) && Counting32(IntegerOf(v).value, indexed, bs)
    case TimeType => WideInteger(v) && Counting32(IntegerOf(v).value, indexed, bs)
    case Int64Type => WideInteger(v) && Counting64(IntegerOf(v).value, indexed, bs)
    case Float32Type => v.Float32V? && bs == Four(v.bits32)
    case Float64Type => v.Float64V? && bs == Eight(v.bits64)
    case StringType => (v.StringV? && Prefixing(v.text, indexed, bs)) || (v.BytesV? && Prefixing(v.raw, indexed, bs))
    case BytesType => v.BytesV? && Prefixing(v.raw, indexed, bs)
    case DecimalType(precision, scale) =>
      || (v.DecimalV? && v.scale == scale && DecimalForm(precision, v.unscaled, indexed, bs))
      || (v.BigIntV? && DecimalForm(precision, v.big, indexed, bs))
    case TimestampNtzType(precision) => v.TimestampNtzV? && TimestampForm(precision, v.ms, v.nanos, bs)
    case TimestampLtzType(precision) => v.TimestampLtzV? && TimestampForm(precision, v.ms, v.nanos, bs)
    case _ => false
  }

  lemma Counting32Exactly(n: int, i: int32, indexed: bool, bs: seq<byte>)
    requires i == S32(n)
    ensures (if indexed then EncodeFixed32(i) else EncodeSignedVarint32(i)) == bs <==> Counting32(n, indexed, bs)
  {
    hide LE, LE32, PutUvarint, IsVarint, Four;
    assert U32(i) == U32(n);
    if indexed {
      LEFour(U32(i));
      FourWraps(n);
    } else {
      PutUvarintExactly(U32(n), bs);
    }
  }

  lemma Counting64Exactly(n: int, i: int64, indexed: bool, bs: seq<byte>)
    requires i == S64(n)
    ensures (if indexed then EncodeFixed64(i) else EncodeSignedVarint64(i)) == bs <==> Counting64(n, indexed, bs)
  {
    hide LE, LE64, PutUvarint, IsVarint, Eight;
    assert U64(i) == U64(n);
    if indexed {
      LEEight(U64(i));
      EightWraps(n);
    } else {
      PutUvarintExactly(U64(n), bs);
    }
  }

  lemma PrefixingExactly(raw: seq<byte>, indexed: bool, bs: seq<byte>)
    ensures EncodeLengthPrefixedBytes(raw, indexed) == bs <==> Prefixing(raw, indexed, bs)
  {
    hide Counting32, EncodeFixed32, EncodeSignedVarint32, S32;
    var i := S32(|raw|);
    var prefix := if indexed then EncodeFixed32(i) else EncodeSignedVarint32(i);
    assert U32(i) == U32(|raw|);
    assert EncodeLengthPrefixedBytes(raw, indexed) == prefix + raw by {
      SamePrefix(raw, indexed);
    }
    Counting32Exactly(|raw|, i, indexed, prefix);
    if p: seq<byte> :| bs == p + raw && Counting32(|raw|, indexed, p) {
      Counting32Exactly(|raw|, i, indexed, p);
    }
  }

  lemma SamePrefix(raw: seq<byte>, indexed: bool)
    ensures
      var i := S32(|raw|);
      EncodeLengthPrefixedBytes(raw, indexed) == (if indexed then EncodeFixed32(i) else EncodeSignedVarint32(i)) + raw
  {
    hide LE32, PutUvarint, S32;
    assert U32(S32(|raw|)) == U32(|raw|);
  }

  lemma DecimalExactly(precision: int, d: int, indexed: bool, bs: seq<byte>)
    ensures EncodeDecimal(d, precision, indexed) == bs <==> DecimalForm(precision, d, indexed, bs)
  {
    hide Prefixing, EncodeLengthPrefixedBytes, ToBE, IsMagnitude, Eight, EncodeFixed64, S64;
    if precision <= 18 {
      Counting64Exactly(d, S64(d), true, bs);
    } else {
      ToBEExactly(Abs(d), ToBE(Abs(d)));
      PrefixingExactly(ToBE(Abs(d)), indexed, bs);
      if raw: seq<byte> :| IsMagnitude(raw, Abs(d)) && Prefixing(raw, indexed, bs) {
        ToBEExactly(Abs(d), raw);
      }
    }
  }

  lemma TimestampExactly(ts: (int64, int32), precision: int)
    ensures TimestampForm(precision, ts.0, ts.1, EncodeTimestamp(ts, precision))
  {
    hide LE, LE32, LE64, Four, Eight, U64, U32;
    LEEight(U64(ts.0));
    EightWraps(ts.0);
    LEFour(U32(ts.1));
    FourWraps(ts.1);
  }

  lemma NarrowExactly(n: int, bs: seq<byte>)
    ensures [U8(S8(n))] == [n % 0x100] && LE16(U16(S16(n))) == Two(n)
  {
    hide LE, LE16, Two, S8, S16;
    assert U8(S8(n)) == U8(n) && U16(S16(n)) == U16(n);
    LETwo(U16(n));
    TwoWraps(n);
  }

  /** What the coercions of integers amount to. */
  lemma IntegersTaken(v: Value)
    ensures AsInt8(v) == (if IntegerOf(v).Some? then Ok(S8(IntegerOf(v).value)) else Err(TypeMismatch))
    ensures AsInt16(v) == (if IntegerOf(v).Some? then Ok(S16(IntegerOf(v).value)) else Err(TypeMismatch))
    ensures AsInt32(v) == (if WideInteger(v) then Ok(S32(IntegerOf(v).value)) else Err(TypeMismatch))
    ensures AsInt64(v) == (if WideInteger(v) then Ok(S64(IntegerOf(v).value)) else Err(TypeMismatch))
  {
    hide U8, U16, U32, U64, S8, S16, S32, S64;
  }

  lemma IntegerExactly(t: FieldType, v: Value, indexed: bool, bs: seq<byte>)
    requires t in {Int8Type, Int16Type, Int32Type, Int64Type, DateType, TimeType}
    ensures EncodeScalar(t, v, indexed) == Ok(bs) <==> ScalarForm(t, v, indexed, bs)
  {
    hide Counting32, Counting64, EncodeFixed32, EncodeFixed64, EncodeSignedVarint32, EncodeSignedVarint64, LE16, Two;
    hide U8, U16, U32, U64, S8, S16, S32, S64, AsInt8, AsInt16, AsInt32, AsInt64;
    IntegersTaken(v);
    if IntegerOf(v).Some? {
      var n := IntegerOf(v).value;
      NarrowExactly(n, bs);
      Counting32Exactly(n, S32(n), indexed, bs);
      Counting64Exactly(n, S64(n), indexed, bs);
    }
  }

  lemma OtherScalarExactly(t: FieldType, v: Value, indexed: bool, bs: seq<byte>)
    requires !Nested(t) && t !in {Int8Type, Int16Type, Int32Type, Int64Type, DateType, TimeType}
    ensures EncodeScalar(t, v, indexed) == Ok(bs) <==> ScalarForm(t, v, indexed, bs)
  {
    hide Prefixing, DecimalForm, TimestampForm, EncodeLengthPrefixedBytes, EncodeDecimal, EncodeTimestamp, LE, Four, Eight;
    match t {
      case StringType =>
        if v.StringV? { PrefixingExactly(v.text, indexed, bs); }
        if v.BytesV? { PrefixingExactly(v.raw, indexed, bs); }
      case BytesType => if v.BytesV? { PrefixingExactly(v.raw, indexed, bs); }
      case DecimalType(precision, scale) =>
        if v.DecimalV? { DecimalExactly(precision, v.unscaled, indexed, bs); }
        if v.BigIntV? { DecimalExactly(precision, v.big, indexed, bs); }
      case TimestampNtzType(precision) => TimestampColumn(t, v, indexed, bs);
      case TimestampLtzType(precision) => TimestampColumn(t, v, indexed, bs);
      case Float32Type => if v.Float32V? { LEFour(v.bits32); }
      case Float64Type => if v.Float64V? { LEEight(v.bits64); }
      case BoolType =>
    }
  }

  lemma TimestampColumn(t: FieldType, v: Value, indexed: bool, bs: seq<byte>)
    requires t.TimestampNtzType? || t.TimestampLtzType?
    ensures EncodeScalar(t, v, indexed) == Ok(bs) <==> ScalarForm(t, v, indexed, bs)
  {
    hide EncodeTimestamp, Eight, Four;
    if v.TimestampNtzV? || v.TimestampLtzV? {
      TimestampExactly((v.ms, v.nanos), t.precision);
    }
  }

  /** A scalar column is encoded as `bs` if and only if those are its bytes on the wire. */
  lemma ScalarBytesExactly(t: FieldType, v: Value, indexed: bool, bs: seq<byte>)
    requires !Nested(t)
    ensures EncodeScalar(t, v, indexed) == Ok(bs) <==> ScalarForm(t, v, indexed, bs)
  {
    hide EncodeScalar, ScalarForm;
    if t in {Int8Type, Int16Type, Int32Type, Int64Type, DateType, TimeType} {
      IntegerExactly(t, v, indexed, bs);
    } else {
      OtherScalarExactly(t, v, indexed, bs);
    }
  }

  /** A value that is not encoded is of the wrong kind, or a decimal of another scale. */
  lemma ScalarRefused(t: FieldType, v: Value, indexed: bool)
    requires !Nested(t) && EncodeScalar(t, v, indexed).Err?
    ensures EncodeScalar(t, v, indexed).error
         == if t.DecimalType? && v.DecimalV? then ScaleMismatch else TypeMismatch
    ensures t.DecimalType? && v.DecimalV? ==> v.scale != t.scale
  {
    hide LE, PutUvarint, ToBE, S8, S16, S32, S64;
  }

  // ---------- reading ----------

  ghost predicate Read32(n: int32, payload: seq<byte>, indexed: bool) {
    if indexed then |payload| >= 4 && Four(n) == payload[..4]
    else exists x: nat, w: nat :: VarintAt(payload, x, w) && n % 0x1_0000_0000 == x % 0x1_0000_0000
  }

  ghost predicate Read64(n: int64, payload: seq<byte>, indexed: bool) {
    if indexed then |payload| >= 8 && Eight(n) == payload[..8]
    else exists x: nat, w: nat :: VarintAt(payload, x, w) && n % 0x1_0000_0000_0000_0000 == x
  }

  /** The bytes behind a length: in the indexed layout all there are, whatever the length says. */
  ghost predicate RawRead(raw: seq<byte>, payload: seq<byte>, indexed: bool) {
    if indexed then |payload| >= 4 && raw == payload[4..]
    else
      exists x: nat, w: nat :: VarintAt(payload, x, w) && w + x % 0x1_0000_0000 <= |payload|
                     && raw == payload[w..w + x % 0x1_0000_0000]
  }

  ghost predicate DecimalRead(precision: int, d: int, payload: seq<byte>, indexed: bool) {
    if precision <= 18 then
      -0x8000_0000_0000_0000 <= d < 0x8000_0000_0000_0000 && Read64(d, payload, indexed)
    else exists raw: seq<byte> :: RawRead(raw, payload, indexed) && BigEndian(0, raw) == d
  }

  ghost predicate TimestampRead(precision: int, ms: int64, nanos: int32, payload: seq<byte>, indexed: bool) {
    if precision <= 3 then nanos == 0 && Read64(ms, payload, indexed)
    else |payload| >= 12 && Eight(ms) == payload[..8] && Four(nanos) == payload[8..12]
  }

  /** `v` is what a column of scalar type `t` gives for any bytes. */
  ghost predicate ScalarRead(t: FieldType, payload: seq<byte>, indexed: bool, v: Value) {
    match t
    case BoolType => v == BoolV(payload != [] && payload[0] != 0)
    case Int8Type => payload != [] && v.Int8V? && v.i8 % 0x100 == payload[0]
    case Int16Type => |payload| >= 2 && v.Int16V? && Two(v.i16) == payload[..2]
    case Int32Type => v.Int32V? && Read32(v.i32, payload, indexed)
    case DateType => v.Int32V? && Read32(v.i32, payload, indexed)
    case TimeType => v.Int32V? && Read32(v.i32, payload, indexed)
    case Int64Type => v.Int64V? && Read64(v.i64, payload, indexed)
    case Float32Type => |payload| >= 4 && v.Float32V? && Four(v.bits32) == payload[..4]
    case Float64Type => |payload| >= 8 && v.Float64V? && Eight(v.bits64) == payload[..8]
    case StringType => v.StringV? && RawRead(v.text, payload, indexed)
    case BytesType => v.BytesV? && RawRead(v.raw, payload, indexed)
    case DecimalType(precision, scale) =>
      v.DecimalV? && v.scale == scale && DecimalRead(precision, v.unscaled, payload, indexed)
    case TimestampNtzType(precision) =>
      v.TimestampNtzV? && TimestampRead(precision, v.ms, v.nanos, payload, indexed)
    case TimestampLtzType(precision) =>
      v.TimestampLtzV? && TimestampRead(precision, v.ms, v.nanos, payload, indexed)
    case _ => false
  }

  lemma Read32Exactly(n: int32, payload: seq<byte>, indexed: bool)
    ensures DecodeInt32(payload, indexed) == Ok(n) <==> Read32(n, payload, indexed)
  {
    hide UvarintFrom, Uvarint, VarintAt, Get32, Four, S32;
    if indexed {
      if |payload| >= 4 {
        SignedFour(payload, n);
      }
    } else {
      var r := Uvarint(payload);
      if r.Decoded? {
        UvarintExactly(payload, r.value, r.width);
        SameSigned32(n, r.value);
      }
      forall x: nat, w: nat | VarintAt(payload, x, w) ensures r == Decoded(x, w) {
        UvarintExactly(payload, x, w);
      }
    }
  }

  lemma SameSigned32(n: int32, x: nat)
    ensures S32(x) == n <==> n % 0x1_0000_0000 == x % 0x1_0000_0000
  {
  }

  lemma SameSigned64(n: int64, x: uint64)
    ensures S64(x) == n <==> n % 0x1_0000_0000_0000_0000 == x
  {
  }

  lemma Read64Exactly(n: int64, payload: seq<byte>, indexed: bool)
    ensures DecodeInt64(payload, indexed) == Ok(n) <==> Read64(n, payload, indexed)
  {
    hide UvarintFrom, Uvarint, VarintAt, Get64, Eight, S64;
    if indexed {
      if |payload| >= 8 {
        SignedEight(payload, n);
      }
    } else {
      var r := Uvarint(payload);
      if r.Decoded? {
        UvarintExactly(payload, r.value, r.width);
        ReadBelow(payload);
        SameSigned64(n, r.value);
      }
      forall x: nat, w: nat | VarintAt(payload, x, w) ensures r == Decoded(x, w) {
        UvarintExactly(payload, x, w);
      }
    }
  }

  lemma ReadBelow(payload: seq<byte>)
    ensures Uvarint(payload).Decoded? ==> Uvarint(payload).value < 0x1_0000_0000_0000_0000
  {
    hide UvarintFrom;
    UvarintBelow(payload, 0);
    Pow128Values();
  }

  lemma RawReadExactly(raw: seq<byte>, payload: seq<byte>, indexed: bool)
    ensures DecodeLengthPrefixedBytes(payload, indexed) == Ok(raw) <==> RawRead(raw, payload, indexed)
  {
    hide UvarintFrom, Uvarint, VarintAt;
    if !indexed {
      var r := Uvarint(payload);
      if r.Decoded? {
        UvarintExactly(payload, r.value, r.width);
      }
      forall x: nat, w: nat | VarintAt(payload, x, w) ensures r == Decoded(x, w) {
        UvarintExactly(payload, x, w);
      }
    }
  }

  lemma DecimalReadExactly(precision: int, d: int, payload: seq<byte>, indexed: bool)
    ensures DecodeDecimal(precision, payload, indexed) == Ok(d) <==> DecimalRead(precision, d, payload, indexed)
  {
    hide DecodeInt64, DecodeLengthPrefixedBytes, Read64, RawRead, FromBE, BigEndian;
    if precision <= 18 {
      if -0x8000_0000_0000_0000 <= d < 0x8000_0000_0000_0000 {
        Read64Exactly(d, payload, indexed);
      }
    } else {
      forall raw: seq<byte>
        ensures DecodeLengthPrefixedBytes(payload, indexed) == Ok(raw) <==> RawRead(raw, payload, indexed)
      {
        RawReadExactly(raw, payload, indexed);
      }
      var r := DecodeLengthPrefixedBytes(payload, indexed);
      if r.Ok? {
        assert RawRead(r.value, payload, indexed);
        FromBEIsBigEndian(r.value);
      }
    }
  }

  lemma TimestampReadExactly(precision: int, ms: int64, nanos: int32, payload: seq<byte>, indexed: bool)
    ensures DecodeTimestamp(precision, payload, indexed) == Ok((ms, nanos))
       <==> TimestampRead(precision, ms, nanos, payload, indexed)
  {
    hide DecodeInt64, Read64, Get32, Get64, Four, Eight, S32, S64;
    if precision <= 3 {
      Read64Exactly(ms, payload, indexed);
    } else if |payload| >= 12 {
      SignedEight(payload, ms);
      SignedFour(payload[8..], nanos);
      assert payload[8..][..4] == payload[8..12];
    }
  }

  lemma SignedByte(payload: seq<byte>, i: int8)
    ensures payload != [] ==> (S8(payload[0]) == i <==> i % 0x100 == payload[0])
  {
  }

  lemma CountedReadExactly(t: FieldType, payload: seq<byte>, indexed: bool, v: Value)
    requires t in {Int32Type, Int64Type, DateType, TimeType}
    ensures DecodeScalar(t, payload, indexed) == Ok(v) <==> ScalarRead(t, payload, indexed, v)
  {
    hide DecodeInt32, DecodeInt64, Read32, Read64;
    if v.Int32V? {
      Read32Exactly(v.i32, payload, indexed);
    } else if v.Int64V? {
      Read64Exactly(v.i64, payload, indexed);
    }
  }

  lemma PlainReadExactly(t: FieldType, payload: seq<byte>, indexed: bool, v: Value)
    requires t in {BoolType, Int8Type, Int16Type, Float32Type, Float64Type}
    ensures DecodeScalar(t, payload, indexed) == Ok(v) <==> ScalarRead(t, payload, indexed, v)
  {
    hide Get16, Get32, Get64, Two, Four, Eight, S8, S16;
    if v.Int8V? {
      SignedByte(payload, v.i8);
    } else if v.Int16V? && |payload| >= 2 {
      SignedTwo(payload, v.i16);
    } else if v.Float32V? && |payload| >= 4 {
      UnsignedFour(payload, v.bits32);
    } else if v.Float64V? && |payload| >= 8 {
      UnsignedEight(payload, v.bits64);
    }
  }

  lemma TextReadExactly(t: FieldType, payload: seq<byte>, indexed: bool, v: Value)
    requires t.StringType? || t.BytesType?
    ensures DecodeScalar(t, payload, indexed) == Ok(v) <==> ScalarRead(t, payload, indexed, v)
  {
    hide DecodeLengthPrefixedBytes, RawRead;
    if v.StringV? {
      RawReadExactly(v.text, payload, indexed);
    } else if v.BytesV? {
      RawReadExactly(v.raw, payload, indexed);
    }
  }

  lemma DecimalColumnRead(t: FieldType, payload: seq<byte>, indexed: bool, v: Value)
    requires t.DecimalType?
    ensures DecodeScalar(t, payload, indexed) == Ok(v) <==> ScalarRead(t, payload, indexed, v)
  {
    hide DecodeDecimal, DecimalRead;
    if v.DecimalV? {
      DecimalReadExactly(t.precision, v.unscaled, payload, indexed);
    }
  }

  lemma TimestampColumnRead(t: FieldType, payload: seq<byte>, indexed: bool, v: Value)
    requires t.TimestampNtzType? || t.TimestampLtzType?
    ensures DecodeScalar(t, payload, indexed) == Ok(v) <==> ScalarRead(t, payload, indexed, v)
  {
    hide DecodeTimestamp, TimestampRead;
    if v.TimestampNtzV? || v.TimestampLtzV? {
      TimestampReadExactly(t.precision, v.ms, v.nanos, payload, indexed);
    }
  }

  /** Any bytes whatever are read as `v` if and only if the wire says so. */
  lemma ScalarReadExactly(t: FieldType, payload: seq<byte>, indexed: bool, v: Value)
    requires !Nested(t)
    ensures DecodeScalar(t, payload, indexed) == Ok(v) <==> ScalarRead(t, payload, indexed, v)
  {
    hide DecodeScalar, ScalarRead;
    if t.StringType? || t.BytesType? {
      TextReadExactly(t, payload, indexed, v);
    } else if t.DecimalType? {
      DecimalColumnRead(t, payload, indexed, v);
    } else if t.TimestampNtzType? || t.TimestampLtzType? {
      TimestampColumnRead(t, payload, indexed, v);
    } else if t in {Int32Type, Int64Type, DateType, TimeType} {
      CountedReadExactly(t, payload, indexed, v);
    } else {
      PlainReadExactly(t, payload, indexed, v);
    }
  }

  // ---------- widths of compacted fields ----------

  ghost predicate VarintWidth(payload: seq<byte>, n: nat) {
    exists x: nat :: VarintAt(payload, x, n)
  }

  /** `n` is the number of bytes a compacted column takes up at the front of any payload. */
  ghost predicate WidthRead(t: FieldType, payload: seq<byte>, n: nat) {
    match t
    case BoolType => n == 1
    case Int8Type => n == 1
    case Int16Type => n == 2
    case Float32Type => n == 4
    case Float64Type => n == 8
    case StringType => PrefixedWidth(payload, n)
    case BytesType => PrefixedWidth(payload, n)
    case DecimalType(precision, _) =>
      if precision <= 18 then VarintWidth(payload, n) else PrefixedWidth(payload, n)
    case TimestampNtzType(precision) => TimestampWidth(precision, payload, n)
    case TimestampLtzType(precision) => TimestampWidth(precision, payload, n)
    case _ => !Nested(t) && VarintWidth(payload, n)
  }

  ghost predicate TimestampWidth(precision: int, payload: seq<byte>, n: nat) {
    if precision <= 3 then VarintWidth(payload, n)
    else exists w: nat :: w <= n && VarintWidth(payload, w) && VarintWidth(payload[w..], n - w)
  }

  lemma VarintWidthExactly(payload: seq<byte>, n: nat)
    ensures VarintSize(payload) == Ok(n) <==> VarintWidth(payload, n)
  {
    hide UvarintFrom, Uvarint, VarintAt;
    var r := Uvarint(payload);
    if r.Decoded? {
      UvarintExactly(payload, r.value, r.width);
    }
    forall x: nat | VarintAt(payload, x, n) ensures r == Decoded(x, n) {
      UvarintExactly(payload, x, n);
    }
  }

  ghost predicate PrefixedWidth(payload: seq<byte>, n: nat) {
    exists x: nat, w: nat :: VarintAt(payload, x, w) && n == w + x % 0x1_0000_0000
  }

  lemma PrefixedWidthExactly(payload: seq<byte>, n: nat)
    ensures LengthPrefixedSize(payload) == Ok(n) <==> PrefixedWidth(payload, n)
  {
    hide UvarintFrom, Uvarint, VarintAt;
    var r := Uvarint(payload);
    if r.Decoded? {
      UvarintExactly(payload, r.value, r.width);
    }
    forall x: nat, w: nat | VarintAt(payload, x, w) ensures r == Decoded(x, w) {
      UvarintExactly(payload, x, w);
    }
  }

  lemma TimestampWidthExactly(precision: int, payload: seq<byte>, n: nat)
    ensures TimestampSize(precision, payload) == Ok(n) <==> TimestampWidth(precision, payload, n)
  {
    hide VarintSize, VarintWidth;
    var first := VarintSize(payload);
    VarintWidthExactly(payload, n);
    if first.Ok? && precision > 3 {
      VarintWidthExactly(payload, first.value);
      if first.value <= n {
        VarintWidthExactly(payload[first.value..], n - first.value);
      }
    }
    forall w: nat | VarintWidth(payload, w) ensures first == Ok(w) {
      VarintWidthExactly(payload, w);
    }
  }

  /** compactedFieldSize answers `n` if and only if that is the width on the wire. */
  lemma WidthReadExactly(t: FieldType, payload: seq<byte>, n: nat)
    ensures CompactedFieldSize(t, payload) == Ok(n) <==> WidthRead(t, payload, n)
  {
    hide VarintSize, VarintWidth, LengthPrefixedSize, PrefixedWidth, TimestampSize, TimestampWidth;
    VarintWidthExactly(payload, n);
    PrefixedWidthExactly(payload, n);
    if t.TimestampNtzType? || t.TimestampLtzType? {
      TimestampWidthExactly(t.precision, payload, n);
    }
  }
}

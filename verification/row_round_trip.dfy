/**
 The indexed layout loses nothing but what its column types cannot hold: decoding any row the encoder accepted
 gives the row's canonical form, and that is the row itself exactly when every value fits its column.
 */
module RowRoundTrip {
  import opened Bytes
  import opened FieldTypes
  import opened Results
  import opened RowBitmap
  import opened RowLayout

  // ---------- what survives a round trip ----------

  /** The value a scalar column of type `t` gives back for `v`. */
  function CanonScalar(t: FieldType, v: Value): Value {
    match t
    case Int8Type => (match AsInt8(v) case Ok(i) => Int8V(i) case _ => v)
    case Int16Type => (match AsInt16(v) case Ok(i) => Int16V(i) case _ => v)
    case Int32Type => (match AsInt32(v) case Ok(i) => Int32V(i) case _ => v)
    case DateType => (match AsInt32(v) case Ok(i) => Int32V(i) case _ => v)
    case TimeType => (match AsInt32(v) case Ok(i) => Int32V(i) case _ => v)
    case Int64Type => (match AsInt64(v) case Ok(i) => Int64V(i) case _ => v)
    case StringType => (match AsString(v) case Ok(raw) => StringV(raw) case _ => v)
    case DecimalType(precision, scale) =>
      (match AsDecimal(v, scale) case Ok(d) => DecimalV(CanonDecimal(d, precision), scale) case _ => v)
    case TimestampNtzType(precision) =>
      (match v case TimestampNtzV(ms, nanos) => TimestampNtzV(ms, CanonNanos(nanos, precision)) case _ => v)
    case TimestampLtzType(precision) =>
      (match v case TimestampLtzV(ms, nanos) => TimestampLtzV(ms, CanonNanos(nanos, precision)) case _ => v)
    case _ => v
  }

  /** The value a column of type `t` gives back for `v`. */
  function Canon(t: FieldType, v: Value): Value
    decreases t, 1, 0
  {
    match t
    case ArrayType(element) => (match v case ListV(items) => ListV(CanonItems(element, items)) case _ => v)
    case MapType(key, val) =>
      (match v case MapV(entries) => MapV(PutAll([], CanonEntries(key, val, entries))) case _ => v)
    case RowType(fields) =>
      (match v case ListV(items) => ListV(if |items| == |fields| then CanonRow(fields, items) else items) case _ => v)
    case _ => CanonScalar(t, v)
  }

  /** A narrow decimal keeps the low 64 bits of its unscaled value, a wide one only the magnitude. */
  function CanonDecimal(unscaled: int, precision: int): int {
    if precision <= 18 then S64(unscaled) else Abs(unscaled)
  }

  function CanonNanos(nanos: int32, precision: int): int32 {
    if precision <= 3 then 0 else nanos
  }

  function CanonGeneric(t: FieldType, v: Value): Value
    decreases t, 2, 0
  {
    if v.Nil? then Nil else Canon(t, v)
  }

  function CanonItems(t: FieldType, items: seq<Value>): (r: seq<Value>)
    ensures |r| == |items|
    decreases t, 3, |items|
  {
    if items == [] then [] else [CanonGeneric(t, items[0])] + CanonItems(t, items[1..])
  }

  function CanonEntries(key: FieldType, val: FieldType, entries: seq<Entry>): (r: seq<Entry>)
    ensures |r| == |entries|
    decreases MapType(key, val), 0, |entries|
  {
    if entries == [] then []
    else
      [Entry(CanonGeneric(key, entries[0].key), CanonGeneric(val, entries[0].val))]
      + CanonEntries(key, val, entries[1..])
  }

  function CanonRow(fields: seq<FieldType>, values: seq<Value>): (r: seq<Value>)
    requires |values| == |fields|
    ensures |r| == |fields|
    decreases fields, 0, 0
  {
    if fields == [] then [] else [CanonGeneric(fields[0], values[0])] + CanonRow(fields[1..], values[1..])
  }

  // ---------- the domain ----------

  /** Map keys are of a kind Go can hash once decoded. */
  predicate KeysHashable(t: FieldType)
    decreases t, 0
  {
    match t
    case ArrayType(element) => KeysHashable(element)
    case MapType(key, val) =>
      !key.BytesType? && !key.ArrayType? && !key.MapType? && !key.RowType? && KeysHashable(val)
    case RowType(fields) => RowKeysHashable(fields)
    case _ => true
  }

  predicate RowKeysHashable(fields: seq<FieldType>)
    decreases fields, 0
  {
    forall i :: 0 <= i < |fields| ==> KeysHashable(fields[i])
  }

  /** `bs` is shorter than 2^32, so that its length survives the four bytes it is written in. */
  predicate Short(r: Result<seq<byte>>) {
    r.Ok? && |r.value| < 0x1_0000_0000
  }

  /** Every length the encoder writes down for `v` is below 2^32. */
  predicate LengthsFit(t: FieldType, v: Value)
    decreases t, 1, 0
  {
    match t
    case ArrayType(element) => v.ListV? ==> |v.items| < 0x1_0000_0000 && ItemsFit(element, v.items)
    case MapType(key, val) => v.MapV? ==> |v.entries| < 0x1_0000_0000 && EntriesFit(key, val, v.entries)
    case RowType(fields) => v.ListV? && |v.items| == |fields| ==> RowFits(fields, v.items)
    case _ => true
  }

  predicate GenericFits(t: FieldType, v: Value)
    decreases t, 2, 0
  {
    Short(EncodeGeneric(t, v)) && LengthsFit(t, v)
  }

  predicate ItemsFit(t: FieldType, items: seq<Value>)
    decreases t, 3, 0
  {
    forall i :: 0 <= i < |items| ==> GenericFits(t, items[i])
  }

  predicate EntriesFit(key: FieldType, val: FieldType, entries: seq<Entry>)
    decreases MapType(key, val), 0, 0
  {
    forall i :: 0 <= i < |entries| ==> GenericFits(key, entries[i].key) && GenericFits(val, entries[i].val)
  }

  predicate RowFits(fields: seq<FieldType>, values: seq<Value>)
    requires |values| == |fields|
    decreases fields, 0, 0
  {
    forall i :: 0 <= i < |fields| && !values[i].Nil? ==>
      LengthsFit(fields[i], values[i]) && (!IsFixed(fields[i]) ==> Short(EncodeValue(fields[i], values[i], true)))
  }

  // ---------- scalars ----------

  predicate Nested(t: FieldType) {
    t.ArrayType? || t.MapType? || t.RowType?
  }

  lemma Fixed32RoundTrip(n: int32, tail: seq<byte>)
    ensures DecodeInt32(EncodeFixed32(n) + tail, true) == Ok(n)
  {
    Get32OfLE32(U32(n), tail);
  }

  lemma Fixed64RoundTrip(n: int64, tail: seq<byte>)
    ensures DecodeInt64(EncodeFixed64(n) + tail, true) == Ok(n)
    ensures S64(Get64(EncodeFixed64(n) + tail)) == n
  {
    assert S64(U64(n)) == n;
    Get64OfLE64(U64(n), tail);
  }

  lemma TimestampRoundTrip(ts: (int64, int32), precision: int)
    ensures DecodeTimestamp(precision, EncodeTimestamp(ts, precision), true) == Ok((ts.0, CanonNanos(ts.1, precision)))
  {
    var bs := EncodeTimestamp(ts, precision);
    if precision <= 3 {
      Fixed64RoundTrip(ts.0, []);
      assert bs + [] == bs;
    } else {
      Fixed64RoundTrip(ts.0, EncodeFixed32(ts.1));
      Fixed32RoundTrip(ts.1, []);
      assert bs[8..] == EncodeFixed32(ts.1) == EncodeFixed32(ts.1) + [];
    }
  }

  lemma DecimalRoundTrip(unscaled: int, precision: int)
    ensures DecodeDecimal(precision, EncodeDecimal(unscaled, precision, true), true)
         == Ok(CanonDecimal(unscaled, precision))
  {
    var bs := EncodeDecimal(unscaled, precision, true);
    if precision <= 18 {
      Fixed64RoundTrip(S64(unscaled), []);
      assert bs + [] == bs;
    } else {
      assert bs[4..] == ToBE(Abs(unscaled));
      FromBEOfToBE(Abs(unscaled));
    }
  }

  /** The indexed layout gives back the canonical value of a scalar, and fixed-width ones have their width. */
  ghost predicate ScalarSurvives(t: FieldType, v: Value) {
    var r := EncodeScalar(t, v, true);
    r.Ok? && DecodeScalar(t, r.value, true) == Ok(CanonScalar(t, v)) && (IsFixed(t) ==> |r.value| == FixedSize(t))
  }

  lemma Int16RoundTrip(v: Value)
    requires AsInt16(v).Ok?
    ensures ScalarSurvives(Int16Type, v)
  {
    hide LE, FromLE;
    var n, bs := AsInt16(v).value, LE16(U16(AsInt16(v).value));
    Get16OfLE16(U16(n), []);
    assert bs + [] == bs;
  }

  lemma Int32RoundTrip(t: FieldType, v: Value)
    requires AsInt32(v).Ok? && (t.Int32Type? || t.DateType? || t.TimeType?)
    ensures ScalarSurvives(t, v)
  {
    hide LE, FromLE, LE32, S32;
    var bs := EncodeFixed32(AsInt32(v).value);
    Fixed32RoundTrip(AsInt32(v).value, []);
    assert bs + [] == bs;
  }

  lemma Int64RoundTrip(v: Value)
    requires AsInt64(v).Ok?
    ensures ScalarSurvives(Int64Type, v)
  {
    hide LE, FromLE, LE64, S64;
    var bs := EncodeFixed64(AsInt64(v).value);
    Fixed64RoundTrip(AsInt64(v).value, []);
    assert bs + [] == bs;
  }

  lemma FloatRoundTrip(bits32: uint32, bits64: uint64)
    ensures ScalarSurvives(Float32Type, Float32V(bits32)) && ScalarSurvives(Float64Type, Float64V(bits64))
  {
    Get32OfLE32(bits32, []);
    Get64OfLE64(bits64, []);
    assert LE32(bits32) + [] == LE32(bits32) && LE64(bits64) + [] == LE64(bits64);
  }

  lemma BytesRoundTrip(t: FieldType, v: Value)
    requires t.StringType? || t.BytesType?
    requires EncodeScalar(t, v, true).Ok?
    ensures ScalarSurvives(t, v)
  {
    var raw := AsString(v).value;
    assert EncodeLengthPrefixedBytes(raw, true)[4..] == raw;
  }

  lemma DecimalValueRoundTrip(precision: int, scale: int, v: Value)
    requires Valid(DecimalType(precision, scale)) && AsDecimal(v, scale).Ok?
    ensures ScalarSurvives(DecimalType(precision, scale), v)
  {
    DecimalRoundTrip(AsDecimal(v, scale).value, precision);
  }

  lemma TimestampNtzValueRoundTrip(precision: int, ms: int64, nanos: int32)
    ensures ScalarSurvives(TimestampNtzType(precision), TimestampNtzV(ms, nanos))
    ensures ScalarSurvives(TimestampLtzType(precision), TimestampLtzV(ms, nanos))
  {
    hide EncodeTimestamp, DecodeTimestamp, CanonNanos;
    TimestampRoundTrip((ms, nanos), precision);
    hide LE;
    assert precision <= 3 ==> |EncodeTimestamp((ms, nanos), precision)| == 8 by {
      NarrowTimestampWidth((ms, nanos), precision);
    }
  }

  lemma NarrowTimestampWidth(ts: (int64, int32), precision: int)
    ensures precision <= 3 ==> |EncodeTimestamp(ts, precision)| == 8
  {
    hide LE;
  }

  lemma ScalarRoundTrip(t: FieldType, v: Value)
    requires Valid(t) && !Nested(t) && EncodeScalar(t, v, true).Ok?
    ensures ScalarSurvives(t, v)
  {
    hide Valid, LE, FromLE, ToBE, FromBE, LE16, LE32, LE64, EncodeTimestamp, EncodeDecimal, EncodeLengthPrefixedBytes;
    hide DecodeTimestamp, DecodeDecimal, DecodeLengthPrefixedBytes, CanonDecimal, CanonNanos;
    match t {
      case BoolType =>
      case Int8Type =>
      case Int16Type => Int16RoundTrip(v);
      case Int32Type => Int32RoundTrip(t, v);
      case DateType => Int32RoundTrip(t, v);
      case TimeType => Int32RoundTrip(t, v);
      case Int64Type => Int64RoundTrip(v);
      case Float32Type => FloatRoundTrip(v.bits32, 0);
      case Float64Type => FloatRoundTrip(0, v.bits64);
      case StringType => BytesRoundTrip(t, v);
      case BytesType => BytesRoundTrip(t, v);
      case DecimalType(precision, scale) => DecimalValueRoundTrip(precision, scale, v);
      case TimestampNtzType(precision) => TimestampNtzValueRoundTrip(precision, v.ms, v.nanos);
      case TimestampLtzType(precision) => TimestampNtzValueRoundTrip(precision, v.ms, v.nanos);
    }
  }

  // ---------- nested values, by mutual induction over the type ----------

  /** Decoding an encoded value gives its canonical form. */
  ghost predicate Survives(t: FieldType, v: Value) {
    var r := EncodeValue(t, v, true);
    r.Ok? && DecodeValue(t, r.value, true) == Ok(Canon(t, v))
  }

  /** The domain of the nested round trips. */
  predicate Storable(t: FieldType, v: Value) {
    Valid(t) && KeysHashable(t) && EncodeValue(t, v, true).Ok? && LengthsFit(t, v)
  }

  lemma {:induction false} ValueRoundTrip(t: FieldType, v: Value)
    requires Storable(t, v)
    ensures Survives(t, v)
    decreases t, 1, 0
  {
    hide Storable, Survives;
    match t {
      case ArrayType(element) => ArrayRoundTrip(element, v);
      case MapType(key, val) => MapRoundTrip(key, val, v);
      case RowType(fields) => RowValueRoundTrip(fields, v);
      case _ => FlatRoundTrip(t, v);
    }
  }

  lemma {:induction false} ArrayRoundTrip(element: FieldType, v: Value)
    requires Storable(ArrayType(element), v)
    ensures Survives(ArrayType(element), v)
    decreases ArrayType(element), 0, 0
  {
    ArrayParts(element, v);
    hide Storable, Survives, EncodeItems, DecodeItems, CanonItems, ItemsFit;
    ItemsRoundTrip(element, v.items);
    ArrayFromItems(element, v.items);
  }

  lemma {:induction false} MapRoundTrip(key: FieldType, val: FieldType, v: Value)
    requires Storable(MapType(key, val), v)
    ensures Survives(MapType(key, val), v)
    decreases MapType(key, val), 0, |if v.MapV? then v.entries else []| + 1
  {
    MapParts(key, val, v);
    hide Storable, Survives, EncodeEntries, DecodeEntries, CanonEntries, EntriesFit;
    EntriesRoundTrip(key, val, v.entries, []);
    MapFromEntries(key, val, v.entries);
  }

  lemma {:induction false} RowValueRoundTrip(fields: seq<FieldType>, v: Value)
    requires Storable(RowType(fields), v)
    ensures Survives(RowType(fields), v)
    decreases RowType(fields), 0, 0
  {
    RowParts(fields, v);
    hide Storable, Survives, EncodeRow, DecodeRow, RowKeysHashable, RowFits, CanonRow;
    IndexedRowDecodes(fields, v.items);
    RowFromValues(fields, v.items);
  }

  lemma FlatRoundTrip(t: FieldType, v: Value)
    requires Storable(t, v) && !Nested(t)
    ensures Survives(t, v)
  {
    ScalarParts(t, v);
    hide Storable, EncodeScalar, DecodeScalar, CanonScalar;
    ScalarRoundTrip(t, v);
  }

  lemma ArrayParts(element: FieldType, v: Value)
    requires Storable(ArrayType(element), v)
    ensures v.ListV? && Valid(element) && KeysHashable(element)
    ensures EncodeItems(element, v.items).Ok? && ItemsFit(element, v.items) && |v.items| < 0x1_0000_0000
  {
    hide EncodeItems, ItemsFit, LE;
  }

  lemma MapParts(key: FieldType, val: FieldType, v: Value)
    requires Storable(MapType(key, val), v)
    ensures v.MapV? && Valid(MapType(key, val)) && KeysHashable(MapType(key, val))
    ensures EncodeEntries(key, val, v.entries).Ok? && EntriesFit(key, val, v.entries) && |v.entries| < 0x1_0000_0000
  {
    hide EncodeEntries, EntriesFit, LE;
  }

  lemma RowParts(fields: seq<FieldType>, v: Value)
    requires Storable(RowType(fields), v)
    ensures v.ListV? && |v.items| == |fields| && RowKeysHashable(fields)
    ensures EncodeRow(fields, v.items, true).Ok? && RowFits(fields, v.items)
  {
    assert v.ListV? && EncodeRow(fields, v.items, true).Ok?;
    hide EncodeCells, EncodeScalar;
    assert KeysHashable(RowType(fields)) && LengthsFit(RowType(fields), v);
  }

  lemma ScalarParts(t: FieldType, v: Value)
    requires Storable(t, v) && !Nested(t)
    ensures Valid(t) && EncodeScalar(t, v, true).Ok?
  {
    hide EncodeScalar;
  }

  lemma ArrayFromItems(element: FieldType, items: seq<Value>)
    requires |items| < 0x1_0000_0000 && EncodeItems(element, items).Ok?
    requires DecodeItems(element, |items|, EncodeItems(element, items).value) == Ok(CanonItems(element, items))
    ensures Survives(ArrayType(element), ListV(items))
  {
    hide EncodeItems, DecodeItems, CanonItems, LE32;
    var body := EncodeItems(element, items).value;
    Get32OfLE32(U32(|items|), body);
    assert EncodeValue(ArrayType(element), ListV(items), true) == Ok(LE32(U32(|items|)) + body);
  }

  lemma RowFromValues(fields: seq<FieldType>, values: seq<Value>)
    requires |values| == |fields| && EncodeRow(fields, values, true).Ok?
    requires DecodeRow(fields, EncodeRow(fields, values, true).value, true) == Ok(CanonRow(fields, values))
    ensures Survives(RowType(fields), ListV(values))
  {
    hide EncodeRow, DecodeRow, CanonRow;
    assert EncodeValue(RowType(fields), ListV(values), true) == EncodeRow(fields, values, true);
    assert Canon(RowType(fields), ListV(values)) == ListV(CanonRow(fields, values));
  }

  lemma MapFromEntries(key: FieldType, val: FieldType, entries: seq<Entry>)
    requires |entries| < 0x1_0000_0000 && EncodeEntries(key, val, entries).Ok?
    requires DecodeEntries(key, val, |entries|, EncodeEntries(key, val, entries).value, [])
          == Ok(PutAll([], CanonEntries(key, val, entries)))
    ensures Survives(MapType(key, val), MapV(entries))
  {
    hide EncodeEntries, DecodeEntries, CanonEntries, PutAll, LE32;
    var body := EncodeEntries(key, val, entries).value;
    Get32OfLE32(U32(|entries|), body);
    assert EncodeValue(MapType(key, val), MapV(entries), true) == Ok(LE32(U32(|entries|)) + body);
  }

  lemma {:induction false} GenericRoundTrip(t: FieldType, v: Value)
    requires Valid(t) && KeysHashable(t) && EncodeGeneric(t, v).Ok? && LengthsFit(t, v)
    ensures DecodeGeneric(t, EncodeGeneric(t, v).value) == Ok(CanonGeneric(t, v))
    decreases t, 2, 0
  {
    hide EncodeValue, DecodeValue, Canon, Valid, KeysHashable, LengthsFit;
    if !v.Nil? {
      ValueRoundTrip(t, v);
      assert EncodeGeneric(t, v).value[1..] == EncodeValue(t, v, true).value;
    }
  }

  lemma UnframeOfFramed(bs: seq<byte>, tail: seq<byte>)
    requires |bs| < 0x1_0000_0000
    ensures Unframe(Framed(bs) + tail) == Ok((bs, tail))
  {
    var all := Framed(bs) + tail;
    assert all == LE32(U32(|bs|)) + (bs + tail);
    Get32OfLE32(U32(|bs|), bs + tail);
    assert all[4..4 + |bs|] == all[4..][..|bs|] == bs;
    assert all[4 + |bs|..] == all[4..][|bs|..] == tail;
  }

  lemma DecodeFramedOfFramed(t: FieldType, bs: seq<byte>, v: Value, tail: seq<byte>)
    requires |bs| < 0x1_0000_0000 && DecodeGeneric(t, bs) == Ok(v)
    ensures DecodeFramed(t, Framed(bs) + tail) == Ok((v, tail))
  {
    hide Framed, Unframe, DecodeGeneric;
    UnframeOfFramed(bs, tail);
  }

  lemma {:induction false} ItemsRoundTrip(t: FieldType, items: seq<Value>)
    requires Valid(t) && KeysHashable(t) && EncodeItems(t, items).Ok? && ItemsFit(t, items)
    ensures DecodeItems(t, |items|, EncodeItems(t, items).value) == Ok(CanonItems(t, items))
    decreases t, 3, |items|
  {
    hide EncodeGeneric, DecodeGeneric, CanonGeneric, Valid, KeysHashable, LengthsFit, DecodeFramed, Framed;
    if items != [] {
      assert GenericFits(t, items[0]);
      var rest := EncodeItems(t, items[1..]).value;
      GenericRoundTrip(t, items[0]);
      DecodeFramedOfFramed(t, EncodeGeneric(t, items[0]).value, CanonGeneric(t, items[0]), rest);
      ItemsRoundTrip(t, items[1..]);
    }
  }

  lemma CanonScalarHashable(t: FieldType, v: Value)
    requires !t.BytesType? && !Nested(t) && EncodeScalar(t, v, true).Ok?
    ensures !Unhashable(CanonScalar(t, v))
  {
    hide LE, LE16, LE32, LE64, ToBE, S8, S16, S32, S64, EncodeLengthPrefixedBytes, EncodeDecimal, EncodeTimestamp;
  }

  lemma CanonKeyHashable(key: FieldType, v: Value)
    requires !key.BytesType? && !Nested(key) && EncodeGeneric(key, v).Ok?
    ensures !Unhashable(CanonGeneric(key, v)) && KeysHashable(key)
  {
    hide EncodeScalar, CanonScalar;
    if !v.Nil? {
      CanonScalarHashable(key, v);
    }
  }

  /** One step of decodeMap. */
  lemma DecodeOneEntry(key: FieldType, val: FieldType, count: nat, ks: seq<byte>, vs: seq<byte>, rest: seq<byte>,
                       acc: seq<Entry>, k: Value, v: Value)
    requires |ks| < 0x1_0000_0000 && |vs| < 0x1_0000_0000 && count > 0
    requires DecodeGeneric(key, ks) == Ok(k) && DecodeGeneric(val, vs) == Ok(v) && !Unhashable(k)
    ensures DecodeEntries(key, val, count, Framed(ks) + Framed(vs) + rest, acc)
         == DecodeEntries(key, val, count - 1, rest, Put(acc, k, v))
  {
    Reassociate(Framed(ks), Framed(vs), rest);
    DecodeFramedOfFramed(key, ks, k, Framed(vs) + rest);
    DecodeFramedOfFramed(val, vs, v, rest);
    hide Framed, DecodeFramed, DecodeGeneric, Unhashable, Put;
  }

  lemma {:induction false} EntriesRoundTrip(key: FieldType, val: FieldType, entries: seq<Entry>, acc: seq<Entry>)
    requires Valid(MapType(key, val)) && KeysHashable(MapType(key, val))
    requires EncodeEntries(key, val, entries).Ok? && EntriesFit(key, val, entries)
    ensures DecodeEntries(key, val, |entries|, EncodeEntries(key, val, entries).value, acc)
         == Ok(PutAll(acc, CanonEntries(key, val, entries)))
    decreases MapType(key, val), 0, |entries|
  {
    hide EncodeGeneric, DecodeGeneric, CanonGeneric, Valid, LengthsFit, DecodeFramed, Framed, Put;
    if entries != [] {
      var k, v := entries[0].key, entries[0].val;
      MapKinds(key, val);
      assert GenericFits(key, k) && GenericFits(val, v);
      CanonKeyHashable(key, k);
      hide KeysHashable;
      GenericRoundTrip(key, k);
      GenericRoundTrip(val, v);
      var rest := EncodeEntries(key, val, entries[1..]).value;
      DecodeOneEntry(key, val, |entries|, EncodeGeneric(key, k).value, EncodeGeneric(val, v).value, rest, acc,
                     CanonGeneric(key, k), CanonGeneric(val, v));
      hide DecodeEntries;
      EntriesRoundTrip(key, val, entries[1..], Put(acc, CanonGeneric(key, k), CanonGeneric(val, v)));
      assert CanonEntries(key, val, entries)[1..] == CanonEntries(key, val, entries[1..]);
    }
  }

  lemma MapKinds(key: FieldType, val: FieldType)
    requires Valid(MapType(key, val))
    ensures Valid(key) && Valid(val)
  {
  }

  // ---------- rows ----------

  /** Column `i` of the encoder's cells. */
  function CellAt(t: FieldType, v: Value, indexed: bool): Result<Cell> {
    if v.Nil? then Ok(None)
    else
      match EncodeValue(t, v, indexed)
      case Ok(body) => Ok(Some(body))
      case Err(e) => Err(e)
  }

  lemma {:induction false} EncodeCellsAt(fields: seq<FieldType>, values: seq<Value>, indexed: bool, i: nat)
    requires |values| == |fields| && EncodeCells(fields, values, indexed).Ok? && i < |fields|
    ensures CellAt(fields[i], values[i], indexed) == Ok(EncodeCells(fields, values, indexed).value[i])
  {
    if i > 0 {
      EncodeCellsAt(fields[1..], values[1..], indexed, i - 1);
    }
  }

  lemma {:induction false} CanonRowAt(fields: seq<FieldType>, values: seq<Value>, i: nat)
    requires |values| == |fields| && i < |fields|
    ensures CanonRow(fields, values)[i] == CanonGeneric(fields[i], values[i])
  {
    if i > 0 {
      CanonRowAt(fields[1..], values[1..], i - 1);
    }
  }

  /** The width the decoder learns for a column: fixed, absent, or from the table. */
  function Width(t: FieldType, cell: Cell): nat {
    if IsFixed(t) then FixedSize(t) else if cell.None? then 0 else |cell.value|
  }

  function Widths(fields: seq<FieldType>, cells: seq<Cell>): (r: seq<nat>)
    requires |cells| == |fields|
    ensures |r| == |fields|
    ensures forall i :: 0 <= i < |fields| ==> r[i] == Width(fields[i], cells[i])
  {
    seq(|fields|, i requires 0 <= i < |fields| => Width(fields[i], cells[i]))
  }

  predicate CellsShort(fields: seq<FieldType>, cells: seq<Cell>)
    requires |cells| == |fields|
  {
    forall i :: 0 <= i < |fields| && !IsFixed(fields[i]) && cells[i].Some? ==> |cells[i].value| < 0x1_0000_0000
  }

  /** `nulls` marks exactly the absent cells. */
  predicate Marks(nulls: seq<byte>, cells: seq<Cell>) {
    |nulls| == NullBitsSize(|cells|)
    && forall i :: 0 <= i < |cells| ==> (IsNullBit(nulls, i) <==> cells[i].None?)
  }

  lemma NullBitmapMarks(cells: seq<Cell>)
    ensures Marks(NullBitmap(cells, |cells|), cells)
  {
    forall i | 0 <= i < |cells|
      ensures IsNullBit(NullBitmap(cells, |cells|), i) <==> cells[i].None?
    {
      NullBitmapBit(cells, |cells|, i);
    }
  }

  /** One step of the length-table reader. */
  lemma ReadOneLength(fields: seq<FieldType>, cells: seq<Cell>, i: nat, nulls: seq<byte>, rest: seq<byte>)
    requires |cells| == |fields| && i < |fields| && CellsShort(fields, cells) && Marks(nulls, cells)
    requires ReadLengths(fields, i + 1, nulls, rest).Ok?
    ensures
      var later := ReadLengths(fields, i + 1, nulls, rest).value;
      ReadLengths(fields, i, nulls, LengthEntry(fields[i], cells[i]) + rest)
      == Ok(([Width(fields[i], cells[i])] + later.0, later.1))
  {
    var entry := LengthEntry(fields[i], cells[i]);
    if IsFixed(fields[i]) || cells[i].None? {
      assert entry + rest == rest;
    } else {
      Get32OfLE32(U32(|cells[i].value|), rest);
    }
  }

  lemma Reassociate<T>(a: seq<T>, b: seq<T>, c: seq<T>)
    ensures (a + b) + c == a + (b + c)
  {
  }

  lemma PastFront<T>(a: seq<T>, b: seq<T>, i: nat)
    requires |a| <= i <= |a| + |b|
    ensures (a + b)[i..] == b[i - |a|..]
  {
  }

  lemma DropTwice<T>(s: seq<T>, i: nat, j: nat)
    requires i + j <= |s|
    ensures s[i..][j..] == s[i + j..]
  {
  }

  lemma TailStep<T>(s: seq<T>, i: nat)
    requires i < |s|
    ensures s[i..] == [s[i]] + s[i + 1..] && s[i..][1..] == s[i + 1..]
  {
  }

  /** The length table is read back, whatever follows it. */
  lemma {:induction false} LengthsRoundTrip(fields: seq<FieldType>, cells: seq<Cell>, i: nat, nulls: seq<byte>,
                                            tail: seq<byte>)
    requires |cells| == |fields| && i <= |fields| && CellsShort(fields, cells) && Marks(nulls, cells)
    ensures ReadLengths(fields, i, nulls, Lengths(fields[i..], cells[i..]) + tail)
         == Ok((Widths(fields, cells)[i..], tail))
    decreases |fields| - i
  {
    var widths, table := Widths(fields, cells), Lengths(fields[i..], cells[i..]);
    if i < |fields| {
      assert fields[i..][1..] == fields[i + 1..] && cells[i..][1..] == cells[i + 1..];
      var rest := Lengths(fields[i + 1..], cells[i + 1..]);
      LengthsRoundTrip(fields, cells, i + 1, nulls, tail);
      ReadOneLength(fields, cells, i, nulls, rest + tail);
      Reassociate(LengthEntry(fields[i], cells[i]), rest, tail);
      TailStep(widths, i);
    } else {
      assert table == [] && table + tail == tail && widths[i..] == [];
    }
  }

  /** Each cell decodes to the canonical value, read with the width the table gives it. */
  predicate CellsDecode(fields: seq<FieldType>, cells: seq<Cell>, values: seq<Value>)
    requires |cells| == |fields| == |values|
  {
    forall i :: 0 <= i < |fields| ==>
      if values[i].Nil? then cells[i].None?
      else
        && cells[i].Some?
        && Width(fields[i], cells[i]) == |cells[i].value|
        && DecodeValue(fields[i], cells[i].value, true) == Ok(Canon(fields[i], values[i]))
  }

  /** One step of the decoder on a column that is present. */
  lemma DecodePresentCell(fields: seq<FieldType>, i: nat, nulls: seq<byte>, lens: Option<seq<nat>>, cell: seq<byte>,
                          rest: seq<byte>, v: Value)
    requires i < |fields| && |nulls| == NullBitsSize(|fields|) && !IsNullBit(nulls, i)
    requires lens.Some? ==> |lens.value| == |fields|
    requires CellWidth(fields[i], if lens.Some? then Some(lens.value[i]) else None, cell + rest) == Ok(|cell|)
    requires DecodeValue(fields[i], cell, lens.Some?) == Ok(v)
    requires DecodeCells(fields, i + 1, nulls, lens, rest).Ok?
    ensures DecodeCells(fields, i, nulls, lens, cell + rest)
         == Ok([v] + DecodeCells(fields, i + 1, nulls, lens, rest).value)
  {
    assert (cell + rest)[..|cell|] == cell && (cell + rest)[|cell|..] == rest;
  }

  lemma {:induction false} CellsRoundTrip(fields: seq<FieldType>, cells: seq<Cell>, values: seq<Value>, i: nat,
                                          nulls: seq<byte>)
    requires |cells| == |fields| == |values| && i <= |fields|
    requires CellsDecode(fields, cells, values) && Marks(nulls, cells)
    ensures DecodeCells(fields, i, nulls, Some(Widths(fields, cells)), Payload(cells[i..]))
         == Ok(CanonRow(fields, values)[i..])
    decreases |fields| - i
  {
    hide DecodeValue, Canon, IsNullBit, NullBitsSize;
    var canon := CanonRow(fields, values);
    if i < |fields| {
      assert cells[i..][1..] == cells[i + 1..];
      var widths, rest := Widths(fields, cells), Payload(cells[i + 1..]);
      CanonRowAt(fields, values, i);
      CellsRoundTrip(fields, cells, values, i + 1, nulls);
      assert canon[i..] == [canon[i]] + canon[i + 1..];
      if cells[i].Some? {
        DecodePresentCell(fields, i, nulls, Some(widths), cells[i].value, rest, canon[i]);
      } else {
        assert [] + rest == rest;
      }
    } else {
      assert canon[i..] == [];
    }
  }

  /** Decoding an encoded row gives its canonical form. */
  lemma {:induction false} IndexedRowDecodes(fields: seq<FieldType>, values: seq<Value>)
    requires RowKeysHashable(fields) && EncodeRow(fields, values, true).Ok? && RowFits(fields, values)
    ensures DecodeRow(fields, EncodeRow(fields, values, true).value, true) == Ok(CanonRow(fields, values))
    decreases fields, 0, 0
  {
    var cells := EncodeCells(fields, values, true).value;
    forall i | 0 <= i < |fields|
      ensures CellAt(fields[i], values[i], true) == Ok(cells[i])
      ensures !values[i].Nil? ==> DecodeValue(fields[i], cells[i].value, true) == Ok(Canon(fields[i], values[i]))
      ensures !values[i].Nil? ==> Width(fields[i], cells[i]) == |cells[i].value|
    {
      EncodeCellsAt(fields, values, true, i);
      if !values[i].Nil? {
        ValueRoundTrip(fields[i], values[i]);
        if IsFixed(fields[i]) {
          ScalarRoundTrip(fields[i], values[i]);
        }
      }
    }
    LayoutRoundTrip(fields, cells, values);
  }

  lemma LayoutRoundTrip(fields: seq<FieldType>, cells: seq<Cell>, values: seq<Value>)
    requires |cells| == |fields| == |values| && ValidFields(fields)
    requires CellsDecode(fields, cells, values) && CellsShort(fields, cells)
    ensures DecodeRow(fields, Layout(fields, cells, true), true) == Ok(CanonRow(fields, values))
  {
    var nulls, table, payload := NullBitmap(cells, |fields|), Lengths(fields, cells), Payload(cells);
    NullBitmapMarks(cells);
    assert fields[0..] == fields && cells[0..] == cells;
    LengthsRoundTrip(fields, cells, 0, nulls, payload);
    CellsRoundTrip(fields, cells, values, 0, nulls);
    assert Widths(fields, cells)[0..] == Widths(fields, cells);
    assert CanonRow(fields, values)[0..] == CanonRow(fields, values);
    SplitLayout(nulls, table, payload);
  }

  lemma SplitLayout(nulls: seq<byte>, table: seq<byte>, payload: seq<byte>)
    ensures (nulls + table + payload)[..|nulls|] == nulls
    ensures (nulls + table + payload)[|nulls|..] == table + payload
  {
  }
}

/**
 The compacted layout: what a column encoded without a length table gives back, with any bytes after it, and which
 column types it does not serve.
 */
module RowCompacted {
  import opened Bytes
  import opened FieldTypes
  import opened Results
  import opened RowBitmap
  import opened RowLayout
  import opened RowRoundTrip
  import opened Varint

  /** Column types whose compacted encoder and decoder agree. */
  predicate CompactSafe(t: FieldType) {
    match t
    case DecimalType(precision, _) => precision > 18
    case TimestampNtzType(_) => false
    case TimestampLtzType(_) => false
    case _ => !Nested(t)
  }

  /** The bytes written behind a length prefix number less than 2^32. */
  predicate PrefixFits(t: FieldType, v: Value) {
    match t
    case StringType => AsString(v).Ok? ==> |AsString(v).value| < 0x1_0000_0000
    case BytesType => AsBytes(v).Ok? ==> |AsBytes(v).value| < 0x1_0000_0000
    case DecimalType(precision, scale) =>
      precision > 18 && AsDecimal(v, scale).Ok? ==> |ToBE(Abs(AsDecimal(v, scale).value))| < 0x1_0000_0000
    case _ => true
  }

  /**
   The bytes `bs` of a compacted field are self-delimiting: with anything after them, the decoder finds their
   width and reads `v`.
   */
  ghost predicate SelfDelimiting(t: FieldType, bs: seq<byte>, tail: seq<byte>, v: Value) {
    CompactedFieldSize(t, bs + tail) == Ok(|bs|) && DecodeScalar(t, bs, false) == Ok(v)
  }

  lemma Varint32SelfDelimiting(n: int32, tail: seq<byte>)
    ensures VarintSize(EncodeSignedVarint32(n) + tail) == Ok(|EncodeSignedVarint32(n)|)
    ensures DecodeInt32(EncodeSignedVarint32(n), false) == Ok(n)
  {
    hide UvarintFrom, PutUvarint;
    var bs := EncodeSignedVarint32(n);
    UvarintOfPut(U32(n), tail);
    UvarintOfPut(U32(n), []);
    assert bs + [] == bs;
  }

  lemma Varint64SelfDelimiting(n: int64, tail: seq<byte>)
    ensures VarintSize(EncodeSignedVarint64(n) + tail) == Ok(|EncodeSignedVarint64(n)|)
    ensures DecodeInt64(EncodeSignedVarint64(n), false) == Ok(n)
  {
    hide UvarintFrom, PutUvarint;
    var bs := EncodeSignedVarint64(n);
    UvarintOfPut(U64(n), tail);
    UvarintOfPut(U64(n), []);
    assert bs + [] == bs;
  }

  /** A varint length followed by that many bytes. */
  lemma PrefixedSelfDelimiting(raw: seq<byte>, tail: seq<byte>)
    requires |raw| < 0x1_0000_0000
    ensures LengthPrefixedSize(EncodeLengthPrefixedBytes(raw, false) + tail)
         == Ok(|EncodeLengthPrefixedBytes(raw, false)|)
    ensures DecodeLengthPrefixedBytes(EncodeLengthPrefixedBytes(raw, false), false) == Ok(raw)
  {
    var n := U32(S32(|raw|));
    var prefix, bs := PutUvarint(n), EncodeLengthPrefixedBytes(raw, false);
    assert n == |raw|;
    UvarintOfPut(n, raw + tail);
    assert bs + tail == prefix + (raw + tail);
    UvarintOfPut(n, raw);
    assert bs[|prefix|..|prefix| + |raw|] == raw;
  }

  /** The columns whose compacted form is the fixed one. */
  predicate SameInBoth(t: FieldType) {
    t in {BoolType, Int8Type, Int16Type, Float32Type, Float64Type}
  }

  lemma OneForm(t: FieldType, v: Value, bs: seq<byte>)
    requires SameInBoth(t)
    ensures EncodeScalar(t, v, false) == EncodeScalar(t, v, true) && DecodeScalar(t, bs, false) == DecodeScalar(t, bs, true)
    ensures Valid(t) && IsFixed(t) && !Nested(t) && CompactedFieldSize(t, bs) == Ok(FixedSize(t))
  {
    hide LE, FromLE, LE16, LE32, LE64, S8, S16, U16;
  }

  lemma FixedSelfDelimiting(t: FieldType, v: Value, tail: seq<byte>)
    requires SameInBoth(t) && EncodeScalar(t, v, false).Ok?
    ensures SelfDelimiting(t, EncodeScalar(t, v, false).value, tail, CanonScalar(t, v))
  {
    hide EncodeScalar, DecodeScalar, CanonScalar, CompactedFieldSize, IsFixed, Valid, FixedSize;
    var bs := EncodeScalar(t, v, false).value;
    OneForm(t, v, bs);
    OneForm(t, v, bs + tail);
    ScalarRoundTrip(t, v);
  }

  lemma ScalarSelfDelimiting(t: FieldType, v: Value, tail: seq<byte>)
    requires CompactSafe(t) && EncodeScalar(t, v, false).Ok? && PrefixFits(t, v)
    ensures SelfDelimiting(t, EncodeScalar(t, v, false).value, tail, CanonScalar(t, v))
  {
    hide LE, FromLE, LE16, LE32, LE64, ToBE, FromBE, S8, S16, U16, EncodeSignedVarint32, EncodeSignedVarint64;
    hide EncodeLengthPrefixedBytes, DecodeLengthPrefixedBytes, DecodeInt32, DecodeInt64, VarintSize, LengthPrefixedSize;
    match t {
      case Int32Type => Varint32SelfDelimiting(AsInt32(v).value, tail);
      case DateType => Varint32SelfDelimiting(AsInt32(v).value, tail);
      case TimeType => Varint32SelfDelimiting(AsInt32(v).value, tail);
      case Int64Type => Varint64SelfDelimiting(AsInt64(v).value, tail);
      case StringType => PrefixedSelfDelimiting(AsString(v).value, tail);
      case BytesType => PrefixedSelfDelimiting(AsBytes(v).value, tail);
      case DecimalType(precision, scale) =>
        var magnitude := Abs(AsDecimal(v, scale).value);
        FromBEOfToBE(magnitude);
        PrefixedSelfDelimiting(ToBE(magnitude), tail);
      case _ => FixedSelfDelimiting(t, v, tail);
    }
  }

  /** Every column that is not null is of a safe type and short enough. */
  predicate CompactReadable(fields: seq<FieldType>, values: seq<Value>)
    requires |values| == |fields|
  {
    forall i :: 0 <= i < |fields| && !values[i].Nil? ==> CompactSafe(fields[i]) && PrefixFits(fields[i], values[i])
  }

  lemma {:induction false} CompactedCellsDecode(fields: seq<FieldType>, cells: seq<Cell>, values: seq<Value>, i: nat,
                                                nulls: seq<byte>, tail: seq<byte>)
    requires |cells| == |fields| == |values| && i <= |fields| && Marks(nulls, cells)
    requires CompactReadable(fields, values)
    requires forall j :: 0 <= j < |fields| ==> CellAt(fields[j], values[j], false) == Ok(cells[j])
    ensures DecodeCells(fields, i, nulls, None, Payload(cells[i..]) + tail) == Ok(CanonRow(fields, values)[i..])
    decreases |fields| - i
  {
    var canon := CanonRow(fields, values);
    if i < |fields| {
      assert cells[i..][1..] == cells[i + 1..];
      var rest := Payload(cells[i + 1..]);
      assert CellAt(fields[i], values[i], false) == Ok(cells[i]);
      CanonRowAt(fields, values, i);
      CompactedCellsDecode(fields, cells, values, i + 1, nulls, tail);
      TailStep(canon, i);
      if cells[i].Some? {
        ScalarSelfDelimiting(fields[i], values[i], rest + tail);
        DecodePresentCell(fields, i, nulls, None, cells[i].value, rest + tail, canon[i]);
        Reassociate(cells[i].value, rest, tail);
      } else {
        assert [] + rest == rest;
      }
    } else {
      assert Payload(cells[i..]) + tail == tail && canon[i..] == [];
    }
  }

  /** The decoder of a compacted row gets past the bitmap. */
  lemma CompactedDecodeStarts(fields: seq<FieldType>, cells: seq<Cell>, tail: seq<byte>)
    requires ValidFields(fields) && |cells| == |fields|
    ensures Marks(NullBitmap(cells, |fields|), cells)
    ensures DecodeRow(fields, Layout(fields, cells, false) + tail, false)
         == DecodeCells(fields, 0, NullBitmap(cells, |fields|), None, Payload(cells[0..]) + tail)
  {
    var nulls, payload := NullBitmap(cells, |fields|), Payload(cells);
    NullBitmapMarks(cells);
    assert cells[0..] == cells;
    assert nulls + [] + payload + tail == nulls + [] + (payload + tail);
    SplitLayout(nulls, [], payload + tail);
    assert [] + (payload + tail) == payload + tail;
  }

  lemma CellsEncoded(fields: seq<FieldType>, values: seq<Value>, indexed: bool)
    requires |values| == |fields| && EncodeCells(fields, values, indexed).Ok?
    ensures
      var cells := EncodeCells(fields, values, indexed).value;
      forall i :: 0 <= i < |fields| ==> CellAt(fields[i], values[i], indexed) == Ok(cells[i])
  {
    forall i | 0 <= i < |fields|
      ensures CellAt(fields[i], values[i], indexed) == Ok(EncodeCells(fields, values, indexed).value[i])
    {
      EncodeCellsAt(fields, values, indexed, i);
    }
  }

  /**
   The compacted round trip: DecodeCompacted inverts EncodeCompacted, with any bytes after the row, on rows whose
   array, map, row, timestamp and narrow decimal columns are null.
   */
  lemma CompactedRoundTrip(fields: seq<FieldType>, values: seq<Value>, tail: seq<byte>)
    requires EncodeRow(fields, values, false).Ok? && CompactReadable(fields, values)
    ensures DecodeRow(fields, EncodeRow(fields, values, false).value + tail, false) == Ok(CanonRow(fields, values))
  {
    var cells := EncodeCells(fields, values, false).value;
    CellsEncoded(fields, values, false);
    CompactedDecodeStarts(fields, cells, tail);
    CompactedCellsDecode(fields, cells, values, 0, NullBitmap(cells, |fields|), tail);
    assert CanonRow(fields, values)[0..] == CanonRow(fields, values);
  }

  // ---------- what the compacted layout does not serve ----------

  lemma {:induction false} NestedCellFails(fields: seq<FieldType>, i: nat, k: nat, nulls: seq<byte>, payload: seq<byte>)
    requires i <= k < |fields| && |nulls| == NullBitsSize(|fields|) && !IsNullBit(nulls, k) && Nested(fields[k])
    ensures DecodeCells(fields, i, nulls, None, payload).Err?
    decreases k - i
  {
    if IsNullBit(nulls, i) {
      NestedCellFails(fields, i + 1, k, nulls, payload);
    } else {
      var n := CompactedFieldSize(fields[i], payload);
      if i < k && n.Ok? && n.value <= |payload| {
        NestedCellFails(fields, i + 1, k, nulls, payload[n.value..]);
      }
    }
  }

  /** A row with an array, map or row that is not null never decodes, whatever its other columns and what follows. */
  lemma NestedNeverDecodes(fields: seq<FieldType>, values: seq<Value>, k: nat, tail: seq<byte>)
    requires EncodeRow(fields, values, false).Ok? && k < |fields| && Nested(fields[k]) && !values[k].Nil?
    ensures DecodeRow(fields, EncodeRow(fields, values, false).value + tail, false).Err?
  {
    var cells := EncodeCells(fields, values, false).value;
    CellsEncoded(fields, values, false);
    CompactedDecodeStarts(fields, cells, tail);
    assert CellAt(fields[k], values[k], false) == Ok(cells[k]);
    hide Layout, NullBitmap, Payload, DecodeCells;
    NestedCellFails(fields, 0, k, NullBitmap(cells, |fields|), Payload(cells[0..]) + tail);
  }

  /**
   Over columns of safe and nested types, DecodeCompacted reads an encoded row back if and only if every array, map
   and row column is null: those have no compacted width.
   */
  lemma CompactedNeedsNullNested(fields: seq<FieldType>, values: seq<Value>, tail: seq<byte>)
    requires EncodeRow(fields, values, false).Ok?
    requires forall i :: 0 <= i < |fields| && !values[i].Nil? ==> Nested(fields[i]) || CompactSafe(fields[i])
    requires forall i :: 0 <= i < |fields| ==> PrefixFits(fields[i], values[i])
    ensures DecodeRow(fields, EncodeRow(fields, values, false).value + tail, false).Ok?
       <==> forall i :: 0 <= i < |fields| && Nested(fields[i]) ==> values[i].Nil?
  {
    assert |values| == |fields|;
    hide DecodeRow, EncodeRow, PrefixFits, CompactSafe;
    if k :| 0 <= k < |fields| && Nested(fields[k]) && !values[k].Nil? {
      NestedNeverDecodes(fields, values, k, tail);
    } else {
      CompactedRoundTrip(fields, values, tail);
    }
  }
}

/**
 What the row codec writes and reads (internal/codec/row/row.go), as functions: the layout of an encoded row
 and the reading of one from the front of a payload.
 */
module RowLayout {
  import opened Bits
  import opened Bytes
  import opened FieldTypes
  import opened Results
  import opened Varint

  /** One column of an encoded row: None for null, else its bytes. */
  type Cell = Option<seq<byte>>

  // ---------- null bitmap ----------

  function NullBitsSize(count: nat): nat { (count + 7) / 8 }

  /** Bits `k` and up of the byte that holds the null bits of columns `base` to `base + 7`. */
  function NullByteFrom(cells: seq<Cell>, base: nat, k: nat): (b: nat)
    requires k <= 8
    ensures b < Pow2(8 - k)
    decreases 8 - k
  {
    if k == 8 then 0
    else (if base + k < |cells| && cells[base + k].None? then 1 else 0) + 2 * NullByteFrom(cells, base, k + 1)
  }

  function NullByte(cells: seq<Cell>, base: nat): byte {
    Pow2Eight();
    NullByteFrom(cells, base, 0)
  }

  /** The bitmap of a row of `count` columns whose first |cells| are known; the other bits are clear. */
  function NullBitmap(cells: seq<Cell>, count: nat): (bits: seq<byte>)
    ensures |bits| == NullBitsSize(count)
  {
    seq(NullBitsSize(count), i requires 0 <= i < NullBitsSize(count) => NullByte(cells, 8 * i))
  }

  predicate IsNullBit(bits: seq<byte>, i: nat)
    requires i / 8 < |bits|
  {
    Bit(bits[i / 8], i % 8)
  }

  // ---------- scalars ----------

  function EncodeBool(b: bool): seq<byte> { if b then [1] else [0] }

  function EncodeFixed32(n: int32): seq<byte> { LE32(U32(n)) }

  function EncodeFixed64(n: int64): seq<byte> { LE64(U64(n)) }

  function EncodeSignedVarint32(n: int32): seq<byte> { PutUvarint(U32(n)) }

  function EncodeSignedVarint64(n: int64): seq<byte> { PutUvarint(U64(n)) }

  function EncodeLengthPrefixedBytes(raw: seq<byte>, indexed: bool): seq<byte> {
    (if indexed then LE32(U32(|raw|)) else EncodeSignedVarint32(S32(|raw|))) + raw
  }

  function EncodeDecimal(unscaled: int, precision: int, indexed: bool): seq<byte> {
    if precision <= 18 then EncodeFixed64(S64(unscaled)) else EncodeLengthPrefixedBytes(ToBE(Abs(unscaled)), indexed)
  }

  function EncodeTimestamp(ts: (int64, int32), precision: int): seq<byte> {
    if precision <= 3 then EncodeFixed64(ts.0) else EncodeFixed64(ts.0) + EncodeFixed32(ts.1)
  }

  function DecodeLengthPrefixedBytes(payload: seq<byte>, indexed: bool): Result<seq<byte>> {
    if indexed then
      if |payload| < 4 then Err(PayloadTooShort) else Ok(payload[4..])
    else
      match Uvarint(payload)
      case Decoded(value, width) =>
        UvarintWidth(payload, 0);
        if width + U32(value) > |payload| then Err(PayloadTooShort) else Ok(payload[width..width + U32(value)])
      case _ => Err(InvalidVarint)
  }

  function DecodeVarint(payload: seq<byte>): Result<nat> {
    match Uvarint(payload)
    case Decoded(value, _) => Ok(value)
    case _ => Err(InvalidVarint)
  }

  function DecodeInt32(payload: seq<byte>, fixed: bool): Result<int32> {
    if fixed then
      if |payload| < 4 then Err(PayloadTooShort) else Ok(S32(Get32(payload)))
    else
      var value :- DecodeVarint(payload);
      Ok(S32(value))
  }

  function DecodeInt64(payload: seq<byte>, fixed: bool): Result<int64> {
    if fixed then
      if |payload| < 8 then Err(PayloadTooShort) else Ok(S64(Get64(payload)))
    else
      var value :- DecodeVarint(payload);
      Ok(S64(value))
  }

  function DecodeDecimal(precision: int, payload: seq<byte>, indexed: bool): Result<int> {
    if precision <= 18 then DecodeInt64(payload, indexed)
    else
      var raw :- DecodeLengthPrefixedBytes(payload, indexed);
      Ok(FromBE(raw))
  }

  function DecodeTimestamp(precision: int, payload: seq<byte>, indexed: bool): Result<(int64, int32)> {
    if precision <= 3 then
      var ms :- DecodeInt64(payload, indexed);
      Ok((ms, 0))
    else if |payload| < 12 then Err(PayloadTooShort)
    else Ok((S64(Get64(payload)), S32(Get32(payload[8..]))))
  }

  function FixedSize(t: FieldType): nat {
    match t
    case BoolType => 1
    case Int8Type => 1
    case Int16Type => 2
    case Int32Type => 4
    case Int64Type => 8
    case Float32Type => 4
    case Float64Type => 8
    case DateType => 4
    case TimeType => 4
    case DecimalType(precision, _) => if precision <= 18 then 8 else 0
    case TimestampNtzType(precision) => if precision <= 3 then 8 else 0
    case TimestampLtzType(precision) => if precision <= 3 then 8 else 0
    case _ => 0
  }

  // ---------- width of a compacted field ----------

  function VarintSize(payload: seq<byte>): (r: Result<nat>)
    ensures r.Ok? ==> 0 < r.value <= |payload|
  {
    UvarintWidth(payload, 0);
    match Uvarint(payload)
    case Decoded(_, width) => Ok(width)
    case _ => Err(InvalidVarint)
  }

  function LengthPrefixedSize(payload: seq<byte>): Result<nat> {
    match Uvarint(payload)
    case Decoded(value, width) => Ok(width + U32(value))
    case _ => Err(InvalidVarint)
  }

  function TimestampSize(precision: int, payload: seq<byte>): Result<nat> {
    var first :- VarintSize(payload);
    if precision <= 3 then Ok(first)
    else
      var second :- VarintSize(payload[first..]);
      Ok(first + second)
  }

  function CompactedFieldSize(t: FieldType, payload: seq<byte>): Result<nat> {
    match t
    case BoolType => Ok(1)
    case Int8Type => Ok(1)
    case Int16Type => Ok(2)
    case Int32Type => VarintSize(payload)
    case DateType => VarintSize(payload)
    case TimeType => VarintSize(payload)
    case Int64Type => VarintSize(payload)
    case Float32Type => Ok(4)
    case Float64Type => Ok(8)
    case StringType => LengthPrefixedSize(payload)
    case BytesType => LengthPrefixedSize(payload)
    case DecimalType(precision, _) =>
      if precision <= 18 then VarintSize(payload) else LengthPrefixedSize(payload)
    case TimestampNtzType(precision) => TimestampSize(precision, payload)
    case TimestampLtzType(precision) => TimestampSize(precision, payload)
    case _ => Err(NotCompactable)
  }

  // ---------- encoding ----------

  /** The switch of encodeValue, up to the nested types. */
  function EncodeScalar(t: FieldType, v: Value, indexed: bool): Result<seq<byte>> {
    match t
    case BoolType => var b :- AsBool(v); Ok(EncodeBool(b))
    case Int8Type => var i :- AsInt8(v); Ok([U8(i)])
    case Int16Type => var i :- AsInt16(v); Ok(LE16(U16(i)))
    case Int32Type => var i :- AsInt32(v); Ok(if indexed then EncodeFixed32(i) else EncodeSignedVarint32(i))
    case Int64Type => var i :- AsInt64(v); Ok(if indexed then EncodeFixed64(i) else EncodeSignedVarint64(i))
    case Float32Type => var bits :- AsFloat32(v); Ok(LE32(bits))
    case Float64Type => var bits :- AsFloat64(v); Ok(LE64(bits))
    case StringType => var raw :- AsString(v); Ok(EncodeLengthPrefixedBytes(raw, indexed))
    case BytesType => var raw :- AsBytes(v); Ok(EncodeLengthPrefixedBytes(raw, indexed))
    case DecimalType(precision, scale) => var d :- AsDecimal(v, scale); Ok(EncodeDecimal(d, precision, indexed))
    case DateType => var i :- AsInt32(v); Ok(if indexed then EncodeFixed32(i) else EncodeSignedVarint32(i))
    case TimeType => var i :- AsInt32(v); Ok(if indexed then EncodeFixed32(i) else EncodeSignedVarint32(i))
    case TimestampNtzType(precision) => var ts :- AsTimestampNtz(v); Ok(EncodeTimestamp(ts, precision))
    case TimestampLtzType(precision) => var ts :- AsTimestampLtz(v); Ok(EncodeTimestamp(ts, precision))
    case _ => Err(UnsupportedType)
  }

  function EncodeValue(t: FieldType, v: Value, indexed: bool): Result<seq<byte>>
    decreases t, 1, 0
  {
    match t
    case ArrayType(element) =>
      var items :- AsList(v);
      var body :- EncodeItems(element, items);
      Ok(LE32(U32(|items|)) + body)
    case MapType(key, val) =>
      var entries :- AsMap(v);
      var body :- EncodeEntries(key, val, entries);
      Ok(LE32(U32(|entries|)) + body)
    case RowType(fields) => var items :- AsList(v); EncodeRow(fields, items, indexed)
    case _ => EncodeScalar(t, v, indexed)
  }

  /** encodeGenericField: an element, key or value behind a null marker, always in the indexed layout. */
  function EncodeGeneric(t: FieldType, v: Value): Result<seq<byte>>
    decreases t, 2, 0
  {
    if v.Nil? then Ok([1])
    else
      var body :- EncodeValue(t, v, true);
      Ok([0] + body)
  }

  /** A generic field behind its four-byte length. */
  function Framed(bs: seq<byte>): seq<byte> { LE32(U32(|bs|)) + bs }

  function EncodeItems(t: FieldType, items: seq<Value>): Result<seq<byte>>
    decreases t, 3, |items|
  {
    if items == [] then Ok([])
    else
      var head :- EncodeGeneric(t, items[0]);
      var rest :- EncodeItems(t, items[1..]);
      Ok(Framed(head) + rest)
  }

  function EncodeEntries(key: FieldType, val: FieldType, entries: seq<Entry>): Result<seq<byte>>
    decreases MapType(key, val), 0, |entries|
  {
    if entries == [] then Ok([])
    else
      var k :- EncodeGeneric(key, entries[0].key);
      var v :- EncodeGeneric(val, entries[0].val);
      var rest :- EncodeEntries(key, val, entries[1..]);
      Ok(Framed(k) + Framed(v) + rest)
  }

  /** The cells of a row: every column encoded, null columns left empty. */
  function EncodeCells(fields: seq<FieldType>, values: seq<Value>, indexed: bool): (r: Result<seq<Cell>>)
    requires |values| == |fields|
    ensures r.Ok? ==> |r.value| == |fields|
    decreases fields, 0, 0
  {
    if fields == [] then Ok([])
    else
      var head: Cell :- if values[0].Nil? then Ok(None)
                        else (var body :- EncodeValue(fields[0], values[0], indexed); Ok(Some(body)));
      var rest :- EncodeCells(fields[1..], values[1..], indexed);
      Ok([head] + rest)
  }

  /** A column's entry in the length table, which only a column neither fixed-width nor null has. */
  function LengthEntry(t: FieldType, cell: Cell): seq<byte> {
    if cell.Some? && !IsFixed(t) then LE32(U32(|cell.value|)) else []
  }

  function Lengths(fields: seq<FieldType>, cells: seq<Cell>): seq<byte>
    requires |cells| == |fields|
  {
    if fields == [] then [] else LengthEntry(fields[0], cells[0]) + Lengths(fields[1..], cells[1..])
  }

  function Payload(cells: seq<Cell>): seq<byte> {
    if cells == [] then [] else (if cells[0].Some? then cells[0].value else []) + Payload(cells[1..])
  }

  /** The wire layouts: bitmap, length table (indexed only), payload. */
  function Layout(fields: seq<FieldType>, cells: seq<Cell>, indexed: bool): seq<byte>
    requires |cells| == |fields|
  {
    NullBitmap(cells, |fields|) + (if indexed then Lengths(fields, cells) else []) + Payload(cells)
  }

  function EncodeRow(fields: seq<FieldType>, values: seq<Value>, indexed: bool): Result<seq<byte>>
    decreases fields, 1, 0
  {
    if !ValidFields(fields) then Err(InvalidSchema)
    else if |values| != |fields| then Err(ValueCountMismatch)
    else
      var cells :- EncodeCells(fields, values, indexed);
      Ok(Layout(fields, cells, indexed))
  }

  // ---------- decoding ----------

  /** The switch of decodeValue, up to the nested types. */
  function DecodeScalar(t: FieldType, payload: seq<byte>, indexed: bool): Result<Value> {
    match t
    case BoolType => Ok(BoolV(|payload| > 0 && payload[0] != 0))
    case Int8Type => if |payload| < 1 then Err(PayloadTooShort) else Ok(Int8V(S8(payload[0])))
    case Int16Type => if |payload| < 2 then Err(PayloadTooShort) else Ok(Int16V(S16(Get16(payload))))
    case Int32Type => var i :- DecodeInt32(payload, indexed); Ok(Int32V(i))
    case Int64Type => var i :- DecodeInt64(payload, indexed); Ok(Int64V(i))
    case Float32Type => if |payload| < 4 then Err(PayloadTooShort) else Ok(Float32V(Get32(payload)))
    case Float64Type => if |payload| < 8 then Err(PayloadTooShort) else Ok(Float64V(Get64(payload)))
    case StringType => var raw :- DecodeLengthPrefixedBytes(payload, indexed); Ok(StringV(raw))
    case BytesType => var raw :- DecodeLengthPrefixedBytes(payload, indexed); Ok(BytesV(raw))
    case DecimalType(precision, scale) => var d :- DecodeDecimal(precision, payload, indexed); Ok(DecimalV(d, scale))
    case DateType => var i :- DecodeInt32(payload, indexed); Ok(Int32V(i))
    case TimeType => var i :- DecodeInt32(payload, indexed); Ok(Int32V(i))
    case TimestampNtzType(precision) =>
      var ts :- DecodeTimestamp(precision, payload, indexed); Ok(TimestampNtzV(ts.0, ts.1))
    case TimestampLtzType(precision) =>
      var ts :- DecodeTimestamp(precision, payload, indexed); Ok(TimestampLtzV(ts.0, ts.1))
    case _ => Err(UnsupportedType)
  }

  function DecodeValue(t: FieldType, payload: seq<byte>, indexed: bool): Result<Value>
    decreases t, 2, 0
  {
    match t
    case ArrayType(element) =>
      if |payload| < 4 then Err(PayloadTooShort)
      else
        var items :- DecodeItems(element, Get32(payload), payload[4..]);
        Ok(ListV(items))
    case MapType(key, val) =>
      if |payload| < 4 then Err(PayloadTooShort)
      else
        var entries :- DecodeEntries(key, val, Get32(payload), payload[4..], []);
        Ok(MapV(entries))
    case RowType(fields) => var items :- DecodeRow(fields, payload, indexed); Ok(ListV(items))
    case _ => DecodeScalar(t, payload, indexed)
  }

  function DecodeGeneric(t: FieldType, payload: seq<byte>): Result<Value>
    decreases t, 3, 0
  {
    if payload == [] then Err(PayloadTooShort)
    else if payload[0] == 1 then Ok(Nil)
    else DecodeValue(t, payload[1..], true)
  }

  /** Split a framed generic field off the front of a payload. */
  function Unframe(payload: seq<byte>): (r: Result<(seq<byte>, seq<byte>)>)
    ensures r.Ok? ==> |payload| == 4 + |r.value.0| + |r.value.1|
    ensures r.Ok? ==> payload[4..] == r.value.0 + r.value.1
  {
    if |payload| < 4 then Err(PayloadTruncated)
    else
      var n := Get32(payload);
      if 4 + n > |payload| then Err(PayloadTruncated) else Ok((payload[4..4 + n], payload[4 + n..]))
  }

  /** A framed generic field off the front of a payload, and what follows it. */
  function DecodeFramed(t: FieldType, payload: seq<byte>): (r: Result<(Value, seq<byte>)>)
    ensures r.Ok? ==> |r.value.1| < |payload|
    decreases t, 4, 0
  {
    var parts :- Unframe(payload);
    var v :- DecodeGeneric(t, parts.0);
    Ok((v, parts.1))
  }

  function DecodeItems(t: FieldType, count: nat, payload: seq<byte>): Result<seq<Value>>
    decreases t, 5, count
  {
    if count == 0 then Ok([])
    else
      var head :- DecodeFramed(t, payload);
      var rest :- DecodeItems(t, count - 1, head.1);
      Ok([head.0] + rest)
  }

  /** decodeMap's loop with `count` entries to go and `acc` the map built so far. */
  function DecodeEntries(key: FieldType, val: FieldType, count: nat, payload: seq<byte>, acc: seq<Entry>)
    : Result<seq<Entry>>
    decreases MapType(key, val), 1, count
  {
    if count == 0 then Ok(acc)
    else
      var k :- DecodeFramed(key, payload);
      var v :- DecodeFramed(val, k.1);
      if Unhashable(k.0) then Err(UnhashableKey)
      else DecodeEntries(key, val, count - 1, v.1, Put(acc, k.0, v.0))
  }

  /** The widths of columns `i` and up, from the length table at the front of `payload`, and what follows it. */
  function ReadLengths(fields: seq<FieldType>, i: nat, nulls: seq<byte>, payload: seq<byte>)
    : (r: Result<(seq<nat>, seq<byte>)>)
    requires i <= |fields| && |nulls| == NullBitsSize(|fields|)
    ensures r.Ok? ==> |r.value.0| == |fields| - i
    decreases |fields| - i
  {
    if i == |fields| then Ok(([], payload))
    else if IsFixed(fields[i]) then
      var rest :- ReadLengths(fields, i + 1, nulls, payload);
      Ok(([FixedSize(fields[i])] + rest.0, rest.1))
    else if IsNullBit(nulls, i) then
      var rest :- ReadLengths(fields, i + 1, nulls, payload);
      Ok(([0] + rest.0, rest.1))
    else if |payload| < 4 then Err(PayloadTruncated)
    else
      var rest :- ReadLengths(fields, i + 1, nulls, payload[4..]);
      Ok(([Get32(payload)] + rest.0, rest.1))
  }

  /** The width of column `i`: from the table when there is one, else from the field itself. */
  function CellWidth(t: FieldType, width: Option<nat>, payload: seq<byte>): Result<nat> {
    match width
    case Some(n) => Ok(n)
    case None => CompactedFieldSize(t, payload)
  }

  /** Columns `i` and up, read from the front of `payload`; `lens` is the length table of an indexed row. */
  function DecodeCells(fields: seq<FieldType>, i: nat, nulls: seq<byte>, lens: Option<seq<nat>>, payload: seq<byte>)
    : (r: Result<seq<Value>>)
    requires i <= |fields| && |nulls| == NullBitsSize(|fields|)
    requires lens.Some? ==> |lens.value| == |fields|
    ensures r.Ok? ==> |r.value| == |fields| - i
    decreases fields, 0, |fields| - i
  {
    if i == |fields| then Ok([])
    else if IsNullBit(nulls, i) then
      var rest :- DecodeCells(fields, i + 1, nulls, lens, payload);
      Ok([Nil] + rest)
    else
      var n :- CellWidth(fields[i], if lens.Some? then Some(lens.value[i]) else None, payload);
      if n > |payload| then Err(PayloadTruncated)
      else
        var head :- DecodeValue(fields[i], payload[..n], lens.Some?);
        var rest :- DecodeCells(fields, i + 1, nulls, lens, payload[n..]);
        Ok([head] + rest)
  }

  function DecodeRow(fields: seq<FieldType>, payload: seq<byte>, indexed: bool): (r: Result<seq<Value>>)
    ensures r.Ok? ==> |r.value| == |fields|
    decreases fields, 1, 0
  {
    if !ValidFields(fields) then Err(InvalidSchema)
    else if |payload| < NullBitsSize(|fields|) then Err(PayloadTooShort)
    else
      var nulls := payload[..NullBitsSize(|fields|)];
      var rest := payload[NullBitsSize(|fields|)..];
      if indexed then
        var table :- ReadLengths(fields, 0, nulls, rest);
        DecodeCells(fields, 0, nulls, Some(table.0), table.1)
      else DecodeCells(fields, 0, nulls, None, rest)
  }
}

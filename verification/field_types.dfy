/** Column types and the dynamically typed values the row codec accepts (internal/codec/row/types.go). */
module FieldTypes {
  import opened Bytes
  import opened Results

  /** rowcodec.FieldType, as its constructor functions build it. `precision` is the Go field Length. */
  datatype FieldType =
    | BoolType
    | Int8Type
    | Int16Type
    | Int32Type
    | Int64Type
    | Float32Type
    | Float64Type
    | StringType
    | BytesType
    | DecimalType(precision: int, scale: int)
    | DateType
    | TimeType
    | TimestampNtzType(precision: int)
    | TimestampLtzType(precision: int)
    | ArrayType(element: FieldType)
    | MapType(key: FieldType, val: FieldType)
    | RowType(fields: seq<FieldType>)

  /** FieldType.Validate: whether it returns nil. */
  predicate Valid(t: FieldType)
    decreases t, 0
  {
    match t
    case DecimalType(precision, scale) => precision > 0 && 0 <= scale <= precision
    case TimestampNtzType(precision) => 0 <= precision <= 9
    case TimestampLtzType(precision) => 0 <= precision <= 9
    case ArrayType(element) => Valid(element)
    case MapType(key, val) => Valid(key) && Valid(val)
    case RowType(fields) => ValidFields(fields)
    case _ => true
  }

  /** Schema.Validate. */
  predicate ValidFields(fields: seq<FieldType>)
    decreases fields, 0
  {
    forall i :: 0 <= i < |fields| ==> Valid(fields[i])
  }

  predicate IsFixed(t: FieldType) {
    match t
    case DecimalType(precision, _) => 0 < precision <= 18
    case TimestampNtzType(precision) => 0 <= precision <= 3
    case TimestampLtzType(precision) => 0 <= precision <= 3
    case StringType => false
    case BytesType => false
    case ArrayType(_) => false
    case MapType(_, _) => false
    case RowType(_) => false
    case _ => true
  }

  /**
   A Go `any` handed to the encoder. Floats are their bit patterns. `IntV` is Go's int, `BigIntV` a
   *big.Int, `ListV` a []any, `OtherV` every dynamic type the codec does not know. A map[any]any is the
   list of its entries in the order one `range` over it visits them: the map is that list with the order
   forgotten, so a statement about all lists is a statement about every iteration order.
   */
  datatype Value =
    | Nil
    | BoolV(b: bool)
    | Int8V(i8: int8)
    | Int16V(i16: int16)
    | Int32V(i32: int32)
    | Int64V(i64: int64)
    | IntV(i: int64)
    | Float32V(bits32: uint32)
    | Float64V(bits64: uint64)
    | StringV(text: seq<byte>)
    | BytesV(raw: seq<byte>)
    | DecimalV(unscaled: int, scale: int)
    | BigIntV(big: int)
    | TimestampNtzV(ms: int64, nanos: int32)
    | TimestampLtzV(ms: int64, nanos: int32)
    | ListV(items: seq<Value>)
    | MapV(entries: seq<Entry>)
    | OtherV

  datatype Entry = Entry(key: Value, val: Value)

  // ---------- Go's coercions of dynamic values ----------

  function AsBool(v: Value): Result<bool> {
    match v
    case BoolV(b) => Ok(b)
    case _ => Err(TypeMismatch)
  }

  function AsInt8(v: Value): Result<int8> {
    match v
    case Int8V(i) => Ok(i)
    case IntV(i) => Ok(S8(i))
    case Int16V(i) => Ok(S8(i))
    case Int32V(i) => Ok(S8(i))
    case Int64V(i) => Ok(S8(i))
    case _ => Err(TypeMismatch)
  }

  function AsInt16(v: Value): Result<int16> {
    match v
    case Int16V(i) => Ok(i)
    case IntV(i) => Ok(S16(i))
    case Int8V(i) => Ok(S16(i))
    case Int32V(i) => Ok(S16(i))
    case Int64V(i) => Ok(S16(i))
    case _ => Err(TypeMismatch)
  }

  function AsInt32(v: Value): Result<int32> {
    match v
    case Int32V(i) => Ok(i)
    case IntV(i) => Ok(S32(i))
    case Int64V(i) => Ok(S32(i))
    case _ => Err(TypeMismatch)
  }

  function AsInt64(v: Value): Result<int64> {
    match v
    case Int64V(i) => Ok(i)
    case IntV(i) => Ok(i)
    case Int32V(i) => Ok(i)
    case _ => Err(TypeMismatch)
  }

  function AsFloat32(v: Value): Result<uint32> {
    match v
    case Float32V(bits) => Ok(bits)
    case _ => Err(TypeMismatch)
  }

  function AsFloat64(v: Value): Result<uint64> {
    match v
    case Float64V(bits) => Ok(bits)
    case _ => Err(TypeMismatch)
  }

  function AsString(v: Value): Result<seq<byte>> {
    match v
    case StringV(text) => Ok(text)
    case BytesV(raw) => Ok(raw)
    case _ => Err(TypeMismatch)
  }

  function AsBytes(v: Value): Result<seq<byte>> {
    match v
    case BytesV(raw) => Ok(raw)
    case _ => Err(TypeMismatch)
  }

  /** asDecimal: the unscaled value at the column's scale. */
  function AsDecimal(v: Value, scale: int): Result<int> {
    match v
    case DecimalV(unscaled, s) => if s == scale then Ok(unscaled) else Err(ScaleMismatch)
    case BigIntV(big) => Ok(big)
    case _ => Err(TypeMismatch)
  }

  function AsTimestampNtz(v: Value): Result<(int64, int32)> {
    match v
    case TimestampNtzV(ms, nanos) => Ok((ms, nanos))
    case _ => Err(TypeMismatch)
  }

  function AsTimestampLtz(v: Value): Result<(int64, int32)> {
    match v
    case TimestampLtzV(ms, nanos) => Ok((ms, nanos))
    case _ => Err(TypeMismatch)
  }

  function AsList(v: Value): Result<seq<Value>> {
    match v
    case ListV(items) => Ok(items)
    case _ => Err(TypeMismatch)
  }

  function AsMap(v: Value): Result<seq<Entry>> {
    match v
    case MapV(entries) => Ok(entries)
    case _ => Err(TypeMismatch)
  }

  // ---------- Go map keys ----------

  /** Using one of these as a map key panics: slices and maps cannot be hashed. */
  predicate Unhashable(v: Value) {
    v.BytesV? || v.ListV? || v.MapV?
  }

  predicate IsNaN32(bits: uint32) { bits % 0x8000_0000 > 0x7F80_0000 }
  predicate IsNaN64(bits: uint64) { bits % 0x8000_0000_0000_0000 > 0x7FF0_0000_0000_0000 }

  /**
   Go's `==` between two interface values used as map keys. Float zeros of either sign are equal and NaNs
   are equal to nothing; a Decimal holds a pointer that every decode allocates afresh, so two are never equal.
   */
  predicate KeyEqual(a: Value, b: Value) {
    match (a, b)
    case (Float32V(x), Float32V(y)) => (x == y && !IsNaN32(x)) || (x % 0x8000_0000 == 0 && y % 0x8000_0000 == 0)
    case (Float64V(x), Float64V(y)) =>
      (x == y && !IsNaN64(x)) || (x % 0x8000_0000_0000_0000 == 0 && y % 0x8000_0000_0000_0000 == 0)
    case (DecimalV(_, _), _) => false
    case (BigIntV(_), _) => false
    case _ => a == b
  }

  /** `m[key] = val` on the entry list: overwrite the entry of an equal key, else add one. */
  function Put(entries: seq<Entry>, key: Value, val: Value): (updated: seq<Entry>)
    ensures |entries| <= |updated| <= |entries| + 1
  {
    if entries == [] then [Entry(key, val)]
    else if KeyEqual(entries[0].key, key) then [Entry(key, val)] + entries[1..]
    else [entries[0]] + Put(entries[1..], key, val)
  }

  /** Assigning a list of entries, in order, to a map. */
  function PutAll(entries: seq<Entry>, added: seq<Entry>): seq<Entry>
    decreases |added|
  {
    if added == [] then entries else PutAll(Put(entries, added[0].key, added[0].val), added[1..])
  }

  /** What every Go map satisfies: no two of its keys are equal. */
  predicate DistinctKeys(entries: seq<Entry>) {
    forall i, j :: 0 <= i < j < |entries| ==> !KeyEqual(entries[i].key, entries[j].key)
  }
}

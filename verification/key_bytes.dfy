/** The bytes of a lookup key, column by column and whole (internal/codec/row/row.go:60-76, 365-455). */
module KeyBytes {
  import opened Bytes
  import opened FieldTypes
  import opened LookupKey
  import opened Results
  import opened RowBytes
  import opened RowLayout
  import opened RowRoundTrip
  import opened ScalarBytes
  import opened WireForms

  /** A timestamp in a key: the varint of its milliseconds, then, above precision 3, that of its nanoseconds. */
  ghost predicate KeyTimestamp(precision: int, ms: int, nanos: int, bs: seq<byte>) {
    if precision <= 3 then Counting64(ms, false, bs)
    else
      exists first: seq<byte>, second: seq<byte> ::
        bs == first + second && Counting64(ms, false, first) && Counting32(nanos, false, second)
  }

  /** A decimal in a key: the varint of its unscaled value, or above precision 18 its magnitude behind a length. */
  ghost predicate KeyDecimal(precision: int, d: int, bs: seq<byte>) {
    if precision <= 18 then Counting64(d, false, bs) else DecimalForm(precision, d, false, bs)
  }

  /** `bs` is what a key holds of the value `v` of a column of type `t`. */
  ghost predicate KeyForm(t: FieldType, v: Value, bs: seq<byte>) {
    match t
    case DecimalType(precision, scale) =>
      || (v.DecimalV? && v.scale == scale && KeyDecimal(precision, v.unscaled, bs))
      || (v.BigIntV? && KeyDecimal(precision, v.big, bs))
    case TimestampNtzType(precision) => v.TimestampNtzV? && KeyTimestamp(precision, v.ms, v.nanos, bs)
    case TimestampLtzType(precision) => v.TimestampLtzV? && KeyTimestamp(precision, v.ms, v.nanos, bs)
    case _ => !Nested(t) && ScalarForm(t, v, false, bs)
  }

  lemma KeyTimestampExactly(ts: (int64, int32), precision: int, bs: seq<byte>)
    ensures EncodeKeyTimestamp(ts, precision) == bs <==> KeyTimestamp(precision, ts.0, ts.1, bs)
  {
    hide Counting32, Counting64, EncodeSignedVarint32, EncodeSignedVarint64;
    var first, second := EncodeSignedVarint64(ts.0), EncodeSignedVarint32(ts.1);
    Counting64Exactly(ts.0, ts.0, false, first);
    Counting32Exactly(ts.1, ts.1, false, second);
    Counting64Exactly(ts.0, ts.0, false, bs);
    if precision > 3 {
      if a: seq<byte>, b: seq<byte> :| bs == a + b && Counting64(ts.0, false, a) && Counting32(ts.1, false, b) {
        Counting64Exactly(ts.0, ts.0, false, a);
        Counting32Exactly(ts.1, ts.1, false, b);
      }
    }
  }

  lemma KeyDecimalExactly(d: int, precision: int, bs: seq<byte>)
    ensures EncodeKeyDecimal(d, precision) == bs <==> KeyDecimal(precision, d, bs)
  {
    hide Counting64, EncodeSignedVarint64, DecimalForm, EncodeLengthPrefixedBytes, ToBE, S64;
    if precision <= 18 {
      Counting64Exactly(d, S64(d), false, bs);
    } else {
      DecimalExactly(precision, d, false, bs);
    }
  }

  /** A key column is encoded as `bs` if and only if those are its bytes. */
  lemma KeyBytesExactly(t: FieldType, v: Value, bs: seq<byte>)
    ensures EncodeKeyValue(t, v) == Ok(bs) <==> KeyForm(t, v, bs)
  {
    hide EncodeKeyValue, KeyForm;
    if t.DecimalType? {
      DecimalInKey(t, v, bs);
    } else if t.TimestampNtzType? || t.TimestampLtzType? {
      TimestampInKey(t, v, bs);
    } else {
      PlainInKey(t, v, bs);
    }
  }

  lemma DecimalInKey(t: FieldType, v: Value, bs: seq<byte>)
    requires t.DecimalType?
    ensures EncodeKeyValue(t, v) == Ok(bs) <==> KeyForm(t, v, bs)
  {
    hide EncodeKeyDecimal, KeyDecimal;
    if v.DecimalV? {
      KeyDecimalExactly(v.unscaled, t.precision, bs);
    } else if v.BigIntV? {
      KeyDecimalExactly(v.big, t.precision, bs);
    }
  }

  lemma TimestampInKey(t: FieldType, v: Value, bs: seq<byte>)
    requires t.TimestampNtzType? || t.TimestampLtzType?
    ensures EncodeKeyValue(t, v) == Ok(bs) <==> KeyForm(t, v, bs)
  {
    hide EncodeKeyTimestamp, KeyTimestamp;
    if v.TimestampNtzV? || v.TimestampLtzV? {
      KeyTimestampExactly((v.ms, v.nanos), t.precision, bs);
    }
  }

  lemma PlainInKey(t: FieldType, v: Value, bs: seq<byte>)
    requires !t.DecimalType? && !t.TimestampNtzType? && !t.TimestampLtzType?
    ensures EncodeKeyValue(t, v) == Ok(bs) <==> KeyForm(t, v, bs)
  {
    hide EncodeScalar, ScalarForm;
    if !Nested(t) {
      ScalarBytesExactly(t, v, false, bs);
    }
  }

  /** The parts of a key, one for each key column in the order asked for. */
  ghost predicate KeyPartsForm(fields: seq<FieldType>, values: seq<Value>, columns: seq<int>, parts: seq<seq<byte>>)
    requires |values| == |fields|
  {
    && |parts| == |columns|
    && forall i :: 0 <= i < |columns| ==>
         0 <= columns[i] < |fields| && KeyForm(fields[columns[i]], values[columns[i]], parts[i])
  }

  lemma {:induction false} PartsOfKey(fields: seq<FieldType>, values: seq<Value>, columns: seq<int>)
    returns (parts: seq<seq<byte>>)
    requires |values| == |fields| && KeyParts(fields, values, columns).Ok?
    ensures KeyPartsForm(fields, values, columns, parts) && Joined(parts) == KeyParts(fields, values, columns).value
  {
    hide EncodeKeyValue, KeyForm;
    if columns == [] {
      parts := [];
    } else {
      var part := EncodeKeyValue(fields[columns[0]], values[columns[0]]).value;
      KeyBytesExactly(fields[columns[0]], values[columns[0]], part);
      var later := PartsOfKey(fields, values, columns[1..]);
      parts := [part] + later;
      assert parts[1..] == later;
    }
  }

  lemma {:induction false} KeyOfParts(fields: seq<FieldType>, values: seq<Value>, columns: seq<int>,
                                      parts: seq<seq<byte>>)
    requires |values| == |fields| && KeyPartsForm(fields, values, columns, parts)
    ensures KeyParts(fields, values, columns) == Ok(Joined(parts))
  {
    hide EncodeKeyValue, KeyForm;
    if columns != [] {
      KeyBytesExactly(fields[columns[0]], values[columns[0]], parts[0]);
      KeyOfParts(fields, values, columns[1..], parts[1..]);
    }
  }

  /** A lookup key is the bytes of at least one column, one after the other with nothing between them. */
  lemma LookupKeyExactly(fields: seq<FieldType>, values: seq<Value>, columns: seq<int>, key: seq<byte>)
    requires |values| == |fields|
    ensures EncodeLookupKey(fields, values, columns) == Ok(key)
       <==> columns != [] && exists parts :: KeyPartsForm(fields, values, columns, parts) && key == Joined(parts)
    ensures columns == [] ==> EncodeLookupKey(fields, values, columns) == Err(NoKeyColumns)
  {
    hide KeyParts, KeyPartsForm, Joined;
    if columns != [] {
      if KeyParts(fields, values, columns).Ok? {
        var parts := PartsOfKey(fields, values, columns);
      }
      forall parts | KeyPartsForm(fields, values, columns, parts)
        ensures KeyParts(fields, values, columns) == Ok(Joined(parts))
      {
        KeyOfParts(fields, values, columns, parts);
      }
    }
  }

  /** A key is refused at its first column that is not there or does not take its value. */
  lemma {:induction false} KeyRefused(fields: seq<FieldType>, values: seq<Value>, columns: seq<int>) returns (at: nat)
    requires |values| == |fields| && KeyParts(fields, values, columns).Err?
    ensures at < |columns|
    ensures
      var error := KeyParts(fields, values, columns).error;
      if 0 <= columns[at] < |fields| then EncodeKeyValue(fields[columns[at]], values[columns[at]]) == Err(error)
      else error == KeyColumnOutOfRange
    ensures forall i :: 0 <= i < at ==>
              0 <= columns[i] < |fields| && EncodeKeyValue(fields[columns[i]], values[columns[i]]).Ok?
  {
    hide EncodeKeyValue;
    if !(0 <= columns[0] < |values|) || EncodeKeyValue(fields[columns[0]], values[columns[0]]).Err? {
      at := 0;
    } else {
      var later := KeyRefused(fields, values, columns[1..]);
      at := later + 1;
    }
  }
}

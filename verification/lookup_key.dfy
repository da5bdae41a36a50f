/**
 Lookup keys (internal/codec/row/row.go:60-76, 365-455): concatenated column codes, and why prefixes of them are
 exact.
 */
module LookupKey {
  import opened Bytes
  import opened FieldTypes
  import opened Results
  import opened RowCompacted
  import opened RowExactness
  import opened RowLayout
  import opened RowRoundTrip
  import opened Varint

  function EncodeKeyDecimal(unscaled: int, precision: int): seq<byte> {
    if precision <= 18 then EncodeSignedVarint64(S64(unscaled))
    else EncodeLengthPrefixedBytes(ToBE(Abs(unscaled)), false)
  }

  function EncodeKeyTimestamp(ts: (int64, int32), precision: int): seq<byte> {
    if precision <= 3 then EncodeSignedVarint64(ts.0)
    else EncodeSignedVarint64(ts.0) + EncodeSignedVarint32(ts.1)
  }

  /** encodeCompactedKeyValue. */
  function EncodeKeyValue(t: FieldType, v: Value): Result<seq<byte>> {
    match t
    case DecimalType(precision, scale) => var d :- AsDecimal(v, scale); Ok(EncodeKeyDecimal(d, precision))
    case TimestampNtzType(precision) => var ts :- AsTimestampNtz(v); Ok(EncodeKeyTimestamp(ts, precision))
    case TimestampLtzType(precision) => var ts :- AsTimestampLtz(v); Ok(EncodeKeyTimestamp(ts, precision))
    case _ => if Nested(t) then Err(UnsupportedKeyType) else EncodeScalar(t, v, false)
  }

  /** The codes of the key columns, one after the other. */
  function KeyParts(fields: seq<FieldType>, values: seq<Value>, columns: seq<int>): Result<seq<byte>>
    requires |values| == |fields|
  {
    if columns == [] then Ok([])
    else if !(0 <= columns[0] < |values|) then Err(KeyColumnOutOfRange)
    else
      var part :- EncodeKeyValue(fields[columns[0]], values[columns[0]]);
      var rest :- KeyParts(fields, values, columns[1..]);
      Ok(part + rest)
  }

  function EncodeLookupKey(fields: seq<FieldType>, values: seq<Value>, columns: seq<int>): Result<seq<byte>>
    requires |values| == |fields|
  {
    if columns == [] then Err(NoKeyColumns) else KeyParts(fields, values, columns)
  }

  // ---------- each code says where it ends ----------

  function ReadTimestamp(precision: int, payload: seq<byte>): Result<((int64, int32), nat)> {
    var n :- VarintSize(payload);
    var ms :- DecodeInt64(payload[..n], false);
    if precision <= 3 then Ok(((ms, 0), n))
    else
      var m :- VarintSize(payload[n..]);
      var nanos :- DecodeInt32(payload[n..][..m], false);
      Ok(((ms, nanos), n + m))
  }

  /** A reader of key codes: the column value at the front of `payload` and the width of its code. */
  function ReadKeyValue(t: FieldType, payload: seq<byte>): Result<(Value, nat)> {
    match t
    case TimestampNtzType(precision) =>
      var ts :- ReadTimestamp(precision, payload); Ok((TimestampNtzV(ts.0.0, ts.0.1), ts.1))
    case TimestampLtzType(precision) =>
      var ts :- ReadTimestamp(precision, payload); Ok((TimestampLtzV(ts.0.0, ts.0.1), ts.1))
    case _ =>
      var n :- CompactedFieldSize(t, payload);
      if n > |payload| then Err(PayloadTruncated)
      else
        var v :- DecodeScalar(t, payload[..n], false);
        Ok((v, n))
  }

  lemma CutAt(a: seq<byte>, b: seq<byte>)
    ensures (a + b)[..|a|] == a && (a + b)[|a|..] == b
  {
  }

  lemma ReadKeyTimestamp(ts: (int64, int32), precision: int, tail: seq<byte>)
    ensures
      var code := EncodeKeyTimestamp(ts, precision);
      ReadTimestamp(precision, code + tail) == Ok(((ts.0, CanonNanos(ts.1, precision)), |code|))
  {
    var ms, nanos := EncodeSignedVarint64(ts.0), EncodeSignedVarint32(ts.1);
    if precision <= 3 {
      Varint64SelfDelimiting(ts.0, tail);
      CutAt(ms, tail);
    } else {
      Reassociate(ms, nanos, tail);
      Varint64SelfDelimiting(ts.0, nanos + tail);
      CutAt(ms, nanos + tail);
      Varint32SelfDelimiting(ts.1, tail);
      CutAt(nanos, tail);
    }
  }

  lemma ReadKeyDecimal(precision: int, scale: int, unscaled: int, tail: seq<byte>)
    requires precision > 18 ==> |ToBE(Abs(unscaled))| < 0x1_0000_0000
    ensures
      var code := EncodeKeyDecimal(unscaled, precision);
      ReadKeyValue(DecimalType(precision, scale), code + tail)
      == Ok((DecimalV(CanonDecimal(unscaled, precision), scale), |code|))
  {
    var code := EncodeKeyDecimal(unscaled, precision);
    CutAt(code, tail);
    if precision <= 18 {
      Varint64SelfDelimiting(S64(unscaled), tail);
    } else {
      PrefixedSelfDelimiting(ToBE(Abs(unscaled)), tail);
      FromBEOfToBE(Abs(unscaled));
    }
  }

  /** Reading any column code back, whatever follows it. */
  lemma ReadEncodedKeyValue(t: FieldType, v: Value, tail: seq<byte>)
    requires EncodeKeyValue(t, v).Ok? && PrefixFits(t, v)
    ensures
      var code := EncodeKeyValue(t, v).value;
      ReadKeyValue(t, code + tail) == Ok((CanonScalar(t, v), |code|))
  {
    hide LE, PutUvarint, UvarintFrom, ToBE, FromBE, EncodeKeyDecimal, EncodeKeyTimestamp, CanonDecimal, CanonNanos;
    hide ReadTimestamp, CompactedFieldSize;
    if t.DecimalType? {
      ReadKeyDecimal(t.precision, t.scale, AsDecimal(v, t.scale).value, tail);
    } else if t.TimestampNtzType? || t.TimestampLtzType? {
      ReadKeyTimestamp((v.ms, v.nanos), t.precision, tail);
    } else {
      ScalarSelfDelimiting(t, v, tail);
      CutAt(EncodeScalar(t, v, false).value, tail);
    }
  }

  /** A value and what its column keeps of it have one code. */
  lemma CodeOfCanon(t: FieldType, v: Value)
    requires EncodeKeyValue(t, v).Ok?
    ensures EncodeKeyValue(t, v) == EncodeKeyValue(t, CanonScalar(t, v))
  {
    hide EncodeKeyDecimal, EncodeKeyTimestamp, EncodeScalar, CanonDecimal, CanonNanos;
    if t.DecimalType? {
      CodeOfCanonDecimal(AsDecimal(v, t.scale).value, t.precision);
    } else if t.TimestampNtzType? || t.TimestampLtzType? {
      CodeOfCanonTimestamp((v.ms, v.nanos), t.precision);
    } else {
      hide CanonScalar;
      CodeOfCanonPlain(t, v);
    }
  }

  lemma CodeOfCanonPlain(t: FieldType, v: Value)
    requires EncodeScalar(t, v, false).Ok? && !t.DecimalType? && !t.TimestampNtzType? && !t.TimestampLtzType?
    ensures EncodeScalar(t, v, false) == EncodeScalar(t, CanonScalar(t, v), false)
  {
    hide LE, LE16, LE32, LE64, PutUvarint, ToBE, EncodeLengthPrefixedBytes;
    hide EncodeSignedVarint32, EncodeSignedVarint64, EncodeFixed32, EncodeFixed64, EncodeDecimal, EncodeTimestamp;
    hide CanonDecimal, CanonNanos;
  }

  lemma CodeOfCanonDecimal(unscaled: int, precision: int)
    ensures EncodeKeyDecimal(CanonDecimal(unscaled, precision), precision) == EncodeKeyDecimal(unscaled, precision)
  {
    assert S64(S64(unscaled)) == S64(unscaled);
  }

  lemma CodeOfCanonTimestamp(ts: (int64, int32), precision: int)
    ensures EncodeKeyTimestamp((ts.0, CanonNanos(ts.1, precision)), precision) == EncodeKeyTimestamp(ts, precision)
  {
  }

  /** Column codes are prefix-free: where two codes with tails agree, values, codes and tails agree. */
  lemma CodesPrefixFree(t: FieldType, a: Value, b: Value, aTail: seq<byte>, bTail: seq<byte>)
    requires EncodeKeyValue(t, a).Ok? && PrefixFits(t, a)
    requires EncodeKeyValue(t, b).Ok? && PrefixFits(t, b)
    requires EncodeKeyValue(t, a).value + aTail == EncodeKeyValue(t, b).value + bTail
    ensures CanonScalar(t, a) == CanonScalar(t, b) && aTail == bTail
  {
    ReadEncodedKeyValue(t, a, aTail);
    ReadEncodedKeyValue(t, b, bTail);
    CutAt(EncodeKeyValue(t, a).value, aTail);
    CutAt(EncodeKeyValue(t, b).value, bTail);
  }

  // ---------- prefixes of keys ----------

  /** Every string, byte string and wide decimal among the key columns is shorter than 2^32 bytes. */
  predicate KeyFits(fields: seq<FieldType>, values: seq<Value>, columns: seq<int>)
    requires |values| == |fields|
  {
    forall c :: c in columns && 0 <= c < |fields| ==> PrefixFits(fields[c], values[c])
  }

  /** The key columns cannot tell the two rows apart. */
  predicate Agree(fields: seq<FieldType>, r: seq<Value>, s: seq<Value>, columns: seq<int>)
    requires |r| == |s| == |fields|
  {
    forall c :: c in columns && 0 <= c < |fields| ==> CanonScalar(fields[c], r[c]) == CanonScalar(fields[c], s[c])
  }

  /** One column of a key: codes with tails are prefix-ordered when the values agree and the tails are. */
  lemma OneColumnPrefix(t: FieldType, a: Value, b: Value, aTail: seq<byte>, bTail: seq<byte>)
    requires EncodeKeyValue(t, a).Ok? && PrefixFits(t, a)
    requires EncodeKeyValue(t, b).Ok? && PrefixFits(t, b)
    ensures EncodeKeyValue(t, a).value + aTail <= EncodeKeyValue(t, b).value + bTail
       <==> CanonScalar(t, a) == CanonScalar(t, b) && aTail <= bTail
  {
    hide EncodeKeyValue, CanonScalar, PrefixFits;
    var x, y := EncodeKeyValue(t, a).value, EncodeKeyValue(t, b).value;
    if x + aTail <= y + bTail {
      var more := RestOf(x + aTail, y + bTail);
      Reassociate(x, aTail, more);
      CodesPrefixFree(t, a, b, aTail + more, bTail);
    }
    if CanonScalar(t, a) == CanonScalar(t, b) {
      CodeOfCanon(t, a);
      CodeOfCanon(t, b);
      SameFront(x, aTail, bTail);
    }
  }

  lemma RestOf(a: seq<byte>, b: seq<byte>) returns (more: seq<byte>)
    requires a <= b
    ensures a + more == b
  {
    more := b[|a|..];
  }

  lemma SameFront(x: seq<byte>, a: seq<byte>, b: seq<byte>)
    ensures x + a <= x + b <==> a <= b
  {
    if x + a <= x + b {
      var more := RestOf(x + a, x + b);
      assert b == (x + b)[|x|..] == (x + a + more)[|x|..] == a + more;
    }
  }

  lemma AgreeStep(fields: seq<FieldType>, r: seq<Value>, s: seq<Value>, columns: seq<int>)
    requires |r| == |s| == |fields| && columns != [] && 0 <= columns[0] < |fields|
    ensures
      var c := columns[0];
      Agree(fields, r, s, columns)
      <==> CanonScalar(fields[c], r[c]) == CanonScalar(fields[c], s[c]) && Agree(fields, r, s, columns[1..])
  {
    assert columns == [columns[0]] + columns[1..];
  }

  lemma {:induction false} PartsPrefix(fields: seq<FieldType>, r: seq<Value>, s: seq<Value>, columns: seq<int>, k: nat)
    requires |r| == |s| == |fields| && k <= |columns|
    requires KeyParts(fields, r, columns[..k]).Ok? && KeyParts(fields, s, columns).Ok?
    requires KeyFits(fields, r, columns[..k]) && KeyFits(fields, s, columns)
    ensures KeyParts(fields, r, columns[..k]).value <= KeyParts(fields, s, columns).value
       <==> Agree(fields, r, s, columns[..k])
  {
    if k > 0 {
      var c := columns[0];
      assert columns[..k][1..] == columns[1..][..k - 1];
      PartsPrefix(fields, r, s, columns[1..], k - 1);
      OneColumnPrefix(fields[c], r[c], s[c], KeyParts(fields, r, columns[1..][..k - 1]).value,
                      KeyParts(fields, s, columns[1..]).value);
      AgreeStep(fields, r, s, columns[..k]);
    }
  }

  /**
   Prefix lookup is exact: the key of row `r` over the first `k` key columns is a byte prefix of the key of row `s`
   over all of them if and only if those columns cannot tell `r` and `s` apart.
   */
  lemma PrefixLookupExactly(fields: seq<FieldType>, r: seq<Value>, s: seq<Value>, columns: seq<int>, k: nat)
    requires |r| == |s| == |fields| && k <= |columns|
    requires EncodeLookupKey(fields, r, columns[..k]).Ok? && EncodeLookupKey(fields, s, columns).Ok?
    requires KeyFits(fields, r, columns[..k]) && KeyFits(fields, s, columns)
    ensures EncodeLookupKey(fields, r, columns[..k]).value <= EncodeLookupKey(fields, s, columns).value
       <==> Agree(fields, r, s, columns[..k])
  {
    PartsPrefix(fields, r, s, columns, k);
  }

  /** On rows whose key columns hold exact values, keys over the same columns are equal only for equal values. */
  lemma FullKeysInjective(fields: seq<FieldType>, r: seq<Value>, s: seq<Value>, columns: seq<int>)
    requires |r| == |s| == |fields|
    requires EncodeLookupKey(fields, r, columns).Ok? && EncodeLookupKey(fields, s, columns).Ok?
    requires KeyFits(fields, r, columns) && KeyFits(fields, s, columns)
    requires forall c :: c in columns && 0 <= c < |fields| ==>
               ExactScalar(fields[c], r[c]) && ExactScalar(fields[c], s[c])
    ensures EncodeLookupKey(fields, r, columns) == EncodeLookupKey(fields, s, columns)
       <==> forall c :: c in columns && 0 <= c < |fields| ==> r[c] == s[c]
  {
    assert columns[..|columns|] == columns;
    PrefixLookupExactly(fields, r, s, columns, |columns|);
    PrefixLookupExactly(fields, s, r, columns, |columns|);
    forall c | c in columns && 0 <= c < |fields|
      ensures CanonScalar(fields[c], r[c]) == r[c] && CanonScalar(fields[c], s[c]) == s[c]
    {
      ExactIsCanon(fields[c], r[c]);
      ExactIsCanon(fields[c], s[c]);
    }
    PrefixBothWays(EncodeLookupKey(fields, r, columns).value, EncodeLookupKey(fields, s, columns).value);
  }

  lemma PrefixBothWays(a: seq<byte>, b: seq<byte>)
    ensures a == b <==> a <= b && b <= a
  {
  }
}

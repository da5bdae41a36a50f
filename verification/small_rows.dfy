/**
 The round trips in terms of what a caller can see: the size of the encoded row and the kinds of its map keys. Every
 length inside a row shorter than 2^32 bytes fits the four bytes it is written in.
 */
module SmallRows {
  import opened Bytes
  import opened FieldTypes
  import opened Results
  import opened RowBytes
  import opened RowCompacted
  import opened RowExactness
  import opened RowLayout
  import opened RowRoundTrip
  import Varint
  import opened WireForms
  import RowCompactedLimits

  // ---------- parts are no longer than the whole ----------

  lemma {:induction false} FrameInside(bodies: seq<seq<byte>>, i: nat)
    requires i < |bodies|
    ensures 4 + |bodies[i]| <= |Frames(bodies)|
  {
    hide Four;
    if i > 0 {
      FrameInside(bodies[1..], i - 1);
    }
  }

  lemma {:induction false} FramesNumber(bodies: seq<seq<byte>>)
    ensures 4 * |bodies| <= |Frames(bodies)|
  {
    hide Four;
    if bodies != [] {
      FramesNumber(bodies[1..]);
    }
  }

  lemma {:induction false} BodyInside(bodies: seq<seq<byte>>, i: nat)
    requires i < |bodies|
    ensures |bodies[i]| <= |Joined(bodies)|
  {
    if i > 0 {
      BodyInside(bodies[1..], i - 1);
    }
  }

  // ---------- lengths that fit ----------

  lemma {:induction false} ValueFits(t: FieldType, v: Value)
    requires Short(EncodeValue(t, v, true))
    ensures LengthsFit(t, v)
    decreases t, 1
  {
    hide EncodeValue, LengthsFit, Short;
    match t {
      case ArrayType(element) => ArrayFits(element, v);
      case MapType(key, val) => MapFits(key, val, v);
      case RowType(fields) => NestedRowFits(fields, v);
      case _ => FlatFits(t, v);
    }
  }

  lemma FlatFits(t: FieldType, v: Value)
    requires !Nested(t)
    ensures LengthsFit(t, v)
  {
  }

  /** An element whose body is short. */
  lemma {:induction false} ElementFits(t: FieldType, v: Value, body: seq<byte>)
    requires Element(t, v, body) && |body| < 0x1_0000_0000
    ensures GenericFits(t, v)
    decreases t, 2
  {
    ElementExactly(t, v, body);
    hide EncodeValue, LengthsFit, EncodeGeneric;
    if v.Nil? {
      NilFits(t);
    } else {
      ValueFits(t, v);
    }
  }

  lemma NilFits(t: FieldType)
    ensures LengthsFit(t, Nil)
  {
  }

  lemma {:induction false} ArrayFits(element: FieldType, v: Value)
    requires Short(EncodeValue(ArrayType(element), v, true))
    ensures LengthsFit(ArrayType(element), v)
    decreases ArrayType(element), 0
  {
    hide EncodeValue, Element, GenericFits, Frames, Four;
    var bodies := ArrayOnTheWire(element, v, true);
    FramesNumber(bodies);
    forall i | 0 <= i < |v.items| ensures GenericFits(element, v.items[i]) {
      FrameInside(bodies, i);
      ElementFits(element, v.items[i], bodies[i]);
    }
  }

  lemma {:induction false} MapFits(key: FieldType, val: FieldType, v: Value)
    requires Short(EncodeValue(MapType(key, val), v, true))
    ensures LengthsFit(MapType(key, val), v)
    decreases MapType(key, val), 0
  {
    hide EncodeValue, Element, GenericFits, Frames, Four;
    var bodies := MapOnTheWire(key, val, v, true);
    FramesNumber(bodies);
    forall i | 0 <= i < |v.entries|
      ensures GenericFits(key, v.entries[i].key) && GenericFits(val, v.entries[i].val)
    {
      FrameInside(bodies, 2 * i);
      FrameInside(bodies, 2 * i + 1);
      ElementFits(key, v.entries[i].key, bodies[2 * i]);
      ElementFits(val, v.entries[i].val, bodies[2 * i + 1]);
    }
  }

  lemma {:induction false} NestedRowFits(fields: seq<FieldType>, v: Value)
    requires Short(EncodeValue(RowType(fields), v, true))
    ensures LengthsFit(RowType(fields), v)
    decreases RowType(fields), 0
  {
    NestedAccepted(RowType(fields), v, true);
    RowInRow(fields, if v.ListV? then v.items else [], true);
    assert v.ListV? && Short(EncodeRow(fields, v.items, true));
    assert |v.items| == |fields|;
    hide EncodeRow, EncodeValue, RowFits;
    RowLengthsFit(fields, v.items);
  }

  /** Every length inside a row that is shorter than 2^32 bytes fits. */
  lemma {:induction false} RowLengthsFit(fields: seq<FieldType>, values: seq<Value>)
    requires Short(EncodeRow(fields, values, true)) && |values| == |fields|
    ensures RowFits(fields, values)
    decreases fields, 0
  {
    hide EncodeRow, EncodeValue, LengthsFit, BitSet, LengthTable, Joined, IsFixed;
    var k, bodies := RowOnTheWire(fields, values, true);
    forall i | 0 <= i < |fields| && !values[i].Nil?
      ensures LengthsFit(fields[i], values[i]) && Short(EncodeValue(fields[i], values[i], true))
    {
      BodyInside(bodies, i);
      ValueFits(fields[i], values[i]);
    }
  }

  // ---------- keys that Go can hash ----------

  /** Maps at any depth have keys that are neither byte strings nor nested. */
  lemma {:induction false} HashableExactly(t: FieldType)
    ensures KeysHashable(t)
       <==> forall part :: Inside(part, t) && part.MapType? ==> !part.key.BytesType? && !Nested(part.key)
    decreases t
  {
    match t {
      case ArrayType(element) => HashableExactly(element);
      case MapType(key, val) =>
        assert Inside(t, t);
        HashableExactly(val);
        if !Nested(key) {
          HashableExactly(key);
        }
      case RowType(fields) =>
        forall i | 0 <= i < |fields|
          ensures KeysHashable(fields[i])
             <==> forall part :: Inside(part, fields[i]) && part.MapType? ==> !part.key.BytesType? && !Nested(part.key)
        {
          HashableExactly(fields[i]);
        }
      case _ =>
    }
  }

  // ---------- the round trips ----------

  /** Every indexed row shorter than 2^32 bytes decodes to its canonical values, keys being hashable. */
  lemma SmallRowComesBack(fields: seq<FieldType>, values: seq<Value>)
    requires RowKeysHashable(fields) && EncodeRow(fields, values, true).Ok?
    requires |EncodeRow(fields, values, true).value| < 0x1_0000_0000
    ensures |values| == |fields|
    ensures DecodeRow(fields, EncodeRow(fields, values, true).value, true) == Ok(CanonRow(fields, values))
  {
    assert |values| == |fields|;
    hide EncodeRow, DecodeRow, RowKeysHashable, CanonRow, RowFits;
    RowLengthsFit(fields, values);
    IndexedRowDecodes(fields, values);
  }

  /** And to the very values encoded if and only if each is of its column's kind and range. */
  lemma SmallRowExactly(fields: seq<FieldType>, values: seq<Value>)
    requires RowKeysHashable(fields) && EncodeRow(fields, values, true).Ok? && GoValue(ListV(values))
    requires |EncodeRow(fields, values, true).value| < 0x1_0000_0000
    ensures DecodeRow(fields, EncodeRow(fields, values, true).value, true) == Ok(values) <==> ExactRow(fields, values)
  {
    assert |values| == |fields|;
    hide EncodeRow, DecodeRow, RowKeysHashable, ExactRow, RowFits, GoValue;
    RowLengthsFit(fields, values);
    IndexedRoundTripExactly(fields, values);
  }

  lemma PrefixInside(t: FieldType, v: Value)
    requires Short(EncodeValue(t, v, false))
    ensures PrefixFits(t, v)
  {
    hide LE, LE32, Varint.PutUvarint, ToBE, S32, U32, EncodeItems, EncodeEntries, EncodeCells;
  }

  lemma NilPrefix(t: FieldType)
    ensures PrefixFits(t, Nil)
  {
  }

  /** The same for compacted rows: nothing in a row shorter than 2^32 bytes is too long for its length prefix. */
  lemma CompactedLengthsFit(fields: seq<FieldType>, values: seq<Value>)
    requires Short(EncodeRow(fields, values, false)) && |values| == |fields|
    ensures RowCompactedLimits.PrefixesFit(fields, values)
  {
    hide EncodeRow, EncodeValue, PrefixFits, BitSet, LengthTable, Joined;
    var k, bodies := RowOnTheWire(fields, values, false);
    forall i | 0 <= i < |fields| ensures PrefixFits(fields[i], values[i]) {
      if values[i].Nil? {
        NilPrefix(fields[i]);
      } else {
        BodyInside(bodies, i);
        PrefixInside(fields[i], values[i]);
      }
    }
  }

  /** A compacted row shorter than 2^32 bytes comes back if and only if ComesBack says so. */
  lemma SmallCompactedRowExactly(fields: seq<FieldType>, values: seq<Value>)
    requires EncodeRow(fields, values, false).Ok? && |EncodeRow(fields, values, false).value| < 0x1_0000_0000
    ensures |values| == |fields|
    ensures DecodeRow(fields, EncodeRow(fields, values, false).value, false) == Ok(CanonRow(fields, values))
       <==> RowCompactedLimits.ComesBack(fields, values)
  {
    assert |values| == |fields|;
    hide EncodeRow, DecodeRow, CanonRow, RowCompactedLimits.ComesBack, RowCompactedLimits.PrefixesFit;
    CompactedLengthsFit(fields, values);
    RowCompactedLimits.CompactedRowExactly(fields, values);
  }
}

/**
 Where everything in an encoded row stands, byte by byte: the null bits, the length table of the indexed layout and the
 columns (internal/codec/row/row.go:326-359, 600, 879), and the same for arrays and maps inside a row.
 */
module RowBytes {
  import opened Bits
  import opened Bytes
  import opened FieldTypes
  import opened Results
  import opened RowBitmap
  import opened RowCompacted
  import opened RowLayout
  import opened RowRoundTrip
  import opened WireForms

  /** Columns whose width the indexed layout has to write down. */
  predicate Measured(t: FieldType) {
    match t
    case StringType => true
    case BytesType => true
    case ArrayType(_) => true
    case MapType(_, _) => true
    case RowType(_) => true
    case DecimalType(precision, _) => precision > 18
    case TimestampNtzType(precision) => precision > 3
    case TimestampLtzType(precision) => precision > 3
    case _ => false
  }

  const BIT_VALUES: seq<nat> := [1, 2, 4, 8, 16, 32, 64, 128]

  predicate BitSet(bs: seq<byte>, i: nat)
    requires i / 8 < |bs|
  {
    bs[i / 8] / BIT_VALUES[i % 8] % 2 == 1
  }

  /** `bodies` are the columns of the row: nothing for a null, else the bytes of its value. */
  predicate Bodies(fields: seq<FieldType>, values: seq<Value>, indexed: bool, bodies: seq<seq<byte>>) {
    && |bodies| == |fields| == |values|
    && forall i :: 0 <= i < |fields| ==>
         if values[i].Nil? then bodies[i] == [] else EncodeValue(fields[i], values[i], indexed) == Ok(bodies[i])
  }

  /** Four bytes for the width of each column that is present and measured. */
  function LengthTable(fields: seq<FieldType>, values: seq<Value>, bodies: seq<seq<byte>>): seq<byte>
    requires |fields| == |values| == |bodies|
  {
    if fields == [] then []
    else
      (if !values[0].Nil? && Measured(fields[0]) then Four(|bodies[0]|) else [])
      + LengthTable(fields[1..], values[1..], bodies[1..])
  }

  function Joined(bodies: seq<seq<byte>>): seq<byte> {
    if bodies == [] then [] else bodies[0] + Joined(bodies[1..])
  }

  // ---------- the parts of the layout ----------

  lemma Halved(b: nat, p: nat)
    requires p in {1, 2, 4, 8, 16, 32, 64}
    ensures b / 2 / p == b / (2 * p)
  {
    match p {
      case 1 => assert b / 2 / 1 == b / 2;
      case 2 => assert b / 2 / 2 == b / 4;
      case 4 => assert b / 2 / 4 == b / 8;
      case 8 => assert b / 2 / 8 == b / 16;
      case 16 => assert b / 2 / 16 == b / 32;
      case 32 => assert b / 2 / 32 == b / 64;
      case 64 => assert b / 2 / 64 == b / 128;
    }
  }

  lemma {:induction false} BitIsDigit(b: nat, k: nat)
    requires k < 8
    ensures Bit(b, k) <==> b / BIT_VALUES[k] % 2 == 1
  {
    if k > 0 {
      BitIsDigit(b / 2, k - 1);
      Halved(b, BIT_VALUES[k - 1]);
      assert BIT_VALUES[k] == 2 * BIT_VALUES[k - 1];
    }
  }

  lemma MeasuredExactly(t: FieldType)
    requires Valid(t)
    ensures Measured(t) <==> !IsFixed(t)
  {
  }

  function BodyOf(cell: Cell): seq<byte> {
    if cell.Some? then cell.value else []
  }

  lemma {:induction false} PayloadJoined(cells: seq<Cell>, bodies: seq<seq<byte>>)
    requires |bodies| == |cells| && forall i :: 0 <= i < |cells| ==> bodies[i] == BodyOf(cells[i])
    ensures Payload(cells) == Joined(bodies)
  {
    if cells != [] {
      PayloadJoined(cells[1..], bodies[1..]);
    }
  }

  lemma {:induction false} LengthsTable(fields: seq<FieldType>, values: seq<Value>, cells: seq<Cell>,
                                        bodies: seq<seq<byte>>)
    requires ValidFields(fields) && |fields| == |values| == |cells| == |bodies|
    requires forall i :: 0 <= i < |cells| ==> bodies[i] == BodyOf(cells[i]) && (cells[i].None? <==> values[i].Nil?)
    ensures Lengths(fields, cells) == LengthTable(fields, values, bodies)
  {
    hide Four, LE32, Measured, IsFixed, U32;
    if fields != [] {
      MeasuredExactly(fields[0]);
      LEFour(U32(|bodies[0]|));
      FourWraps(|bodies[0]|);
      LengthsTable(fields[1..], values[1..], cells[1..], bodies[1..]);
    }
  }

  lemma WidthOfBits(count: nat) returns (k: nat)
    ensures 8 * (k - 1) < count <= 8 * k
    ensures k == NullBitsSize(count)
  {
    k := NullBitsSize(count);
  }

  lemma WidthUnique(count: nat, k: nat)
    requires 8 * (k - 1) < count <= 8 * k
    ensures NullBitsSize(count) == k
  {
  }

  lemma NullBits(cells: seq<Cell>, i: nat)
    requires i / 8 < NullBitsSize(|cells|)
    ensures
      var bits := NullBitmap(cells, |cells|);
      BitSet(bits, i) <==> i < |cells| && cells[i].None?
  {
    hide Bit, NullByteFrom, BIT_VALUES;
    NullByteBit(cells, 8 * (i / 8), 0, i % 8);
    BitIsDigit(NullBitmap(cells, |cells|)[i / 8], i % 8);
  }

  lemma FrontBits(front: seq<byte>, rest: seq<byte>, i: nat)
    requires i / 8 < |front|
    ensures BitSet(front + rest, i) == BitSet(front, i)
  {
  }

  /**
   An encoded row: k bytes of null bits, as few as hold a bit for each column, bit i % 8 of byte i / 8 for column i and
   spare bits clear; in the indexed layout the widths; then the columns in order.
   */
  lemma RowOnTheWire(fields: seq<FieldType>, values: seq<Value>, indexed: bool)
    returns (k: nat, bodies: seq<seq<byte>>)
    requires EncodeRow(fields, values, indexed).Ok?
    ensures Bodies(fields, values, indexed, bodies) && 8 * (k - 1) < |fields| <= 8 * k
    ensures
      var out := EncodeRow(fields, values, indexed).value;
      && |out| >= k
      && (forall i :: 0 <= i < |fields| ==> (BitSet(out, i) <==> values[i].Nil?))
      && (forall i :: |fields| <= i < 8 * k ==> !BitSet(out, i))
      && out[k..] == (if indexed then LengthTable(fields, values, bodies) else []) + Joined(bodies)
  {
    hide EncodeValue, BitSet, NullBitmap, Lengths, LengthTable, Joined, Payload, Bodies;
    var cells := EncodeCells(fields, values, indexed).value;
    k := WidthOfBits(|fields|);
    bodies := CellBodies(fields, values, indexed);
    hide NullBitsSize;
    PayloadJoined(cells, bodies);
    LengthsTable(fields, values, cells, bodies);
    var bits := NullBitmap(cells, |fields|);
    var rest := (if indexed then Lengths(fields, cells) else []) + Payload(cells);
    var out := EncodeRow(fields, values, indexed).value;
    assert out == bits + rest;
    forall i | 0 <= i < 8 * k ensures BitSet(out, i) <==> i < |fields| && values[i].Nil? {
      NullBits(cells, i);
      FrontBits(bits, rest, i);
    }
  }

  lemma CellBodies(fields: seq<FieldType>, values: seq<Value>, indexed: bool) returns (bodies: seq<seq<byte>>)
    requires |values| == |fields| && EncodeCells(fields, values, indexed).Ok?
    ensures Bodies(fields, values, indexed, bodies) && |bodies| == |fields|
    ensures
      var cells := EncodeCells(fields, values, indexed).value;
      forall i :: 0 <= i < |fields| ==> bodies[i] == BodyOf(cells[i]) && (cells[i].None? <==> values[i].Nil?)
  {
    hide EncodeValue, EncodeCells;
    var cells := EncodeCells(fields, values, indexed).value;
    CellsEncoded(fields, values, indexed);
    bodies := seq(|fields|, i requires 0 <= i < |fields| => BodyOf(cells[i]));
    forall i | 0 <= i < |fields|
      ensures cells[i].None? <==> values[i].Nil?
      ensures if values[i].Nil? then bodies[i] == [] else EncodeValue(fields[i], values[i], indexed) == Ok(bodies[i])
    {
      assert CellAt(fields[i], values[i], indexed) == Ok(cells[i]);
    }
  }

  // ---------- rows that are refused ----------

  lemma {:induction false} CellsRefused(fields: seq<FieldType>, values: seq<Value>, indexed: bool) returns (at: nat)
    requires |values| == |fields| && EncodeCells(fields, values, indexed).Err?
    ensures at < |fields| && !values[at].Nil?
    ensures EncodeValue(fields[at], values[at], indexed) == Err(EncodeCells(fields, values, indexed).error)
    ensures forall i :: 0 <= i < at && !values[i].Nil? ==> EncodeValue(fields[i], values[i], indexed).Ok?
  {
    hide EncodeValue;
    if !values[0].Nil? && EncodeValue(fields[0], values[0], indexed).Err? {
      at := 0;
    } else {
      var later := CellsRefused(fields[1..], values[1..], indexed);
      at := later + 1;
    }
  }

  /** A row is refused for its schema, for the number of its values, or for the first value its column does not take. */
  lemma RowRefused(fields: seq<FieldType>, values: seq<Value>, indexed: bool) returns (at: nat)
    requires EncodeRow(fields, values, indexed).Err?
    ensures
      var error := EncodeRow(fields, values, indexed).error;
      if !ValidFields(fields) then error == InvalidSchema
      else if |values| != |fields| then error == ValueCountMismatch
      else
        && at < |fields| && !values[at].Nil? && EncodeValue(fields[at], values[at], indexed) == Err(error)
        && forall i :: 0 <= i < at && !values[i].Nil? ==> EncodeValue(fields[i], values[i], indexed).Ok?
  {
    hide EncodeCells, EncodeValue, Layout;
    if ValidFields(fields) && |values| == |fields| {
      at := CellsRefused(fields, values, indexed);
    } else {
      at := 0;
    }
  }

  /** The other way round: a row whose columns all take their values is encoded. */
  lemma RowAccepted(fields: seq<FieldType>, values: seq<Value>, indexed: bool)
    requires ValidFields(fields) && |values| == |fields|
    requires forall i :: 0 <= i < |fields| && !values[i].Nil? ==> EncodeValue(fields[i], values[i], indexed).Ok?
    ensures EncodeRow(fields, values, indexed).Ok?
  {
    if EncodeRow(fields, values, indexed).Err? {
      var at := RowRefused(fields, values, indexed);
    }
  }

  /** `part` is `t` or stands somewhere inside it. */
  predicate Inside(part: FieldType, t: FieldType)
    decreases t
  {
    || part == t
    || match t
       case ArrayType(element) => Inside(part, element)
       case MapType(key, val) => Inside(part, key) || Inside(part, val)
       case RowType(fields) => exists i :: 0 <= i < |fields| && Inside(part, fields[i])
       case _ => false
  }

  predicate Sensible(t: FieldType) {
    && (t.DecimalType? ==> 0 < t.precision && 0 <= t.scale <= t.precision)
    && (t.TimestampNtzType? || t.TimestampLtzType? ==> 0 <= t.precision <= 9)
  }

  /** A schema is refused if and only if some decimal or timestamp, at any depth, has digits it cannot have. */
  lemma {:induction false} ValidExactly(t: FieldType)
    ensures Valid(t) <==> forall part :: Inside(part, t) ==> Sensible(part)
    decreases t
  {
    hide Sensible;
    assert Inside(t, t);
    match t {
      case ArrayType(element) =>
        ValidExactly(element);
        NestedSensible(t);
      case MapType(key, val) =>
        ValidExactly(key);
        ValidExactly(val);
        NestedSensible(t);
      case RowType(fields) =>
        forall i | 0 <= i < |fields|
          ensures Valid(fields[i]) <==> forall part :: Inside(part, fields[i]) ==> Sensible(part)
        {
          ValidExactly(fields[i]);
        }
        NestedSensible(t);
      case _ => FlatSensible(t);
    }
  }

  lemma NestedSensible(t: FieldType)
    requires Nested(t)
    ensures Sensible(t)
  {
  }

  lemma FlatSensible(t: FieldType)
    requires !Nested(t)
    ensures Sensible(t) <==> Valid(t)
  {
  }

  // ---------- nested values ----------

  /** An element, key or value: 1 for a null, else 0 and its bytes in the indexed layout. */
  predicate Element(t: FieldType, v: Value, body: seq<byte>) {
    if v.Nil? then body == [1]
    else body != [] && body[0] == 0 && EncodeValue(t, v, true) == Ok(body[1..])
  }

  /** Each body behind its length in four bytes. */
  function Frames(bodies: seq<seq<byte>>): seq<byte> {
    if bodies == [] then [] else Four(|bodies[0]|) + bodies[0] + Frames(bodies[1..])
  }

  lemma FramedFour(bs: seq<byte>)
    ensures Framed(bs) == Four(|bs|) + bs
  {
    hide LE32, Four, U32;
    LEFour(U32(|bs|));
    FourWraps(|bs|);
  }

  lemma ElementExactly(t: FieldType, v: Value, body: seq<byte>)
    ensures EncodeGeneric(t, v) == Ok(body) <==> Element(t, v, body)
  {
    hide EncodeValue;
    if body != [] {
      assert body == [body[0]] + body[1..];
    }
  }

  lemma {:induction false} ItemsOnTheWire(t: FieldType, items: seq<Value>) returns (bodies: seq<seq<byte>>)
    requires EncodeItems(t, items).Ok?
    ensures |bodies| == |items| && forall i :: 0 <= i < |items| ==> Element(t, items[i], bodies[i])
    ensures EncodeItems(t, items).value == Frames(bodies)
    decreases |items|
  {
    hide EncodeGeneric, Element, Framed;
    if items == [] {
      bodies := [];
    } else {
      var head := EncodeGeneric(t, items[0]).value;
      ElementExactly(t, items[0], head);
      FramedFour(head);
      var rest := ItemsOnTheWire(t, items[1..]);
      bodies := [head] + rest;
      assert bodies[1..] == rest;
    }
  }

  /** An array: the number of its elements, then each behind its length. */
  lemma ArrayOnTheWire(element: FieldType, v: Value, indexed: bool) returns (bodies: seq<seq<byte>>)
    requires EncodeValue(ArrayType(element), v, indexed).Ok?
    ensures v.ListV? && |bodies| == |v.items|
    ensures forall i :: 0 <= i < |bodies| ==> Element(element, v.items[i], bodies[i])
    ensures EncodeValue(ArrayType(element), v, indexed).value == Four(|v.items|) + Frames(bodies)
  {
    hide EncodeItems, Element, Frames, LE32, Four, U32;
    bodies := ItemsOnTheWire(element, v.items);
    LEFour(U32(|v.items|));
    FourWraps(|v.items|);
  }

  lemma EntriesUnfold(key: FieldType, val: FieldType, entries: seq<Entry>)
    requires entries != []
    ensures
      var k, v := EncodeGeneric(key, entries[0].key), EncodeGeneric(val, entries[0].val);
      var rest, all := EncodeEntries(key, val, entries[1..]), EncodeEntries(key, val, entries);
      && (all.Ok? <==> k.Ok? && v.Ok? && rest.Ok?)
      && (all.Ok? ==> all.value == Framed(k.value) + Framed(v.value) + rest.value)
  {
    hide EncodeGeneric, Framed;
  }

  lemma {:induction false} EntriesOnTheWire(key: FieldType, val: FieldType, entries: seq<Entry>)
    returns (bodies: seq<seq<byte>>)
    requires EncodeEntries(key, val, entries).Ok?
    ensures |bodies| == 2 * |entries|
    ensures forall i :: 0 <= i < |entries| ==>
              Element(key, entries[i].key, bodies[2 * i]) && Element(val, entries[i].val, bodies[2 * i + 1])
    ensures EncodeEntries(key, val, entries).value == Frames(bodies)
    decreases |entries|
  {
    hide EncodeGeneric, Element, Framed;
    if entries == [] {
      bodies := [];
    } else {
      EntriesUnfold(key, val, entries);
      hide EncodeEntries, Frames;
      var k, v := EncodeGeneric(key, entries[0].key).value, EncodeGeneric(val, entries[0].val).value;
      var rest := EntriesOnTheWire(key, val, entries[1..]);
      bodies := [k, v] + rest;
      FramedFour(k);
      FramedFour(v);
      TwoFrames(k, v, rest);
      ElementExactly(key, entries[0].key, k);
      ElementExactly(val, entries[0].val, v);
      PairsInFront(key, val, entries, k, v, rest);
    }
  }

  lemma PairsInFront(key: FieldType, val: FieldType, entries: seq<Entry>, k: seq<byte>, v: seq<byte>,
                     rest: seq<seq<byte>>)
    requires entries != [] && |rest| == 2 * (|entries| - 1)
    requires Element(key, entries[0].key, k) && Element(val, entries[0].val, v)
    requires forall i :: 0 <= i < |entries| - 1 ==>
               Element(key, entries[1..][i].key, rest[2 * i]) && Element(val, entries[1..][i].val, rest[2 * i + 1])
    ensures
      var bodies := [k, v] + rest;
      forall i :: 0 <= i < |entries| ==>
        Element(key, entries[i].key, bodies[2 * i]) && Element(val, entries[i].val, bodies[2 * i + 1])
  {
    hide Element;
    var bodies := [k, v] + rest;
    forall i | 0 <= i < |entries|
      ensures Element(key, entries[i].key, bodies[2 * i]) && Element(val, entries[i].val, bodies[2 * i + 1])
    {
      if i > 0 {
        assert entries[i] == entries[1..][i - 1];
        assert bodies[2 * i] == rest[2 * (i - 1)] && bodies[2 * i + 1] == rest[2 * (i - 1) + 1];
      }
    }
  }

  lemma TwoFrames(a: seq<byte>, b: seq<byte>, rest: seq<seq<byte>>)
    ensures Frames([a, b] + rest) == (Four(|a|) + a) + (Four(|b|) + b) + Frames(rest)
  {
    hide Four;
    var all := [a, b] + rest;
    assert all[1..] == [b] + rest && all[1..][1..] == rest;
    assert Frames(all[1..]) == Four(|b|) + b + Frames(rest);
    Reassociate(Four(|a|) + a, Four(|b|) + b, Frames(rest));
  }

  /** A map: the number of its entries, then keys and values in turn, each behind its length. */
  lemma MapOnTheWire(key: FieldType, val: FieldType, v: Value, indexed: bool) returns (bodies: seq<seq<byte>>)
    requires EncodeValue(MapType(key, val), v, indexed).Ok?
    ensures v.MapV? && |bodies| == 2 * |v.entries|
    ensures forall i :: 0 <= i < |v.entries| ==>
              Element(key, v.entries[i].key, bodies[2 * i]) && Element(val, v.entries[i].val, bodies[2 * i + 1])
    ensures EncodeValue(MapType(key, val), v, indexed).value == Four(|v.entries|) + Frames(bodies)
  {
    hide EncodeEntries, Element, Frames, LE32, Four, U32;
    bodies := EntriesOnTheWire(key, val, v.entries);
    LEFour(U32(|v.entries|));
    FourWraps(|v.entries|);
  }

  /** A row inside a row is encoded like one that stands alone, in the layout of the row around it. */
  lemma RowInRow(fields: seq<FieldType>, values: seq<Value>, indexed: bool)
    ensures EncodeValue(RowType(fields), ListV(values), indexed) == EncodeRow(fields, values, indexed)
  {
    hide EncodeRow;
  }

  /** An element is taken if it is nil or its column takes it. */
  predicate Taken(t: FieldType, v: Value) {
    v.Nil? || EncodeValue(t, v, true).Ok?
  }

  predicate AllTaken(t: FieldType, items: seq<Value>) {
    forall i :: 0 <= i < |items| ==> Taken(t, items[i])
  }

  predicate AllEntriesTaken(key: FieldType, val: FieldType, entries: seq<Entry>) {
    forall e :: e in entries ==> EntryTaken(key, val, e)
  }

  predicate EntryTaken(key: FieldType, val: FieldType, e: Entry) {
    Taken(key, e.key) && Taken(val, e.val)
  }

  lemma AllTakenStep(t: FieldType, items: seq<Value>)
    requires items != []
    ensures AllTaken(t, items) <==> Taken(t, items[0]) && AllTaken(t, items[1..])
  {
    hide Taken;
    assert forall i :: 0 < i < |items| ==> items[i] == items[1..][i - 1];
    assert forall i :: 0 <= i < |items[1..]| ==> items[1..][i] == items[i + 1];
  }

  lemma AllEntriesTakenStep(key: FieldType, val: FieldType, entries: seq<Entry>)
    requires entries != []
    ensures AllEntriesTaken(key, val, entries)
       <==> EntryTaken(key, val, entries[0]) && AllEntriesTaken(key, val, entries[1..])
  {
    hide EntryTaken;
    assert entries == [entries[0]] + entries[1..];
  }

  lemma TakenExactly(t: FieldType, v: Value)
    ensures EncodeGeneric(t, v).Ok? <==> Taken(t, v)
  {
    hide EncodeValue;
  }

  lemma {:induction false} ItemsAccepted(t: FieldType, items: seq<Value>)
    ensures EncodeItems(t, items).Ok? <==> AllTaken(t, items)
    decreases |items|
  {
    if items != [] {
      hide EncodeGeneric, Taken, AllTaken, Framed;
      AllTakenStep(t, items);
      TakenExactly(t, items[0]);
      ItemsAccepted(t, items[1..]);
    }
  }

  lemma NoEntriesAccepted(key: FieldType, val: FieldType)
    ensures EncodeEntries(key, val, []).Ok? && AllEntriesTaken(key, val, [])
  {
  }

  lemma {:induction false} EntriesAccepted(key: FieldType, val: FieldType, entries: seq<Entry>)
    ensures EncodeEntries(key, val, entries).Ok? <==> AllEntriesTaken(key, val, entries)
    decreases |entries|
  {
    hide EncodeGeneric, Taken, AllEntriesTaken, Framed, EncodeEntries;
    if entries == [] {
      NoEntriesAccepted(key, val);
    } else {
      EntriesUnfold(key, val, entries);
      AllEntriesTakenStep(key, val, entries);
      TakenExactly(key, entries[0].key);
      TakenExactly(val, entries[0].val);
      EntriesAccepted(key, val, entries[1..]);
    }
  }

  /** Which arrays and maps are encoded; a nested row is encoded like a row. */
  lemma NestedAccepted(t: FieldType, v: Value, indexed: bool)
    ensures t.ArrayType? ==>
              (EncodeValue(t, v, indexed).Ok?
               <==> v.ListV? && AllTaken(t.element, v.items))
    ensures t.MapType? ==>
              (EncodeValue(t, v, indexed).Ok?
               <==> v.MapV? && AllEntriesTaken(t.key, t.val, v.entries))
    ensures t.RowType? ==>
              (EncodeValue(t, v, indexed).Ok? <==> v.ListV? && EncodeRow(t.fields, v.items, indexed).Ok?)
  {
    hide EncodeItems, EncodeEntries, EncodeRow, LE32, AllTaken, AllEntriesTaken;
    if t.ArrayType? && v.ListV? {
      ItemsAccepted(t.element, v.items);
    } else if t.MapType? && v.MapV? {
      EntriesAccepted(t.key, t.val, v.entries);
    }
  }
}

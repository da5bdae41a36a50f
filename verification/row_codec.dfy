/**
 The row codec as the source runs it (internal/codec/row/row.go): loops that append to buffers, set null bits in
 place and advance an offset. Each method computes the function of RowLayout or LookupKey it is named after.
 */
module RowCodec {
  import opened Bits
  import opened Bytes
  import opened FieldTypes
  import opened Results
  import opened RowBitmap
  import L = RowLayout
  import K = LookupKey

  /** A loop's state: elements already produced, in front of what is still to come. */
  function Prepended<T>(done: seq<T>, rest: Result<seq<T>>): Result<seq<T>> {
    match rest
    case Ok(more) => Ok(done + more)
    case Err(e) => Err(e)
  }

  lemma PrependedStep<T>(done: seq<T>, x: T, rest: Result<seq<T>>)
    ensures Prepended(done, Prepended([x], rest)) == Prepended(done + [x], rest)
  {
    if rest.Ok? {
      assert done + ([x] + rest.value) == (done + [x]) + rest.value;
    }
  }

  lemma PrependedNothing<T>(done: seq<T>, rest: Result<seq<T>>)
    ensures Prepended([], rest) == rest && Prepended(done, Ok([])) == Ok(done)
  {
    if rest.Ok? {
      assert [] + rest.value == rest.value;
    }
    assert done + [] == done;
  }

  // ---------- encoding ----------

  method EncodeValue(t: FieldType, v: Value, indexed: bool) returns (r: Result<seq<byte>>)
    ensures r == L.EncodeValue(t, v, indexed)
    decreases t, 1
  {
    match t {
      case ArrayType(element) =>
        if !v.ListV? {
          return Err(TypeMismatch);
        }
        r := EncodeLengthPrefixedCollection(element, v.items);
      case MapType(key, val) =>
        if !v.MapV? {
          return Err(TypeMismatch);
        }
        r := EncodeMap(key, val, v.entries);
      case RowType(fields) =>
        if !v.ListV? {
          return Err(TypeMismatch);
        }
        r := EncodeRow(fields, v.items, indexed);
      case _ => r := L.EncodeScalar(t, v, indexed);
    }
  }

  method EncodeGenericField(t: FieldType, v: Value) returns (r: Result<seq<byte>>)
    ensures r == L.EncodeGeneric(t, v)
    decreases t, 2
  {
    hide L.EncodeValue;
    if v.Nil? {
      return Ok([1]);
    }
    var payload := EncodeValue(t, v, true);
    if payload.Err? {
      return payload;
    }
    return Ok([0] + payload.value);
  }

  function Count(n: nat, body: Result<seq<byte>>): Result<seq<byte>> {
    match body
    case Ok(bs) => Ok(LE32(U32(n)) + bs)
    case Err(e) => Err(e)
  }

  method EncodeLengthPrefixedCollection(t: FieldType, items: seq<Value>) returns (r: Result<seq<byte>>)
    ensures r == Count(|items|, L.EncodeItems(t, items))
    decreases t, 3
  {
    hide LE32, U32, L.EncodeGeneric, L.Framed;
    var buf := LE32(U32(|items|));
    ghost var body: seq<byte> := [];
    assert items[0..] == items;
    PrependedNothing([], L.EncodeItems(t, items));
    for i := 0 to |items|
      invariant buf == LE32(U32(|items|)) + body
      invariant L.EncodeItems(t, items) == Prepended(body, L.EncodeItems(t, items[i..]))
    {
      assert items[i..][0] == items[i] && items[i..][1..] == items[i + 1..];
      var payload := EncodeGenericField(t, items[i]);
      if payload.Err? {
        return payload;
      }
      PrependedAppend(body, L.Framed(payload.value), L.EncodeItems(t, items[i + 1..]));
      AppendFramed(LE32(U32(|items|)), body, payload.value);
      buf := buf + LE32(U32(|payload.value|));
      buf := buf + payload.value;
      body := body + L.Framed(payload.value);
    }
    PrependedNothing(body, Ok([]));
    return Ok(buf);
  }

  lemma AppendFramed(front: seq<byte>, body: seq<byte>, part: seq<byte>)
    ensures front + body + LE32(U32(|part|)) + part == front + (body + L.Framed(part))
  {
  }

  lemma PrependedAppend(done: seq<byte>, part: seq<byte>, rest: Result<seq<byte>>)
    ensures Prepended(done, Prepended(part, rest)) == Prepended(done + part, rest)
  {
    if rest.Ok? {
      assert done + (part + rest.value) == (done + part) + rest.value;
    }
  }

  /** encodeMap, over one iteration order of the map. */
  method EncodeMap(key: FieldType, val: FieldType, entries: seq<Entry>) returns (r: Result<seq<byte>>)
    ensures r == Count(|entries|, L.EncodeEntries(key, val, entries))
    decreases MapType(key, val), 0
  {
    hide LE32, U32, L.EncodeGeneric, L.Framed;
    var buf := LE32(U32(|entries|));
    ghost var body: seq<byte> := [];
    assert entries[0..] == entries;
    PrependedNothing([], L.EncodeEntries(key, val, entries));
    for i := 0 to |entries|
      invariant buf == LE32(U32(|entries|)) + body
      invariant L.EncodeEntries(key, val, entries) == Prepended(body, L.EncodeEntries(key, val, entries[i..]))
    {
      assert entries[i..][0] == entries[i];
      var keyPayload := EncodeGenericField(key, entries[i].key);
      if keyPayload.Err? {
        return keyPayload;
      }
      var valPayload := EncodeGenericField(val, entries[i].val);
      if valPayload.Err? {
        return valPayload;
      }
      ghost var part := L.Framed(keyPayload.value) + L.Framed(valPayload.value);
      EncodeEntriesStep(key, val, entries, i, keyPayload.value, valPayload.value);
      PrependedAppend(body, part, L.EncodeEntries(key, val, entries[i + 1..]));
      AppendTwoFramed(LE32(U32(|entries|)), body, keyPayload.value, valPayload.value);
      buf := buf + LE32(U32(|keyPayload.value|));
      buf := buf + keyPayload.value;
      buf := buf + LE32(U32(|valPayload.value|));
      buf := buf + valPayload.value;
      body := body + part;
    }
    PrependedNothing(body, Ok([]));
    return Ok(buf);
  }

  lemma EncodeEntriesStep(key: FieldType, val: FieldType, entries: seq<Entry>, i: nat, k: seq<byte>, v: seq<byte>)
    requires i < |entries|
    requires L.EncodeGeneric(key, entries[i].key) == Ok(k) && L.EncodeGeneric(val, entries[i].val) == Ok(v)
    ensures L.EncodeEntries(key, val, entries[i..])
         == Prepended(L.Framed(k) + L.Framed(v), L.EncodeEntries(key, val, entries[i + 1..]))
  {
    hide L.EncodeGeneric, L.Framed;
    assert entries[i..][1..] == entries[i + 1..];
  }

  lemma AppendTwoFramed(front: seq<byte>, body: seq<byte>, a: seq<byte>, b: seq<byte>)
    ensures front + body + LE32(U32(|a|)) + a + LE32(U32(|b|)) + b == front + (body + (L.Framed(a) + L.Framed(b)))
  {
    hide LE32, U32, L.Framed;
    AppendFramed(front, body, a);
    AppendFramed(front, body + L.Framed(a), b);
    assert body + L.Framed(a) + L.Framed(b) == body + (L.Framed(a) + L.Framed(b));
  }

  /** setNullBit, in place. */
  method SetNullBit(bits: array<byte>, index: nat)
    requires index / 8 < bits.Length
    modifies bits
    ensures 0 <= OrBit(old(bits[index / 8]), index % 8) < 256
    ensures bits[..] == old(bits[..])[index / 8 := OrBit(old(bits[index / 8]), index % 8)]
  {
    Pow2Eight();
    OrBitRange(bits[index / 8], index % 8, 8);
    bits[index / 8] := OrBit(bits[index / 8], index % 8);
  }

  /** The state of encodeRow's loop after the columns in `cells`. */
  ghost predicate RowSoFar(fields: seq<FieldType>, values: seq<Value>, indexed: bool, cells: seq<L.Cell>,
                           nullBits: seq<byte>, variableLengths: seq<byte>, payload: seq<byte>)
    requires |values| == |fields|
  {
    var i := |cells|;
    && i <= |fields|
    && nullBits == L.NullBitmap(cells, |fields|)
    && variableLengths == (if indexed then L.Lengths(fields[..i], cells) else [])
    && payload == L.Payload(cells)
    && L.EncodeCells(fields, values, indexed) == Prepended(cells, L.EncodeCells(fields[i..], values[i..], indexed))
  }

  lemma RowStart(fields: seq<FieldType>, values: seq<Value>, indexed: bool, nullBits: seq<byte>)
    requires |values| == |fields|
    requires |nullBits| == L.NullBitsSize(|fields|) && forall i :: 0 <= i < |nullBits| ==> nullBits[i] == 0
    ensures RowSoFar(fields, values, indexed, [], nullBits, [], [])
  {
    EmptyBitmap(nullBits, |fields|);
    assert fields[0..] == fields && values[0..] == values && fields[..0] == [];
    PrependedNothing([], L.EncodeCells(fields, values, indexed));
  }

  lemma EncodeCellsStep(fields: seq<FieldType>, values: seq<Value>, indexed: bool, i: nat, cell: L.Cell)
    requires |values| == |fields| && i < |fields|
    requires if values[i].Nil? then cell.None?
             else cell.Some? && L.EncodeValue(fields[i], values[i], indexed) == Ok(cell.value)
    ensures L.EncodeCells(fields[i..], values[i..], indexed)
         == Prepended([cell], L.EncodeCells(fields[i + 1..], values[i + 1..], indexed))
  {
    hide L.EncodeValue;
    assert fields[i..][1..] == fields[i + 1..] && values[i..][1..] == values[i + 1..];
  }

  /** One more column: its null bit, or its length entry and bytes. */
  lemma RowStep(fields: seq<FieldType>, values: seq<Value>, indexed: bool, cells: seq<L.Cell>, nullBits: seq<byte>,
                variableLengths: seq<byte>, payload: seq<byte>, cell: L.Cell)
    requires |values| == |fields| && RowSoFar(fields, values, indexed, cells, nullBits, variableLengths, payload)
    requires |cells| < |fields|
    requires
      var i := |cells|;
      if values[i].Nil? then cell.None?
      else cell.Some? && L.EncodeValue(fields[i], values[i], indexed) == Ok(cell.value)
    ensures
      var i := |cells|;
      cell.None? ==>
        && 0 <= OrBit(nullBits[i / 8], i % 8) < 256
        && RowSoFar(fields, values, indexed, cells + [cell], nullBits[i / 8 := OrBit(nullBits[i / 8], i % 8)],
                    variableLengths, payload)
    ensures
      var more := if indexed then L.LengthEntry(fields[|cells|], cell) else [];
      cell.Some? ==>
        RowSoFar(fields, values, indexed, cells + [cell], nullBits, variableLengths + more, payload + cell.value)
  {
    hide L.EncodeValue, L.EncodeCells, L.NullBitmap, L.Lengths, L.Payload, OrBit, LE32;
    var i := |cells|;
    EncodeCellsStep(fields, values, indexed, i, cell);
    PrependedStep(cells, cell, L.EncodeCells(fields[i + 1..], values[i + 1..], indexed));
    LengthsAppend(fields[..i], cells, fields[i], cell);
    PayloadAppend(cells, cell);
    if cell.None? {
      RowBitmap.SetNullBit(cells, |fields|);
    } else {
      SkipNullBit(cells, cell, |fields|);
    }
    assert fields[..i] + [fields[i]] == fields[..i + 1];
  }

  lemma RowFails(fields: seq<FieldType>, values: seq<Value>, indexed: bool, cells: seq<L.Cell>, nullBits: seq<byte>,
                 variableLengths: seq<byte>, payload: seq<byte>, error: Error)
    requires |values| == |fields| && RowSoFar(fields, values, indexed, cells, nullBits, variableLengths, payload)
    requires ValidFields(fields) && |cells| < |fields| && !values[|cells|].Nil?
    requires L.EncodeValue(fields[|cells|], values[|cells|], indexed) == Err(error)
    ensures L.EncodeRow(fields, values, indexed) == Err(error)
  {
    hide L.EncodeValue;
  }

  lemma RowDone(fields: seq<FieldType>, values: seq<Value>, indexed: bool, cells: seq<L.Cell>, nullBits: seq<byte>,
                variableLengths: seq<byte>, payload: seq<byte>)
    requires |values| == |fields| && RowSoFar(fields, values, indexed, cells, nullBits, variableLengths, payload)
    requires ValidFields(fields) && |cells| == |fields|
    ensures L.EncodeRow(fields, values, indexed)
         == Ok(nullBits + (if indexed then variableLengths else []) + payload)
  {
    assert fields[|fields|..] == [] && values[|fields|..] == [] && fields[..|fields|] == fields;
    PrependedNothing(cells, Ok([]));
    hide L.EncodeValue, L.NullBitmap, L.Lengths, L.Payload;
  }

  method EncodeRow(fields: seq<FieldType>, values: seq<Value>, indexed: bool) returns (r: Result<seq<byte>>)
    ensures r == L.EncodeRow(fields, values, indexed)
    decreases fields, 1
  {
    if !ValidFields(fields) {
      return Err(InvalidSchema);
    }
    if |values| != |fields| {
      return Err(ValueCountMismatch);
    }
    hide L.EncodeRow, L.EncodeValue, RowSoFar, OrBit, LE32;
    var nullBits := new byte[L.NullBitsSize(|values|)](_ => 0);
    var variableLengths: seq<byte>, payload: seq<byte> := [], [];
    ghost var cells: seq<L.Cell> := [];
    RowStart(fields, values, indexed, nullBits[..]);
    for i := 0 to |fields|
      invariant |cells| == i && nullBits.Length == L.NullBitsSize(|fields|)
      invariant RowSoFar(fields, values, indexed, cells, nullBits[..], variableLengths, payload)
    {
      if values[i].Nil? {
        RowStep(fields, values, indexed, cells, nullBits[..], variableLengths, payload, None);
        SetNullBit(nullBits, i);
        cells := cells + [None];
        continue;
      }
      var encoded := EncodeValue(fields[i], values[i], indexed);
      if encoded.Err? {
        RowFails(fields, values, indexed, cells, nullBits[..], variableLengths, payload, encoded.error);
        return encoded;
      }
      RowStep(fields, values, indexed, cells, nullBits[..], variableLengths, payload, Some(encoded.value));
      assert variableLengths + [] == variableLengths;
      if indexed && !IsFixed(fields[i]) {
        variableLengths := variableLengths + LE32(U32(|encoded.value|));
      }
      payload := payload + encoded.value;
      cells := cells + [Some(encoded.value)];
    }
    RowDone(fields, values, indexed, cells, nullBits[..], variableLengths, payload);
    var out := nullBits[..];
    assert out + [] == out;
    if indexed {
      out := out + variableLengths;
    }
    out := out + payload;
    return Ok(out);
  }

  lemma EmptyBitmap(bits: seq<byte>, count: nat)
    requires |bits| == L.NullBitsSize(count) && forall i :: 0 <= i < |bits| ==> bits[i] == 0
    ensures bits == L.NullBitmap([], count)
  {
    forall b | 0 <= b < |bits|
      ensures L.NullByte([], 8 * b) == 0
    {
      NoNullBits(8 * b, 0);
    }
  }

  lemma {:induction false} NoNullBits(base: nat, k: nat)
    requires k <= 8
    ensures L.NullByteFrom([], base, k) == 0
    decreases 8 - k
  {
    if k < 8 {
      NoNullBits(base, k + 1);
    }
  }

  lemma {:induction false} LengthsAppend(fields: seq<FieldType>, cells: seq<L.Cell>, field: FieldType, cell: L.Cell)
    requires |cells| == |fields|
    ensures L.Lengths(fields + [field], cells + [cell]) == L.Lengths(fields, cells) + L.LengthEntry(field, cell)
  {
    if fields == [] {
      assert [field][1..] == [] && [cell][1..] == [];
      assert L.Lengths([field], [cell]) == L.LengthEntry(field, cell) + L.Lengths([], []);
      assert [] + [field] == [field] && [] + [cell] == [cell];
    } else {
      assert (fields + [field])[1..] == fields[1..] + [field] && (cells + [cell])[1..] == cells[1..] + [cell];
      LengthsAppend(fields[1..], cells[1..], field, cell);
    }
  }

  lemma {:induction false} PayloadAppend(cells: seq<L.Cell>, cell: L.Cell)
    ensures L.Payload(cells + [cell]) == L.Payload(cells) + (if cell.Some? then cell.value else [])
  {
    if cells == [] {
      assert [cell][1..] == [] && [] + [cell] == [cell];
    } else {
      var head := if cells[0].Some? then cells[0].value else [];
      assert (cells + [cell])[0] == cells[0] && (cells + [cell])[1..] == cells[1..] + [cell];
      PayloadAppend(cells[1..], cell);
      Regroup(head, L.Payload(cells[1..]), if cell.Some? then cell.value else []);
    }
  }

  lemma Regroup(a: seq<byte>, b: seq<byte>, c: seq<byte>)
    ensures (a + b) + c == a + (b + c)
  {
  }

  /** Row.EncodeLookupKey. */
  method EncodeLookupKey(fields: seq<FieldType>, values: seq<Value>, columns: seq<int>) returns (r: Result<seq<byte>>)
    requires |values| == |fields|
    ensures r == K.EncodeLookupKey(fields, values, columns)
  {
    if |columns| == 0 {
      return Err(NoKeyColumns);
    }
    var buf: seq<byte> := [];
    assert columns[0..] == columns;
    PrependedNothing([], K.KeyParts(fields, values, columns));
    for i := 0 to |columns|
      invariant K.KeyParts(fields, values, columns) == Prepended(buf, K.KeyParts(fields, values, columns[i..]))
    {
      var idx := columns[i];
      assert columns[i..][0] == idx && columns[i..][1..] == columns[i + 1..];
      if idx < 0 || idx >= |values| {
        return Err(KeyColumnOutOfRange);
      }
      var part := K.EncodeKeyValue(fields[idx], values[idx]);
      if part.Err? {
        return part;
      }
      PrependedAppend(buf, part.value, K.KeyParts(fields, values, columns[i + 1..]));
      buf := buf + part.value;
    }
    PrependedNothing(buf, Ok([]));
    return Ok(buf);
  }

  // ---------- decoding ----------

  method DecodeValue(t: FieldType, payload: seq<byte>, indexed: bool) returns (r: Result<Value>)
    ensures r == L.DecodeValue(t, payload, indexed)
    decreases t, 2
  {
    match t {
      case ArrayType(element) => r := DecodeLengthPrefixedCollection(element, payload);
      case MapType(key, val) => r := DecodeMap(key, val, payload);
      case RowType(fields) =>
        var items := DecodeRow(fields, payload, indexed);
        if items.Err? {
          return Err(items.error);
        }
        r := Ok(ListV(items.value));
      case _ => r := L.DecodeScalar(t, payload, indexed);
    }
  }

  method DecodeGenericField(t: FieldType, payload: seq<byte>) returns (r: Result<Value>)
    ensures r == L.DecodeGeneric(t, payload)
    decreases t, 3
  {
    if |payload| == 0 {
      return Err(PayloadTooShort);
    }
    if payload[0] == 1 {
      return Ok(Nil);
    }
    r := DecodeValue(t, payload[1..], true);
  }

  /** The length-prefixed part at `off` and the offset after it, as the collection and map decoders cut it out. */
  function Part(payload: seq<byte>, off: nat): (r: Result<(seq<byte>, nat)>)
    requires off <= |payload|
    ensures r.Ok? ==> off < r.value.1 <= |payload|
  {
    if off + 4 > |payload| then Err(PayloadTruncated)
    else
      var n := Get32(payload[off..]);
      if off + 4 + n > |payload| then Err(PayloadTruncated) else Ok((payload[off + 4..off + 4 + n], off + 4 + n))
  }

  lemma UnframeAt(payload: seq<byte>, off: nat)
    requires off <= |payload|
    ensures
      L.Unframe(payload[off..]) ==
      match Part(payload, off)
      case Err(e) => Err(e)
      case Ok(part) => Ok((part.0, payload[part.1..]))
  {
    if off + 4 <= |payload| {
      var n := Get32(payload[off..]);
      hide Get32;
      if off + 4 + n <= |payload| {
        assert payload[off..][4..4 + n] == payload[off + 4..off + 4 + n];
        assert payload[off..][4 + n..] == payload[off + 4 + n..];
      }
    }
  }

  lemma NoItems(t: FieldType, payload: seq<byte>)
    ensures L.DecodeItems(t, 0, payload) == Ok([])
  {
  }

  lemma NoEntries(key: FieldType, val: FieldType, payload: seq<byte>, acc: seq<Entry>)
    ensures L.DecodeEntries(key, val, 0, payload, acc) == Ok(acc)
  {
  }

  lemma DecodeNested(t: FieldType, payload: seq<byte>)
    requires |payload| >= 4
    ensures t.ArrayType? ==>
              L.DecodeValue(t, payload, true) == AsListValue(L.DecodeItems(t.element, Get32(payload), payload[4..]))
    ensures t.MapType? ==>
              L.DecodeValue(t, payload, true)
              == AsMapValue(L.DecodeEntries(t.key, t.val, Get32(payload), payload[4..], []))
  {
    hide Get32, L.DecodeItems, L.DecodeEntries, L.DecodeScalar, L.DecodeRow;
  }

  lemma DecodeNestedTooShort(t: FieldType, payload: seq<byte>)
    requires t.ArrayType? || t.MapType?
    ensures |payload| < 4 ==> L.DecodeValue(t, payload, true) == Err(PayloadTooShort)
  {
    hide Get32, L.DecodeItems, L.DecodeEntries, L.DecodeScalar, L.DecodeRow;
  }

  lemma DecodeItemsStep(t: FieldType, count: nat, payload: seq<byte>, off: nat)
    requires count > 0 && off <= |payload|
    ensures
      var whole, item := L.DecodeItems(t, count, payload[off..]), FieldAt(t, payload, off);
      && (item.Err? ==> whole == Err(item.error))
      && (item.Ok? ==> whole == Prepended([item.value.0], L.DecodeItems(t, count - 1, payload[item.value.1..])))
  {
    hide FieldAt, L.DecodeFramed;
    DecodeFramedAt(t, payload, off);
  }

  function AsListValue(items: Result<seq<Value>>): Result<Value> {
    match items
    case Ok(list) => Ok(ListV(list))
    case Err(e) => Err(e)
  }

  function AsMapValue(entries: Result<seq<Entry>>): Result<Value> {
    match entries
    case Ok(list) => Ok(MapV(list))
    case Err(e) => Err(e)
  }

  /** The generic field at `off` and the offset after it. */
  function FieldAt(t: FieldType, payload: seq<byte>, off: nat): (r: Result<(Value, nat)>)
    requires off <= |payload|
    ensures r.Ok? ==> off < r.value.1 <= |payload|
  {
    var part :- Part(payload, off);
    var v :- L.DecodeGeneric(t, part.0);
    Ok((v, part.1))
  }

  lemma DecodeFramedAt(t: FieldType, payload: seq<byte>, off: nat)
    requires off <= |payload|
    ensures
      var field := FieldAt(t, payload, off);
      && (field.Err? ==> L.DecodeFramed(t, payload[off..]) == Err(field.error))
      && (field.Ok? ==> L.DecodeFramed(t, payload[off..]) == Ok((field.value.0, payload[field.value.1..])))
  {
    hide Part, L.Unframe, L.DecodeGeneric;
    UnframeAt(payload, off);
  }

  /** A length, the bytes it counts, and the field they hold, as both loops below read them. */
  method DecodeField(t: FieldType, payload: seq<byte>, off: nat) returns (r: Result<(Value, nat)>)
    requires off <= |payload|
    ensures r == FieldAt(t, payload, off)
    decreases t, 4
  {
    hide Get32, L.DecodeGeneric;
    if off + 4 > |payload| {
      return Err(PayloadTruncated);
    }
    var n := Get32(payload[off..]);
    if off + 4 + n > |payload| {
      return Err(PayloadTruncated);
    }
    var v := DecodeGenericField(t, payload[off + 4..off + 4 + n]);
    if v.Err? {
      return Err(v.error);
    }
    return Ok((v.value, off + 4 + n));
  }

  method DecodeLengthPrefixedCollection(t: FieldType, payload: seq<byte>) returns (r: Result<Value>)
    ensures r == L.DecodeValue(ArrayType(t), payload, true)
    decreases t, 5
  {
    hide FieldAt, L.DecodeItems;
    if |payload| < 4 {
      return Err(PayloadTooShort);
    }
    hide Get32, L.DecodeValue;
    var count, off: nat, out := Get32(payload), 4, [];
    ghost var whole := L.DecodeItems(t, count, payload[4..]);
    DecodeNested(ArrayType(t), payload);
    PrependedNothing([], whole);
    for i := 0 to count
      invariant 4 <= off <= |payload|
      invariant whole == Prepended(out, L.DecodeItems(t, count - i, payload[off..]))
    {
      DecodeItemsStep(t, count - i, payload, off);
      var item := DecodeField(t, payload, off);
      if item.Err? {
        return Err(item.error);
      }
      off := item.value.1;
      PrependedStep(out, item.value.0, L.DecodeItems(t, count - i - 1, payload[off..]));
      out := out + [item.value.0];
    }
    NoItems(t, payload[off..]);
    PrependedNothing(out, Ok([]));
    return Ok(ListV(out));
  }

  lemma DecodeEntriesUnfold(key: FieldType, val: FieldType, count: nat, payload: seq<byte>, acc: seq<Entry>)
    requires count > 0
    ensures
      var whole, k := L.DecodeEntries(key, val, count, payload, acc), L.DecodeFramed(key, payload);
      && (k.Err? ==> whole == Err(k.error))
      && (k.Ok? ==>
            var v := L.DecodeFramed(val, k.value.1);
            && (v.Err? ==> whole == Err(v.error))
            && (v.Ok? && Unhashable(k.value.0) ==> whole == Err(UnhashableKey))
            && (v.Ok? && !Unhashable(k.value.0) ==>
                  whole == L.DecodeEntries(key, val, count - 1, v.value.1, Put(acc, k.value.0, v.value.0))))
  {
    hide L.DecodeFramed, Put, Unhashable;
  }

  lemma DecodeEntriesStep(key: FieldType, val: FieldType, count: nat, payload: seq<byte>, off: nat, acc: seq<Entry>)
    requires count > 0 && off <= |payload|
    ensures
      var whole, k := L.DecodeEntries(key, val, count, payload[off..], acc), FieldAt(key, payload, off);
      && (k.Err? ==> whole == Err(k.error))
      && (k.Ok? ==>
            var v := FieldAt(val, payload, k.value.1);
            && (v.Err? ==> whole == Err(v.error))
            && (v.Ok? && Unhashable(k.value.0) ==> whole == Err(UnhashableKey))
            && (v.Ok? && !Unhashable(k.value.0) ==>
                  whole == L.DecodeEntries(key, val, count - 1, payload[v.value.1..],
                                           Put(acc, k.value.0, v.value.0))))
  {
    hide FieldAt, L.DecodeFramed, L.DecodeEntries, Put, Unhashable;
    DecodeEntriesUnfold(key, val, count, payload[off..], acc);
    DecodeFramedAt(key, payload, off);
    if FieldAt(key, payload, off).Ok? {
      DecodeFramedAt(val, payload, FieldAt(key, payload, off).value.1);
    }
  }

  method DecodeMap(key: FieldType, val: FieldType, payload: seq<byte>) returns (r: Result<Value>)
    ensures r == L.DecodeValue(MapType(key, val), payload, true)
    decreases MapType(key, val), 1
  {
    hide Get32, FieldAt, L.DecodeEntries, L.DecodeValue, L.DecodeFramed, L.DecodeScalar, L.DecodeRow, L.DecodeItems;
    hide Put, Unhashable, ValidFields, IsFixed;
    DecodeNestedTooShort(MapType(key, val), payload);
    if |payload| < 4 {
      return Err(PayloadTooShort);
    }
    var count, off: nat, result := Get32(payload), 4, [];
    ghost var whole := L.DecodeEntries(key, val, count, payload[4..], []);
    DecodeNested(MapType(key, val), payload);
    for i := 0 to count
      invariant 4 <= off <= |payload|
      invariant whole == L.DecodeEntries(key, val, count - i, payload[off..], result)
    {
      DecodeEntriesStep(key, val, count - i, payload, off, result);
      var k := DecodeField(key, payload, off);
      if k.Err? {
        return Err(k.error);
      }
      var item := DecodeField(val, payload, k.value.1);
      if item.Err? {
        return Err(item.error);
      }
      if Unhashable(k.value.0) {
        return Err(UnhashableKey);
      }
      off := item.value.1;
      result := Put(result, k.value.0, item.value.0);
    }
    NoEntries(key, val, payload[off..], result);
    return Ok(MapV(result));
  }

  /** ReadLengths with the lengths already read in front. */
  function LengthsSoFar(lens: seq<nat>, rest: Result<(seq<nat>, seq<byte>)>): Result<(seq<nat>, seq<byte>)> {
    match rest
    case Ok(parts) => Ok((lens + parts.0, parts.1))
    case Err(e) => Err(e)
  }

  lemma LengthsSoFarStep(lens: seq<nat>, n: nat, rest: Result<(seq<nat>, seq<byte>)>)
    ensures LengthsSoFar(lens, LengthsSoFar([n], rest)) == LengthsSoFar(lens + [n], rest)
  {
    if rest.Ok? {
      assert lens + ([n] + rest.value.0) == (lens + [n]) + rest.value.0;
    }
  }

  /** The first loop of decodeRow: the length table of an indexed row, which starts at `start`. */
  method ReadLengths(fields: seq<FieldType>, nulls: seq<byte>, payload: seq<byte>, start: nat)
    returns (r: Result<(seq<nat>, nat)>)
    requires |nulls| == L.NullBitsSize(|fields|) && start <= |payload|
    ensures r.Err? ==> L.ReadLengths(fields, 0, nulls, payload[start..]) == Err(r.error)
    ensures r.Ok? ==>
              && r.value.1 <= |payload|
              && L.ReadLengths(fields, 0, nulls, payload[start..]) == Ok((r.value.0, payload[r.value.1..]))
  {
    var lens: seq<nat>, off := [], start;
    ghost var whole := L.ReadLengths(fields, 0, nulls, payload[start..]);
    assert whole.Ok? ==> [] + whole.value.0 == whole.value.0;
    for i := 0 to |fields|
      invariant start <= off <= |payload| && |lens| == i
      invariant whole == LengthsSoFar(lens, L.ReadLengths(fields, i, nulls, payload[off..]))
    {
      var n: nat;
      if IsFixed(fields[i]) {
        n := L.FixedSize(fields[i]);
      } else if L.IsNullBit(nulls, i) {
        n := 0;
      } else {
        if off + 4 > |payload| {
          return Err(PayloadTruncated);
        }
        n := Get32(payload[off..]);
        assert payload[off..][4..] == payload[off + 4..];
        off := off + 4;
      }
      LengthsSoFarStep(lens, n, L.ReadLengths(fields, i + 1, nulls, payload[off..]));
      lens := lens + [n];
    }
    assert lens + [] == lens;
    return Ok((lens, off));
  }

  /** The column at `off` and the offset after it. */
  function CellAt(t: FieldType, width: Option<nat>, payload: seq<byte>, off: nat): (r: Result<(Value, nat)>)
    requires off <= |payload|
    ensures r.Ok? ==> off <= r.value.1 <= |payload|
  {
    var n :- L.CellWidth(t, width, payload[off..]);
    if off + n > |payload| then Err(PayloadTruncated)
    else
      var v :- L.DecodeValue(t, payload[off..off + n], width.Some?);
      Ok((v, off + n))
  }

  /** One round of decodeRow's second loop, for a column that is not null. */
  method DecodeCell(t: FieldType, width: Option<nat>, payload: seq<byte>, off: nat) returns (r: Result<(Value, nat)>)
    requires off <= |payload|
    ensures r == CellAt(t, width, payload, off)
    decreases t, 3
  {
    hide L.CompactedFieldSize, L.DecodeValue;
    var n: nat;
    if width.Some? {
      n := width.value;
    } else {
      var next := L.CompactedFieldSize(t, payload[off..]);
      if next.Err? {
        return Err(next.error);
      }
      n := next.value;
    }
    if off + n > |payload| {
      return Err(PayloadTruncated);
    }
    var v := DecodeValue(t, payload[off..off + n], width.Some?);
    if v.Err? {
      return Err(v.error);
    }
    return Ok((v.value, off + n));
  }

  /** The width column `i` has in the length table, if there is one. */
  function TableWidth(lens: Option<seq<nat>>, i: nat): Option<nat>
    requires lens.Some? ==> i < |lens.value|
  {
    if lens.Some? then Some(lens.value[i]) else None
  }

  lemma DecodeCellsStep(fields: seq<FieldType>, i: nat, nulls: seq<byte>, lens: Option<seq<nat>>, payload: seq<byte>,
                        off: nat)
    requires i < |fields| && |nulls| == L.NullBitsSize(|fields|) && off <= |payload|
    requires lens.Some? ==> |lens.value| == |fields|
    ensures
      var whole := L.DecodeCells(fields, i, nulls, lens, payload[off..]);
      var cell := CellAt(fields[i], TableWidth(lens, i), payload, off);
      if L.IsNullBit(nulls, i) then
        whole == Prepended([Nil], L.DecodeCells(fields, i + 1, nulls, lens, payload[off..]))
      else if cell.Err? then whole == Err(cell.error)
      else whole == Prepended([cell.value.0], L.DecodeCells(fields, i + 1, nulls, lens, payload[cell.value.1..]))
  {
    hide L.CellWidth, L.IsNullBit, L.DecodeValue, L.NullBitsSize, L.DecodeCells;
    DecodeCellsUnfold(fields, i, nulls, lens, payload[off..]);
    var width := L.CellWidth(fields[i], TableWidth(lens, i), payload[off..]);
    if width.Ok? && off + width.value <= |payload| {
      CutRest(payload, off, width.value);
    }
  }

  lemma DecodeCellsUnfold(fields: seq<FieldType>, i: nat, nulls: seq<byte>, lens: Option<seq<nat>>, rest: seq<byte>)
    requires i < |fields| && |nulls| == L.NullBitsSize(|fields|) && (lens.Some? ==> |lens.value| == |fields|)
    ensures
      var whole := L.DecodeCells(fields, i, nulls, lens, rest);
      if L.IsNullBit(nulls, i) then whole == Prepended([Nil], L.DecodeCells(fields, i + 1, nulls, lens, rest))
      else
        var width := L.CellWidth(fields[i], TableWidth(lens, i), rest);
        if width.Err? then whole == Err(width.error)
        else if width.value > |rest| then whole == Err(PayloadTruncated)
        else
          var head := L.DecodeValue(fields[i], rest[..width.value], lens.Some?);
          if head.Err? then whole == Err(head.error)
          else whole == Prepended([head.value], L.DecodeCells(fields, i + 1, nulls, lens, rest[width.value..]))
  {
    hide L.CellWidth, L.IsNullBit, L.DecodeValue, L.NullBitsSize;
  }

  lemma CutRest<T>(s: seq<T>, off: nat, n: nat)
    requires off + n <= |s|
    ensures s[off..][..n] == s[off..off + n] && s[off..][n..] == s[off + n..]
  {
  }

  lemma NoCells(fields: seq<FieldType>, nulls: seq<byte>, lens: Option<seq<nat>>, payload: seq<byte>)
    requires |nulls| == L.NullBitsSize(|fields|) && (lens.Some? ==> |lens.value| == |fields|)
    ensures L.DecodeCells(fields, |fields|, nulls, lens, payload) == Ok([])
  {
  }

  method DecodeRow(fields: seq<FieldType>, payload: seq<byte>, indexed: bool) returns (r: Result<seq<Value>>)
    ensures r == L.DecodeRow(fields, payload, indexed)
    decreases fields, 1
  {
    if !ValidFields(fields) {
      return Err(InvalidSchema);
    }
    var values := new Value[|fields|](_ => Nil);
    if |payload| < L.NullBitsSize(|fields|) {
      return Err(PayloadTooShort);
    }
    var nullBits := payload[..L.NullBitsSize(|fields|)];
    var off := |nullBits|;
    var lens: Option<seq<nat>> := None;
    if indexed {
      var table := ReadLengths(fields, nullBits, payload, off);
      if table.Err? {
        return Err(table.error);
      }
      lens, off := Some(table.value.0), table.value.1;
    }
    r := DecodeColumns(fields, nullBits, lens, payload, off, values);
  }

  /** The second loop of decodeRow, which fills `values`. */
  method DecodeColumns(fields: seq<FieldType>, nullBits: seq<byte>, lens: Option<seq<nat>>, payload: seq<byte>,
                       start: nat, values: array<Value>) returns (r: Result<seq<Value>>)
    requires |nullBits| == L.NullBitsSize(|fields|) && start <= |payload| && values.Length == |fields|
    requires lens.Some? ==> |lens.value| == |fields|
    requires forall j :: 0 <= j < |fields| ==> values[j] == Nil
    modifies values
    ensures r == L.DecodeCells(fields, 0, nullBits, lens, payload[start..])
    decreases fields, 0
  {
    var off: nat := start;
    ghost var whole := L.DecodeCells(fields, 0, nullBits, lens, payload[start..]);
    assert values[..0] == [];
    PrependedNothing([], whole);
    hide L.DecodeCells, L.IsNullBit, CellAt;
    for i := 0 to |fields|
      invariant off <= |payload|
      invariant forall j :: i <= j < |fields| ==> values[j] == Nil
      invariant whole == Prepended(values[..i], L.DecodeCells(fields, i, nullBits, lens, payload[off..]))
    {
      DecodeCellsStep(fields, i, nullBits, lens, payload, off);
      ghost var before := values[..i];
      assert values[..i + 1] == before + [values[i]];
      if L.IsNullBit(nullBits, i) {
        PrependedStep(before, Nil, L.DecodeCells(fields, i + 1, nullBits, lens, payload[off..]));
        continue;
      }
      var cell := DecodeCell(fields[i], TableWidth(lens, i), payload, off);
      if cell.Err? {
        return Err(cell.error);
      }
      values[i], off := cell.value.0, cell.value.1;
      assert values[..i + 1] == before + [values[i]];
      PrependedStep(before, values[i], L.DecodeCells(fields, i + 1, nullBits, lens, payload[off..]));
    }
    NoCells(fields, nullBits, lens, payload[off..]);
    PrependedNothing(values[..], Ok([]));
    assert values[..] == values[..|fields|];
    return Ok(values[..]);
  }
}

/**
 Which compacted rows come back. The encoder writes narrow decimals and timestamps in fixed bytes where the decoder
 reads varints (internal/codec/row/row.go:741-757, 1031-1036, 1066-1074), so a row with such columns comes back only
 in the cases stated here, and those are all.
 */
module RowCompactedLimits {
  import opened Bytes
  import opened CompactedColumns
  import opened CompactedPositions
  import opened CompactedSurvivors
  import opened FieldTypes
  import opened FixedAsVarint
  import opened Results
  import opened RowCompacted
  import opened RowExactness
  import opened RowLayout
  import opened RowRoundTrip
  import opened Varint

  /** Zero, false, or empty. */
  predicate ZeroValue(v: Value) {
    match v
    case BoolV(b) => !b
    case Int8V(i) => i == 0
    case Int16V(i) => i == 0
    case Int32V(i) => i == 0
    case Int64V(i) => i == 0
    case Float32V(bits) => bits == 0
    case Float64V(bits) => bits == 0
    case StringV(text) => text == []
    case BytesV(raw) => raw == []
    case DecimalV(unscaled, _) => unscaled == 0
    case TimestampNtzV(ms, _) => ms == 0
    case TimestampLtzV(ms, _) => ms == 0
    case _ => false
  }

  /** Every column is null or keeps a zero, and none is nested or a fine timestamp. */
  predicate ZeroRow(fields: seq<FieldType>, values: seq<Value>)
    requires |values| == |fields|
  {
    forall i :: 0 <= i < |fields| && !values[i].Nil? ==>
      (CompactSafe(fields[i]) || Narrow(fields[i])) && ZeroValue(Canon(fields[i], values[i]))
  }

  predicate SomeNarrow(fields: seq<FieldType>, values: seq<Value>)
    requires |values| == |fields|
  {
    exists i :: 0 <= i < |fields| && !values[i].Nil? && Narrow(fields[i])
  }

  /**
   The rows that come back: the first narrow column keeps 0 to 127 and only zeros follow it. A fine timestamp is in the
   way unless its bytes happen to be two varints, or would be with one zero more and a narrow zero behind it.
   */
  predicate ComesBack(fields: seq<FieldType>, values: seq<Value>)
    requires |values| == |fields|
  {
    fields == []
    || var t, v := fields[0], values[0];
       if v.Nil? || CompactSafe(t) then ComesBack(fields[1..], values[1..])
       else if Narrow(t) then 0 <= Number(Canon(t, v)) < 128 && ZeroRow(fields[1..], values[1..])
       else
         && Fine(t)
         && var bs := TimestampBytes(v);
            || (TwoVarints(bs) && ComesBack(fields[1..], values[1..]))
            || (TwoVarints(bs + [0]) && ZeroRow(fields[1..], values[1..]) && SomeNarrow(fields[1..], values[1..]))
  }

  /** Every string, byte string and wide decimal is shorter than 2^32 bytes. */
  predicate PrefixesFit(fields: seq<FieldType>, values: seq<Value>)
    requires |values| == |fields|
  {
    forall i :: 0 <= i < |fields| ==> PrefixFits(fields[i], values[i])
  }

  // ---------- a row and its columns ----------

  function LiveColumns(fields: seq<FieldType>, values: seq<Value>): seq<Column>
    requires |values| == |fields|
  {
    if fields == [] then []
    else if values[0].Nil? then LiveColumns(fields[1..], values[1..])
    else
      [Column(fields[0], values[0], EncodeValue(fields[0], values[0], false).GetOr([]))]
      + LiveColumns(fields[1..], values[1..])
  }

  lemma {:induction false} LiveWritten(fields: seq<FieldType>, values: seq<Value>)
    requires |values| == |fields| && EncodeCells(fields, values, false).Ok? && PrefixesFit(fields, values)
    ensures AllWritten(LiveColumns(fields, values))
    ensures Stream(LiveColumns(fields, values)) == Payload(EncodeCells(fields, values, false).value)
  {
    if fields != [] {
      var cells := EncodeCells(fields, values, false).value;
      var later := EncodeCells(fields[1..], values[1..], false).value;
      assert cells[1..] == later;
      LiveWritten(fields[1..], values[1..]);
      hide EncodeValue, EncodeCells, PrefixFits;
      if values[0].Nil? {
        assert [] + Payload(later) == Payload(later);
      } else {
        SplitColumns(LiveColumns(fields, values));
      }
    }
  }

  lemma OneMore(all: seq<Value>, i: nat, v: Value, rest: Result<seq<Value>>)
    requires i < |all|
    ensures rest.Ok? && [v] + rest.value == all[i..] <==> v == all[i] && rest == Ok(all[i + 1..])
  {
    TailStep(all, i);
    if rest.Ok? {
      assert ([v] + rest.value)[0] == v && ([v] + rest.value)[1..] == rest.value;
      assert all[i..][0] == all[i];
    }
  }

  /** The decoder on a column that is not null. */
  lemma DecodeLiveCell(fields: seq<FieldType>, i: nat, nulls: seq<byte>, payload: seq<byte>)
    requires i < |fields| && |nulls| == NullBitsSize(|fields|) && !IsNullBit(nulls, i)
    ensures
      var r := ReadColumn(fields[i], payload);
      var whole := DecodeCells(fields, i, nulls, None, payload);
      && (r.Err? ==> whole == Err(r.error))
      && (r.Ok? ==>
            var rest := DecodeCells(fields, i + 1, nulls, None, payload[r.value.1..]);
            && (rest.Err? ==> whole == Err(rest.error))
            && (rest.Ok? ==> whole == Ok([r.value.0] + rest.value)))
  {
    hide CompactedFieldSize, DecodeValue;
  }

  lemma DecodeNullCell(fields: seq<FieldType>, i: nat, nulls: seq<byte>, payload: seq<byte>)
    requires i < |fields| && |nulls| == NullBitsSize(|fields|) && IsNullBit(nulls, i)
    ensures
      var whole, rest := DecodeCells(fields, i, nulls, None, payload), DecodeCells(fields, i + 1, nulls, None, payload);
      && (rest.Err? ==> whole == Err(rest.error))
      && (rest.Ok? ==> whole == Ok([Nil] + rest.value))
  {
  }

  lemma ReadsFirst(columns: seq<Column>, payload: seq<byte>)
    requires columns != []
    ensures
      var r := ReadColumn(columns[0].t, payload);
      ReadsBack(columns, payload)
      <==> r.Ok? && r.value.0 == columns[0].Kept() && ReadsBack(columns[1..], payload[r.value.1..])
  {
    var r := ReadColumn(columns[0].t, payload);
    if r.Ok? && r.value.0 == columns[0].Kept() {
      assert Reads(columns[0], payload, r.value.1);
      ReadsBackStep(columns, payload, r.value.1);
    }
    hide ReadColumn;
  }

  /** Column by column, decoding the cells is reading the columns that are not null. */
  lemma {:induction false} DecodesLive(fields: seq<FieldType>, values: seq<Value>, i: nat, nulls: seq<byte>,
                                       payload: seq<byte>)
    requires |fields| == |values| && i <= |fields| && |nulls| == NullBitsSize(|fields|)
    requires forall j :: 0 <= j < |fields| ==> (IsNullBit(nulls, j) <==> values[j].Nil?)
    ensures DecodeCells(fields, i, nulls, None, payload) == Ok(CanonRow(fields, values)[i..])
       <==> ReadsBack(LiveColumns(fields[i..], values[i..]), payload)
    decreases |fields| - i
  {
    var canon := CanonRow(fields, values);
    hide ReadColumn, IsNullBit, EncodeValue;
    if i < |fields| {
      CanonRowAt(fields, values, i);
      hide CanonRow;
      TailStep(fields, i);
      TailStep(values, i);
      var live := LiveColumns(fields[i..], values[i..]);
      if values[i].Nil? {
        hide ReadsBack;
        DecodesLive(fields, values, i + 1, nulls, payload);
        DecodeNullCell(fields, i, nulls, payload);
        hide DecodeCells, LiveColumns;
        OneMore(canon, i, Nil, DecodeCells(fields, i + 1, nulls, None, payload));
      } else {
        assert live[1..] == LiveColumns(fields[i + 1..], values[i + 1..]);
        hide DecodeCells, ReadsBack, LiveColumns;
        DecodeLiveCell(fields, i, nulls, payload);
        ReadsFirst(live, payload);
        var r := ReadColumn(fields[i], payload);
        if r.Ok? {
          var (v, w) := r.value;
          DecodesLive(fields, values, i + 1, nulls, payload[w..]);
          OneMore(canon, i, v, DecodeCells(fields, i + 1, nulls, None, payload[w..]));
        }
      }
    } else {
      assert canon[i..] == [] && fields[i..] == [] && values[i..] == [];
    }
  }

  // ---------- zeros written and zeros kept ----------

  lemma FixedZero(n: uint64, width: nat)
    requires n < Pow256(width)
    ensures AllZero(LE(n, width)) <==> n == 0
  {
    FromLEOfLE(n, width);
    FromLEZero(LE(n, width));
    hide LE, FromLE;
  }

  lemma PlainZero(c: Column)
    requires Written(c) && (Plain(c.t) || c.t.BoolType?)
    ensures AllZero(c.code) <==> ZeroValue(c.Kept())
  {
    PowerValues();
    hide LE, Pow256;
    match c.t {
      case Int8Type => assert AllZero(c.code) <==> c.code[0] == 0;
      case Int16Type => FixedZero(U16(AsInt16(c.v).value), 2);
      case Float32Type => FixedZero(c.v.bits32, 4);
      case Float64Type => FixedZero(c.v.bits64, 8);
      case BoolType => assert AllZero(c.code) <==> c.code[0] == 0;
    }
  }

  lemma CountedZero(c: Column)
    requires Written(c) && Counted(c.t)
    ensures AllZero(c.code) <==> ZeroValue(c.Kept())
  {
    PutUvarintZero(if c.t.Int64Type? then U64(AsInt64(c.v).value) else U32(AsInt32(c.v).value));
    hide PutUvarint;
  }

  lemma PrefixedZero(c: Column)
    requires Written(c) && Prefixed(c.t)
    ensures AllZero(c.code) <==> ZeroValue(c.Kept())
  {
    PrefixedCode(c);
    EmptyIfZero(RawBytes(c));
    hide PutUvarint;
    assert PutUvarint(0) == [0] by {
      PutUvarintZero(0);
    }
  }

  /** A column is written in zeros exactly when it keeps a zero. */
  lemma ZeroCode(c: Column)
    requires Written(c) && (CompactSafe(c.t) || Narrow(c.t))
    ensures AllZero(c.code) <==> ZeroValue(c.Kept())
  {
    EveryKind(c.t);
    hide AllZero;
    if Counted(c.t) {
      CountedZero(c);
    } else if Prefixed(c.t) {
      PrefixedZero(c);
    } else if Narrow(c.t) {
      NarrowCode(c);
      LE64Zero(U64(Number(c.Kept())));
    } else {
      PlainZero(c);
    }
  }

  lemma {:induction false} ZeroRowColumns(fields: seq<FieldType>, values: seq<Value>)
    requires |values| == |fields| && AllWritten(LiveColumns(fields, values))
    ensures ZeroRow(fields, values) <==> ZeroColumns(LiveColumns(fields, values))
    ensures SomeNarrow(fields, values) <==> HasNarrow(LiveColumns(fields, values))
  {
    if fields != [] {
      var live := LiveColumns(fields, values);
      SplitRow(fields, values);
      hide Written, CompactSafe, Narrow, ZeroValue, AllZero;
      if values[0].Nil? {
        ZeroRowColumns(fields[1..], values[1..]);
      } else {
        assert live[1..] == LiveColumns(fields[1..], values[1..]);
        SplitColumns(live);
        NarrowAmong(live);
        ZeroRowColumns(fields[1..], values[1..]);
        if CompactSafe(fields[0]) || Narrow(fields[0]) {
          ZeroCode(live[0]);
        }
      }
    }
  }

  lemma SplitRow(fields: seq<FieldType>, values: seq<Value>)
    requires |values| == |fields| > 0
    ensures ZeroRow(fields, values)
       <==> && (!values[0].Nil? ==>
                  (CompactSafe(fields[0]) || Narrow(fields[0])) && ZeroValue(Canon(fields[0], values[0])))
            && ZeroRow(fields[1..], values[1..])
    ensures SomeNarrow(fields, values)
       <==> (!values[0].Nil? && Narrow(fields[0])) || SomeNarrow(fields[1..], values[1..])
  {
    hide CompactSafe, Narrow, ZeroValue, Canon;
    var later, laterValues := fields[1..], values[1..];
    assert forall i :: 0 < i < |fields| ==> fields[i] == later[i - 1] && values[i] == laterValues[i - 1];
    assert forall i :: 0 <= i < |later| ==> later[i] == fields[i + 1] && laterValues[i] == values[i + 1];
  }

  lemma {:induction false} ComesBackColumns(fields: seq<FieldType>, values: seq<Value>)
    requires |values| == |fields| && AllWritten(LiveColumns(fields, values))
    ensures ComesBack(fields, values) <==> Survivors(LiveColumns(fields, values))
  {
    if fields != [] {
      var live := LiveColumns(fields, values);
      if values[0].Nil? {
        ComesBackColumns(fields[1..], values[1..]);
      } else {
        var c := live[0];
        assert live[1..] == LiveColumns(fields[1..], values[1..]);
        SplitColumns(live);
        ComesBackColumns(fields[1..], values[1..]);
        ZeroRowColumns(fields[1..], values[1..]);
        if Fine(c.t) {
          FineBytes(c);
        }
        hide Written, CompactSafe, Narrow, Fine, ZeroRow, ZeroColumns, SomeNarrow, HasNarrow, TwoVarints, TimestampBytes;
        hide LiveColumns;
      }
    }
  }

  // ---------- the exact conditions ----------

  lemma RowIsColumns(fields: seq<FieldType>, values: seq<Value>, tail: seq<byte>)
    requires EncodeRow(fields, values, false).Ok? && PrefixesFit(fields, values)
    ensures AllWritten(LiveColumns(fields, values))
    ensures DecodeRow(fields, EncodeRow(fields, values, false).value + tail, false) == Ok(CanonRow(fields, values))
       <==> ReadsBack(LiveColumns(fields, values), Stream(LiveColumns(fields, values)) + tail)
  {
    hide NullBitmap, LiveColumns, Stream, AllWritten, ReadsBack, DecodeCells, CanonRow, PrefixesFit, DecodeRow, EncodeCells;
    var cells := EncodeCells(fields, values, false).value;
    var nulls := NullBitmap(cells, |fields|);
    CellsEncoded(fields, values, false);
    CompactedDecodeStarts(fields, cells, tail);
    LiveWritten(fields, values);
    assert cells[0..] == cells && fields[0..] == fields && values[0..] == values;
    assert CanonRow(fields, values)[0..] == CanonRow(fields, values);
    hide Payload, IsNullBit;
    forall j | 0 <= j < |fields| ensures IsNullBit(nulls, j) <==> values[j].Nil? {
      assert CellAt(fields[j], values[j], false) == Ok(cells[j]);
    }
    DecodesLive(fields, values, 0, nulls, Payload(cells) + tail);
  }

  /**
   The compacted round trip, both directions, for every row the encoder accepts: the decoder gives back what the
   columns keep of the values if and only if ComesBack says so.
   */
  lemma CompactedRowExactly(fields: seq<FieldType>, values: seq<Value>)
    requires EncodeRow(fields, values, false).Ok? && PrefixesFit(fields, values)
    ensures DecodeRow(fields, EncodeRow(fields, values, false).value, false) == Ok(CanonRow(fields, values))
       <==> ComesBack(fields, values)
  {
    var live, bs := LiveColumns(fields, values), EncodeRow(fields, values, false).value;
    RowIsColumns(fields, values, []);
    assert bs + [] == bs && Stream(live) + [] == Stream(live);
    hide LiveColumns, AllWritten, ReadsBack, ComesBack, DecodeRow, CanonRow, EncodeRow, PrefixesFit, Survivors, Stream;
    SurvivorsExactly(live);
    ComesBackColumns(fields, values);
  }

  /** Whatever follows the row, such rows come back; other rows do only where the decoder runs ahead of a column. */
  lemma CompactedRowWithTail(fields: seq<FieldType>, values: seq<Value>, tail: seq<byte>)
    requires EncodeRow(fields, values, false).Ok? && PrefixesFit(fields, values)
    ensures
      var r := DecodeRow(fields, EncodeRow(fields, values, false).value + tail, false);
      && (ComesBack(fields, values) ==> r == Ok(CanonRow(fields, values)))
      && (r == Ok(CanonRow(fields, values)) ==>
            ComesBack(fields, values) || RunsAhead(LiveColumns(fields, values), tail))
  {
    var live := LiveColumns(fields, values);
    RowIsColumns(fields, values, tail);
    hide LiveColumns, AllWritten, ReadsBack, ComesBack, DecodeRow, CanonRow, EncodeRow, PrefixesFit, Survivors;
    hide RunsAhead, Stream;
    SurvivorsOrAhead(live, tail);
    ComesBackColumns(fields, values);
  }
}

/** What the exact condition on compacted rows comes down to in the cases that matter, and inputs that show each limit. */
module RowCompactedCases {
  import opened Bytes
  import opened CompactedColumns
  import opened CompactedPositions
  import opened CompactedSurvivors
  import opened FieldTypes
  import opened FixedAsVarint
  import opened Results
  import opened RowCompacted
  import opened RowCompactedLimits
  import opened RowExactness
  import opened RowLayout
  import opened RowRoundTrip
  import opened Varint

  // ---------- ordinary timestamps ----------

  function Nanos(v: Value): int {
    match v
    case TimestampNtzV(_, nanos) => nanos
    case TimestampLtzV(_, nanos) => nanos
    case _ => 0
  }

  /** Fine timestamps count fewer than 2^23 nanoseconds; a millisecond has fewer than 2^20. */
  predicate OrdinaryNanos(fields: seq<FieldType>, values: seq<Value>)
    requires |values| == |fields|
  {
    forall i :: 0 <= i < |fields| && !values[i].Nil? && Fine(fields[i]) ==> 0 <= Nanos(values[i]) < 0x80_0000
  }

  /** Nothing is nested or a fine timestamp, narrow columns keep 0 to 127, and only zeros come after one. */
  predicate ZerosAfterNarrow(fields: seq<FieldType>, values: seq<Value>)
    requires |values| == |fields|
  {
    forall i :: 0 <= i < |fields| && !values[i].Nil? ==>
      && (CompactSafe(fields[i]) || Narrow(fields[i]))
      && (Narrow(fields[i]) ==>
            && 0 <= Number(Canon(fields[i], values[i])) < 128
            && forall j :: i < j < |fields| && !values[j].Nil? ==> ZeroValue(Canon(fields[j], values[j])))
  }

  /** The bytes of a nanosecond count below 2^23 end in a byte below 128 and a zero. */
  lemma NanoBytes(nanos: int32)
    requires 0 <= nanos < 0x80_0000
    ensures EncodeFixed32(nanos)[2] < 128 && EncodeFixed32(nanos)[3] == 0
  {
    var a, b, c := nanos / 256, nanos / 256 / 256, nanos / 256 / 256 / 256;
    assert LE(nanos, 4) == [nanos % 256] + LE(a, 3);
    assert LE(a, 3) == [a % 256] + LE(b, 2);
    assert LE(b, 2) == [b % 256] + LE(c, 1);
    assert LE(c, 1) == [c % 256] + LE(c / 256, 0);
  }

  lemma EndsBelow128(bs: seq<byte>, k: nat)
    requires k < |bs| && bs[k] < 128
    ensures VarintSize(bs).Ok? ==> VarintSize(bs).value <= 10 && VarintSize(bs).value <= k + 1
  {
    VarintBytes(bs, 0);
  }

  /** Two varints read where the eleventh byte is below 128 cover at most eleven bytes. */
  lemma ShortSpan(payload: seq<byte>)
    requires |payload| > 10 && payload[10] < 128
    ensures TwoVarintsSize(payload).Ok? ==> TwoVarintsSize(payload).value < 12
  {
    EndsBelow128(payload, 10);
    hide VarintSize;
    var first := VarintSize(payload);
    if first.Ok? {
      assert payload[first.value..][10 - first.value] == payload[10];
      EndsBelow128(payload[first.value..], 10 - first.value);
    }
  }

  lemma OrdinaryFine(v: Value, rest: seq<byte>)
    requires (v.TimestampNtzV? || v.TimestampLtzV?) && 0 <= Nanos(v) < 0x80_0000
    ensures |TimestampBytes(v)| == 12
    ensures
      var r := TwoVarintsSize(TimestampBytes(v) + rest);
      r.Ok? ==> r.value < 12
  {
    NanoBytes(v.nanos);
    hide TwoVarintsSize;
    assert TimestampBytes(v)[10] == EncodeFixed32(v.nanos)[2];
    ShortSpan(TimestampBytes(v) + rest);
  }

  lemma {:induction false} OrdinaryCondition(fields: seq<FieldType>, values: seq<Value>)
    requires |values| == |fields| && AllWritten(LiveColumns(fields, values)) && OrdinaryNanos(fields, values)
    ensures ComesBack(fields, values) <==> ZerosAfterNarrow(fields, values)
  {
    if fields != [] {
      SplitCondition(fields, values);
      var live := LiveColumns(fields, values);
      if values[0].Nil? {
        OrdinaryCondition(fields[1..], values[1..]);
      } else {
        assert live[1..] == LiveColumns(fields[1..], values[1..]);
        SplitColumns(live);
        OrdinaryCondition(fields[1..], values[1..]);
        EveryKind(fields[0]);
        if Fine(fields[0]) {
          FineKind(fields[0]);
          NoTwoVarints(live[0]);
        }
        hide Written, CompactSafe, Narrow, Fine, TimestampBytes, TwoVarints, LiveColumns;
      }
    }
  }

  lemma NoTwoVarints(c: Column)
    requires Written(c) && Fine(c.t) && 0 <= Nanos(c.v) < 0x80_0000
    ensures !TwoVarints(TimestampBytes(c.v)) && !TwoVarints(TimestampBytes(c.v) + [0])
  {
    OrdinaryFine(c.v, []);
    OrdinaryFine(c.v, [0]);
    hide TwoVarintsSize;
    assert TimestampBytes(c.v) + [] == TimestampBytes(c.v);
  }

  lemma SplitCondition(fields: seq<FieldType>, values: seq<Value>)
    requires |values| == |fields| > 0
    ensures OrdinaryNanos(fields, values) ==> OrdinaryNanos(fields[1..], values[1..])
    ensures
      var t, v, later := fields[0], values[0], ZerosAfterNarrow(fields[1..], values[1..]);
      ZerosAfterNarrow(fields, values)
      <==> if v.Nil? || CompactSafe(t) then later
           else Narrow(t) && 0 <= Number(Canon(t, v)) < 128 && ZeroRow(fields[1..], values[1..])
  {
    EveryKind(fields[0]);
    hide CompactSafe, Narrow, Fine, ZeroValue, Canon, Number, Nanos;
    var later, laterValues := fields[1..], values[1..];
    assert forall i :: 0 < i < |fields| ==> fields[i] == later[i - 1] && values[i] == laterValues[i - 1];
    assert forall i :: 0 <= i < |later| ==> later[i] == fields[i + 1] && laterValues[i] == values[i + 1];
  }

  /**
   Rows whose timestamps are ordinary: they come back if and only if, nulls aside, nothing is nested or a fine
   timestamp, and the first narrow column keeps 0 to 127 with nothing but zeros after it.
   */
  lemma OrdinaryRowExactly(fields: seq<FieldType>, values: seq<Value>)
    requires EncodeRow(fields, values, false).Ok? && PrefixesFit(fields, values) && OrdinaryNanos(fields, values)
    ensures DecodeRow(fields, EncodeRow(fields, values, false).value, false) == Ok(CanonRow(fields, values))
       <==> ZerosAfterNarrow(fields, values)
  {
    RowIsColumns(fields, values, []);
    CompactedRowExactly(fields, values);
    hide DecodeRow, EncodeRow, CanonRow, LiveColumns, OrdinaryNanos, ZerosAfterNarrow, ComesBack;
    OrdinaryCondition(fields, values);
  }

  // ---------- the very values ----------

  lemma DecodedScalarExact(t: FieldType, bs: seq<byte>)
    ensures
      var r := DecodeScalar(t, bs, false);
      r.Ok? ==> !Nested(t) && ExactScalar(t, r.value)
  {
    hide LE, FromLE, UvarintFrom, FromBE;
  }

  lemma ReadColumnExact(t: FieldType, payload: seq<byte>)
    ensures
      var r := ReadColumn(t, payload);
      r.Ok? ==> r.value.1 <= |payload| && !Nested(t) && ExactScalar(t, r.value.0)
  {
    hide ExactScalar, DecodeScalar, CompactedFieldSize;
    if Nested(t) {
      NestedUnread(t, payload);
    } else if ReadColumn(t, payload).Ok? {
      DecodedScalarExact(t, payload[..CompactedFieldSize(t, payload).value]);
    }
  }

  /** Whatever a compacted row decodes to fits the columns. */
  lemma {:induction false} DecodedExact(fields: seq<FieldType>, i: nat, nulls: seq<byte>, payload: seq<byte>, j: nat)
    requires i <= j < |fields| && |nulls| == NullBitsSize(|fields|)
    requires DecodeCells(fields, i, nulls, None, payload).Ok?
    ensures
      var v := DecodeCells(fields, i, nulls, None, payload).value[j - i];
      v.Nil? || (!Nested(fields[j]) && ExactScalar(fields[j], v))
    decreases |fields| - i
  {
    hide IsNullBit, ReadColumn, ExactScalar, Nested, DecodeCells;
    ReadColumnExact(fields[i], payload);
    if IsNullBit(nulls, i) {
      DecodeNullCell(fields, i, nulls, payload);
      if i < j {
        DecodedExact(fields, i + 1, nulls, payload, j);
      }
    } else {
      DecodeLiveCell(fields, i, nulls, payload);
      if i < j {
        var w := ReadColumn(fields[i], payload).value.1;
        DecodedExact(fields, i + 1, nulls, payload[w..], j);
      }
    }
  }

  lemma DecodedRowExact(fields: seq<FieldType>, payload: seq<byte>)
    requires DecodeRow(fields, payload, false).Ok?
    ensures ExactRow(fields, DecodeRow(fields, payload, false).value)
  {
    var nulls, rest := payload[..NullBitsSize(|fields|)], payload[NullBitsSize(|fields|)..];
    var values := DecodeRow(fields, payload, false).value;
    forall j | 0 <= j < |fields| ensures ExactGeneric(fields[j], values[j]) {
      DecodedExact(fields, 0, nulls, rest, j);
      hide DecodeCells, ExactScalar;
    }
  }

  lemma ExactRowIsCanon(fields: seq<FieldType>, values: seq<Value>)
    requires ExactRow(fields, values)
    requires forall i :: 0 <= i < |fields| && !values[i].Nil? ==> !Nested(fields[i])
    ensures CanonRow(fields, values) == values
  {
    forall i | 0 <= i < |fields| ensures CanonRow(fields, values)[i] == values[i] {
      CanonRowAt(fields, values, i);
      if !values[i].Nil? {
        assert Exact(fields[i], values[i]);
        ExactIsCanon(fields[i], values[i]);
      }
    }
  }

  lemma {:induction false} ComesBackFlat(fields: seq<FieldType>, values: seq<Value>, i: nat)
    requires |values| == |fields| && ComesBack(fields, values) && i < |fields| && !values[i].Nil?
    ensures !Nested(fields[i])
  {
    EveryKind(fields[0]);
    if i > 0 {
      if values[0].Nil? || CompactSafe(fields[0]) || (Fine(fields[0]) && ComesBack(fields[1..], values[1..])) {
        ComesBackFlat(fields[1..], values[1..], i - 1);
      } else {
        var later, laterValues := fields[1..], values[1..];
        assert !laterValues[i - 1].Nil? && later[i - 1] == fields[i];
        EveryKind(later[i - 1]);
      }
    }
  }

  /** The decoder gives back the very values encoded if and only if each fits its column and the row comes back. */
  lemma CompactedValuesExactly(fields: seq<FieldType>, values: seq<Value>)
    requires EncodeRow(fields, values, false).Ok? && PrefixesFit(fields, values)
    ensures DecodeRow(fields, EncodeRow(fields, values, false).value, false) == Ok(values)
       <==> ExactRow(fields, values) && ComesBack(fields, values)
  {
    var bs := EncodeRow(fields, values, false).value;
    CompactedRowExactly(fields, values);
    hide EncodeRow, DecodeRow, CanonRow, ExactRow, ComesBack, PrefixesFit;
    if DecodeRow(fields, bs, false) == Ok(values) {
      DecodedRowExact(fields, bs);
      NothingNested(fields, bs);
      ExactRowIsCanon(fields, values);
    }
    if ExactRow(fields, values) && ComesBack(fields, values) {
      forall i | 0 <= i < |fields| && !values[i].Nil? ensures !Nested(fields[i]) {
        ComesBackFlat(fields, values, i);
      }
      ExactRowIsCanon(fields, values);
    }
  }

  lemma NothingNested(fields: seq<FieldType>, payload: seq<byte>)
    requires DecodeRow(fields, payload, false).Ok?
    ensures
      var values := DecodeRow(fields, payload, false).value;
      forall i :: 0 <= i < |fields| && !values[i].Nil? ==> !Nested(fields[i])
  {
    var nulls, rest := payload[..NullBitsSize(|fields|)], payload[NullBitsSize(|fields|)..];
    var values := DecodeRow(fields, payload, false).value;
    forall j | 0 <= j < |fields| && !values[j].Nil? ensures !Nested(fields[j]) {
      DecodedExact(fields, 0, nulls, rest, j);
      hide DecodeCells, ExactScalar;
    }
  }

  // ---------- bytes behind the row ----------

  /** A null or safe first column makes no difference to the others. */
  lemma SafeFirst(fields: seq<FieldType>, values: seq<Value>, tail: seq<byte>)
    requires |values| == |fields| > 0 && AllWritten(LiveColumns(fields, values))
    requires values[0].Nil? || CompactSafe(fields[0])
    ensures
      var live, later := LiveColumns(fields, values), LiveColumns(fields[1..], values[1..]);
      AllWritten(later) && (ReadsBack(live, Stream(live) + tail) <==> ReadsBack(later, Stream(later) + tail))
  {
    var live := LiveColumns(fields, values);
    if !values[0].Nil? {
      assert live[1..] == LiveColumns(fields[1..], values[1..]);
      SplitColumns(live);
      SafeReads(live[0], Stream(live[1..]) + tail);
      InPlace(live, tail);
    }
    hide ReadsBack, Stream, EncodeValue;
  }

  lemma {:induction false} FirstNarrow(fields: seq<FieldType>, values: seq<Value>, k: nat, tail: seq<byte>)
    requires |values| == |fields| && k < |fields| && AllWritten(LiveColumns(fields, values))
    requires forall j :: 0 <= j < k ==> values[j].Nil? || CompactSafe(fields[j])
    requires !values[k].Nil? && Narrow(fields[k])
    ensures
      var live, later := LiveColumns(fields, values), LiveColumns(fields[k + 1..], values[k + 1..]);
      var n, rest := Number(Canon(fields[k], values[k])), Stream(later) + tail;
      ReadsBack(live, Stream(live) + tail)
      <==> (0 <= n < 128 && ZeroRow(fields[k + 1..], values[k + 1..]))
           || (-128 <= n < 0 && Completes(rest) && ReadsBack(later, rest[2..]))
  {
    hide ReadsBack, Stream, CompactSafe, Narrow, AllWritten, ZeroRow, Completes, Number, Canon, LiveColumns;
    if k > 0 {
      SafeFirst(fields, values, tail);
      DropTwice(fields, 1, k);
      DropTwice(values, 1, k);
      FirstNarrow(fields[1..], values[1..], k - 1, tail);
    } else {
      NarrowAtOnce(fields, values, tail);
    }
  }

  lemma NarrowAtOnce(fields: seq<FieldType>, values: seq<Value>, tail: seq<byte>)
    requires |values| == |fields| > 0 && AllWritten(LiveColumns(fields, values))
    requires !values[0].Nil? && Narrow(fields[0])
    ensures
      var live, later := LiveColumns(fields, values), LiveColumns(fields[1..], values[1..]);
      var n, rest := Number(Canon(fields[0], values[0])), Stream(later) + tail;
      ReadsBack(live, Stream(live) + tail)
      <==> (0 <= n < 128 && ZeroRow(fields[1..], values[1..]))
           || (-128 <= n < 0 && Completes(rest) && ReadsBack(later, rest[2..]))
  {
    hide ReadsBack, Stream, Written, AllWritten, ZeroRow, ZeroColumns, Completes, Number, EncodeValue, Canon, Narrow;
    var live := LiveColumns(fields, values);
    assert live[1..] == LiveColumns(fields[1..], values[1..]);
    SplitColumns(live);
    hide LiveColumns;
    ZeroRowColumns(fields[1..], values[1..]);
    NarrowFirst(live, tail);
  }

  lemma NarrowFirst(columns: seq<Column>, tail: seq<byte>)
    requires AllWritten(columns) && columns != [] && Narrow(columns[0].t)
    ensures
      var n, rest := Number(columns[0].Kept()), Stream(columns[1..]) + tail;
      ReadsBack(columns, Stream(columns) + tail)
      <==> (0 <= n < 128 && ZeroColumns(columns[1..]))
           || (-128 <= n < 0 && Completes(rest) && ReadsBack(columns[1..], rest[2..]))
  {
    hide ReadsBack, Written, AllWritten, ZeroColumns, Number, Reads, Narrow, LE, Completes;
    var c, rest, n := columns[0], Stream(columns[1..]) + tail, Number(columns[0].Kept());
    SplitColumns(columns);
    NarrowCode(c);
    Reassociate(c.code, Stream(columns[1..]), tail);
    assert Stream(columns) + tail == c.code + rest;
    hide Stream;
    if 0 <= n < 128 {
      AfterNarrow(columns, tail);
    } else if -128 <= n < 0 && Completes(rest) {
      NarrowFound(c, rest, 10);
      CompletesNotZero(rest);
      PastFront(c.code, rest, 10);
      ReadsBackStep(columns, c.code + rest, 10);
    } else if ReadsBack(columns, Stream(columns) + tail) {
      NarrowRunsAhead(columns, tail);
    }
  }

  /**
   Any row, with any bytes after it, whose first column that is neither null nor safe is narrow: it comes back exactly
   if that column keeps 0 to 127 and only zeros follow, or keeps -128 to -1, FF 01 follows, and the later columns come
   back from behind those two bytes. If nothing in or behind the row follows it, the second case needs them after it.
   */
  lemma FirstNarrowExactly(fields: seq<FieldType>, values: seq<Value>, k: nat, tail: seq<byte>)
    requires EncodeRow(fields, values, false).Ok? && PrefixesFit(fields, values) && k < |fields|
    requires forall j :: 0 <= j < k ==> values[j].Nil? || CompactSafe(fields[j])
    requires !values[k].Nil? && Narrow(fields[k])
    ensures
      var later := LiveColumns(fields[k + 1..], values[k + 1..]);
      var n, rest := Number(Canon(fields[k], values[k])), Stream(later) + tail;
      DecodeRow(fields, EncodeRow(fields, values, false).value + tail, false) == Ok(CanonRow(fields, values))
      <==> (0 <= n < 128 && ZeroRow(fields[k + 1..], values[k + 1..]))
           || (-128 <= n < 0 && Completes(rest) && ReadsBack(later, rest[2..]))
  {
    RowIsColumns(fields, values, tail);
    hide DecodeRow, EncodeRow, CanonRow, LiveColumns, ReadsBack, Stream, PrefixesFit, Completes, ZeroRow;
    FirstNarrow(fields, values, k, tail);
  }

  /** The same where no later column is present: what follows the row decides about -128 to -1. */
  lemma LastNarrowExactly(fields: seq<FieldType>, values: seq<Value>, k: nat, tail: seq<byte>)
    requires EncodeRow(fields, values, false).Ok? && PrefixesFit(fields, values) && k < |fields|
    requires forall j :: 0 <= j < k ==> values[j].Nil? || CompactSafe(fields[j])
    requires !values[k].Nil? && Narrow(fields[k]) && forall j :: k < j < |fields| ==> values[j].Nil?
    ensures
      var n := Number(Canon(fields[k], values[k]));
      DecodeRow(fields, EncodeRow(fields, values, false).value + tail, false) == Ok(CanonRow(fields, values))
      <==> 0 <= n < 128 || (-128 <= n < 0 && Completes(tail))
  {
    assert |values| == |fields|;
    hide DecodeRow, EncodeRow, CanonRow, LiveColumns, PrefixesFit, Completes, CompactSafe, Narrow, Number, Stream;
    hide ReadsBack;
    NothingStreamed();
    assert ZeroRow(fields[k + 1..], values[k + 1..]);
    FirstNarrowExactly(fields, values, k, tail);
    AllNull(fields[k + 1..], values[k + 1..]);
    assert [] + tail == tail;
  }

  lemma NothingStreamed()
    ensures Stream([]) == [] && forall payload :: ReadsBack([], payload)
  {
  }

  lemma {:induction false} AllNull(fields: seq<FieldType>, values: seq<Value>)
    requires |values| == |fields| && forall j :: 0 <= j < |fields| ==> values[j].Nil?
    ensures LiveColumns(fields, values) == []
  {
    if fields != [] {
      AllNull(fields[1..], values[1..]);
    }
  }

  // ---------- columns that never decode ----------

  lemma FineCellFails(t: FieldType, v: Value, rest: seq<byte>)
    requires Fine(t) && EncodeValue(t, v, false).Ok? && 0 <= Nanos(v) < 0x80_0000
    ensures ReadColumn(t, EncodeValue(t, v, false).value + rest).Err?
  {
    var c := Column(t, v, EncodeValue(t, v, false).value);
    FineBytes(c);
    OrdinaryFine(v, rest);
    hide VarintSize, EncodeScalar;
  }

  lemma {:induction false} FineColumnFails(fields: seq<FieldType>, cells: seq<Cell>, values: seq<Value>, i: nat, k: nat,
                                           nulls: seq<byte>, tail: seq<byte>)
    requires |cells| == |fields| == |values| && i <= k < |fields| && Marks(nulls, cells)
    requires forall j :: 0 <= j < |fields| ==> CellAt(fields[j], values[j], false) == Ok(cells[j])
    requires forall j :: 0 <= j < k && !values[j].Nil? ==> CompactSafe(fields[j]) && PrefixFits(fields[j], values[j])
    requires !values[k].Nil? && Fine(fields[k]) && 0 <= Nanos(values[k]) < 0x80_0000
    ensures DecodeCells(fields, i, nulls, None, Payload(cells[i..]) + tail).Err?
    decreases k - i
  {
    assert cells[i..][1..] == cells[i + 1..];
    assert CellAt(fields[i], values[i], false) == Ok(cells[i]);
    var rest := Payload(cells[i + 1..]);
    if cells[i].Some? {
      var code := cells[i].value;
      Reassociate(code, rest, tail);
      DecodeLiveCell(fields, i, nulls, code + (rest + tail));
      hide ReadColumn, DecodeCells, EncodeValue;
      if i < k {
        SafeReads(Column(fields[i], values[i], code), rest + tail);
        assert (code + (rest + tail))[|code|..] == rest + tail;
        FineColumnFails(fields, cells, values, i + 1, k, nulls, tail);
      } else {
        FineCellFails(fields[i], values[i], rest + tail);
      }
    } else {
      assert [] + rest == rest;
      FineColumnFails(fields, cells, values, i + 1, k, nulls, tail);
    }
  }

  /**
   A row whose first column that is neither null nor safe is a timestamp of precision 4 to 9 with fewer than 2^23
   nanoseconds never decodes, whatever its other columns and what follows it.
   */
  lemma FineTimestampFails(fields: seq<FieldType>, values: seq<Value>, k: nat, tail: seq<byte>)
    requires EncodeRow(fields, values, false).Ok? && k < |fields|
    requires forall j :: 0 <= j < k && !values[j].Nil? ==> CompactSafe(fields[j]) && PrefixFits(fields[j], values[j])
    requires !values[k].Nil? && Fine(fields[k]) && 0 <= Nanos(values[k]) < 0x80_0000
    ensures DecodeRow(fields, EncodeRow(fields, values, false).value + tail, false).Err?
  {
    var cells := EncodeCells(fields, values, false).value;
    CellsEncoded(fields, values, false);
    CompactedDecodeStarts(fields, cells, tail);
    hide Layout, NullBitmap, Payload, DecodeCells, EncodeValue, CompactSafe, PrefixFits, Marks;
    FineColumnFails(fields, cells, values, 0, k, NullBitmap(cells, |fields|), tail);
  }

  // ---------- inputs that show the limits ----------

  /** Two narrow decimals: the second is read as a zero left over from the first. */
  lemma SecondNarrowMustBeZero(n: int64, m: int64)
    requires 0 <= n < 128
    ensures
      var fields, values := [DecimalType(5, 0), DecimalType(5, 0)], [DecimalV(n, 0), DecimalV(m, 0)];
      && EncodeRow(fields, values, false).Ok?
      && (DecodeRow(fields, EncodeRow(fields, values, false).value, false) == Ok(values) <==> m == 0)
  {
    TwoNarrowEncode(n, m);
    TwoNarrowComeBack(n, m);
    hide DecodeRow, EncodeRow, ComesBack, ExactRow, PrefixesFit;
    CompactedValuesExactly([DecimalType(5, 0), DecimalType(5, 0)], [DecimalV(n, 0), DecimalV(m, 0)]);
  }

  lemma TwoNarrowEncode(n: int64, m: int64)
    ensures EncodeRow([DecimalType(5, 0), DecimalType(5, 0)], [DecimalV(n, 0), DecimalV(m, 0)], false).Ok?
  {
    var fields, values := [DecimalType(5, 0), DecimalType(5, 0)], [DecimalV(n, 0), DecimalV(m, 0)];
    hide LE, NullBitmap, Payload;
    assert fields[1..] == [DecimalType(5, 0)] && values[1..] == [DecimalV(m, 0)];
    assert EncodeCells([], [], false) == Ok([]);
    assert EncodeCells(fields[1..], values[1..], false).Ok?;
  }

  lemma TwoNarrowComeBack(n: int64, m: int64)
    requires 0 <= n < 128
    ensures
      var fields, values := [DecimalType(5, 0), DecimalType(5, 0)], [DecimalV(n, 0), DecimalV(m, 0)];
      && PrefixesFit(fields, values) && ExactRow(fields, values)
      && (ComesBack(fields, values) <==> m == 0)
  {
    var fields, values := [DecimalType(5, 0), DecimalType(5, 0)], [DecimalV(n, 0), DecimalV(m, 0)];
    assert fields[1..] == [DecimalType(5, 0)] && values[1..] == [DecimalV(m, 0)];
    SplitRow(fields[1..], values[1..]);
  }

  /** The number whose `n` bytes are all 80. */
  function Eighties(n: nat): nat {
    if n == 0 then 0 else 128 + 256 * Eighties(n - 1)
  }

  lemma {:induction false} EightiesBytes(n: nat)
    ensures forall j :: 0 <= j < n ==> LE(Eighties(n), n)[j] == 128
  {
    if n > 0 {
      EightiesBytes(n - 1);
      assert LE(Eighties(n), n) == [128] + LE(Eighties(n - 1), n - 1);
    }
  }

  lemma {:induction false} LongZero(bs: seq<byte>, i: nat, n: nat)
    requires n < |bs| && i + n <= 9 && bs[n] == 0 && forall j :: 0 <= j < n ==> bs[j] == 128
    ensures UvarintFrom(bs, i) == Decoded(0, n + 1)
  {
    if n > 0 {
      LongZero(bs[1..], i + 1, n - 1);
    }
  }

  /** The twelve bytes 80 80 80 80 80 80 80 80 80 00 80 00. */
  lemma TenAndTwo()
    ensures TwoVarints(EncodeFixed64(-0x7F7F7F7F7F7F7F80) + EncodeFixed32(0x80_0080))
  {
    hide UvarintFrom;
    var low, high := EncodeFixed64(-0x7F7F7F7F7F7F7F80), EncodeFixed32(0x80_0080);
    LowBytes();
    HighBytes();
    hide EncodeFixed64, EncodeFixed32;
    LongZero(low + high, 0, 9);
    PastFront(low, high, 10);
    LongZero(high[2..], 0, 1);
  }

  lemma LowBytes()
    ensures
      var low := EncodeFixed64(-0x7F7F7F7F7F7F7F80);
      |low| == 8 && forall j :: 0 <= j < 8 ==> low[j] == 128
  {
    assert Eighties(4) == 0x8080_8080;
    assert Eighties(8) == 0x8080_8080_8080_8080;
    EightiesBytes(8);
    hide LE, Eighties;
  }

  lemma HighBytes()
    ensures EncodeFixed32(0x80_0080) == [128, 0, 128, 0]
  {
    assert LE(0x80_0080, 4) == [128] + LE(0x8000, 3);
    assert LE(0x8000, 3) == [0] + LE(0x80, 2) && LE(0x80, 2) == [128] + LE(0, 1);
  }

  /** With more nanoseconds a fine timestamp can come back: here its bytes are a varint of ten bytes and one of two. */
  lemma FineTimestampCanComeBack()
    ensures
      var fields, values := [TimestampNtzType(6)], [TimestampNtzV(-0x7F7F7F7F7F7F7F80, 0x80_0080)];
      && EncodeRow(fields, values, false).Ok?
      && DecodeRow(fields, EncodeRow(fields, values, false).value, false) == Ok(values)
  {
    TenAndTwo();
    FineAlone(-0x7F7F7F7F7F7F7F80, 0x80_0080);
  }

  lemma FineAlone(ms: int64, nanos: int32)
    requires TwoVarints(EncodeFixed64(ms) + EncodeFixed32(nanos))
    ensures
      var fields, values := [TimestampNtzType(6)], [TimestampNtzV(ms, nanos)];
      && EncodeRow(fields, values, false).Ok?
      && DecodeRow(fields, EncodeRow(fields, values, false).value, false) == Ok(values)
  {
    FineAloneFits(ms, nanos);
    FineAloneEncodes(ms, nanos);
    hide EncodeRow, DecodeRow, ExactRow, ComesBack, PrefixesFit, TwoVarints;
    CompactedValuesExactly([TimestampNtzType(6)], [TimestampNtzV(ms, nanos)]);
  }

  lemma FineAloneEncodes(ms: int64, nanos: int32)
    ensures EncodeRow([TimestampNtzType(6)], [TimestampNtzV(ms, nanos)], false).Ok?
  {
    var fields, values := [TimestampNtzType(6)], [TimestampNtzV(ms, nanos)];
    hide LE, NullBitmap, Payload;
    assert fields[1..] == [] && values[1..] == [];
    assert EncodeCells([], [], false) == Ok([]);
  }

  lemma FineAloneFits(ms: int64, nanos: int32)
    requires TwoVarints(EncodeFixed64(ms) + EncodeFixed32(nanos))
    ensures
      var fields, values := [TimestampNtzType(6)], [TimestampNtzV(ms, nanos)];
      PrefixesFit(fields, values) && ExactRow(fields, values) && ComesBack(fields, values)
  {
    var fields, values := [TimestampNtzType(6)], [TimestampNtzV(ms, nanos)];
    hide TwoVarints, EncodeFixed64, EncodeFixed32;
    assert fields[1..] == [] && values[1..] == [];
    assert fields[0] == TimestampNtzType(6) && values[0] == TimestampNtzV(ms, nanos);
    assert ComesBack([], []);
  }
}

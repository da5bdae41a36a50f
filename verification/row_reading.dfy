/**
 What the decoder makes of any payload whatever (internal/codec/row/row.go:644-761): where it looks for the null bits,
 the widths and each column, and that it reads a row if and only if it finds every column there.
 */
module RowReading {
  import opened Bits
  import opened Bytes
  import opened FieldTypes
  import opened Results
  import opened RowBytes
  import opened RowCompactedLimits
  import opened RowLayout
  import opened RowRoundTrip
  import opened ScalarBytes
  import opened WireForms

  /** Column `i` is marked as null. */
  predicate Absent(payload: seq<byte>, i: nat) {
    i / 8 < |payload| && BitSet(payload, i)
  }

  /** How many of the first `i` columns have an entry in the length table. */
  function Entries(fields: seq<FieldType>, payload: seq<byte>, i: nat): nat
    requires i <= |fields|
  {
    if i == 0 then 0
    else Entries(fields, payload, i - 1) + if Measured(fields[i - 1]) && !Absent(payload, i - 1) then 1 else 0
  }

  /** The bytes of a column that is not measured. */
  function FixedBytes(t: FieldType): nat {
    match t
    case BoolType => 1
    case Int8Type => 1
    case Int16Type => 2
    case Int32Type => 4
    case DateType => 4
    case TimeType => 4
    case Float32Type => 4
    case _ => 8
  }

  /** Column `i` of the row with `k` bytes of null bits is `v` and takes up bytes `start` to `end`. */
  ghost predicate ColumnRead(fields: seq<FieldType>, payload: seq<byte>, indexed: bool, k: nat, i: nat, start: nat,
                             end: nat, v: Value)
    requires i < |fields|
  {
    if Absent(payload, i) then v == Nil && end == start
    else
      && start <= end <= |payload|
      && DecodeValue(fields[i], payload[start..end], indexed) == Ok(v)
      && var entry := k + 4 * Entries(fields, payload, i);
         if !indexed then WidthRead(fields[i], payload[start..], end - start)
         else if !Measured(fields[i]) then end - start == FixedBytes(fields[i])
         else entry + 4 <= |payload| && end - start < 0x1_0000_0000 && payload[entry..entry + 4] == Four(end - start)
  }

  /** Columns `i` and up stand one behind the other from byte `start` on. */
  ghost predicate ColumnsRead(fields: seq<FieldType>, payload: seq<byte>, indexed: bool, k: nat, i: nat, start: nat,
                              values: seq<Value>)
    requires i <= |fields| == |values|
    decreases |fields| - i
  {
    i == |fields|
    || exists end: nat ::
         && ColumnRead(fields, payload, indexed, k, i, start, end, values[i])
         && ColumnsRead(fields, payload, indexed, k, i + 1, end, values)
  }

  // ---------- the length table ----------

  /** What the table reader finds for column `i`. */
  function WidthAt(fields: seq<FieldType>, payload: seq<byte>, k: nat, i: nat): nat
    requires i < |fields|
  {
    var entry := k + 4 * Entries(fields, payload, i);
    if !Measured(fields[i]) then FixedBytes(fields[i])
    else if Absent(payload, i) || entry + 4 > |payload| then 0
    else Get32(payload[entry..])
  }

  lemma FixedBytesExactly(t: FieldType)
    requires Valid(t) && !Measured(t)
    ensures IsFixed(t) && FixedSize(t) == FixedBytes(t)
  {
  }

  lemma AbsentExactly(payload: seq<byte>, k: nat, i: nat)
    requires k <= |payload| && i / 8 < k
    ensures IsNullBit(payload[..k], i) <==> Absent(payload, i)
  {
    BitIsDigit(payload[i / 8], i % 8);
    hide Bit;
  }

  lemma {:induction false} EntriesGrow(fields: seq<FieldType>, payload: seq<byte>, i: nat, j: nat)
    requires i <= j <= |fields|
    ensures Entries(fields, payload, i) <= Entries(fields, payload, j)
    decreases j
  {
    if i < j {
      EntriesGrow(fields, payload, i, j - 1);
    }
  }

  ghost predicate TableRead(fields: seq<FieldType>, payload: seq<byte>, k: nat, i: nat, widths: seq<nat>) {
    i <= |fields| && |widths| == |fields| - i
    && forall j :: i <= j < |fields| ==> widths[j - i] == WidthAt(fields, payload, k, j)
  }

  /** The table reader at column `i`, where it stands in the payload. */
  function TableFrom(fields: seq<FieldType>, payload: seq<byte>, k: nat, i: nat): Result<(seq<nat>, seq<byte>)>
    requires i <= |fields| && k == NullBitsSize(|fields|) && k + 4 * Entries(fields, payload, i) <= |payload|
  {
    ReadLengths(fields, i, payload[..k], payload[k + 4 * Entries(fields, payload, i)..])
  }

  /** What the reader gives from column `i` on: the widths, and the bytes behind the last entry. */
  ghost predicate TableGiven(fields: seq<FieldType>, payload: seq<byte>, k: nat, i: nat,
                             r: Result<(seq<nat>, seq<byte>)>)
    requires i <= |fields|
  {
    var end := k + 4 * Entries(fields, payload, |fields|);
    if end > |payload| then r == Err(PayloadTruncated)
    else r.Ok? && TableRead(fields, payload, k, i, r.value.0) && r.value.1 == payload[end..]
  }

  /** The table is read if and only if it is there, and what follows it is what follows its last entry. */
  lemma {:induction false} LengthsExactly(fields: seq<FieldType>, payload: seq<byte>, k: nat, i: nat)
    requires ValidFields(fields) && i <= |fields| && k == NullBitsSize(|fields|)
    requires k + 4 * Entries(fields, payload, i) <= |payload|
    ensures TableGiven(fields, payload, k, i, TableFrom(fields, payload, k, i))
    decreases |fields| - i
  {
    hide TableGiven, TableFrom, ValidFields, NullBitsSize;
    if i < |fields| {
      hide Entries;
      TableStep(fields, payload, k, i);
      if k + 4 * Entries(fields, payload, i + 1) <= |payload| {
        LengthsExactly(fields, payload, k, i + 1);
        TableGrows(fields, payload, k, i);
      }
    } else {
      NothingMeasured(fields, payload, k);
    }
  }

  lemma NothingMeasured(fields: seq<FieldType>, payload: seq<byte>, k: nat)
    requires k == NullBitsSize(|fields|) && k + 4 * Entries(fields, payload, |fields|) <= |payload|
    ensures TableGiven(fields, payload, k, |fields|, TableFrom(fields, payload, k, |fields|))
  {
    hide Entries, NullBitsSize;
  }

  /** One step of the table reader, where it stands in the payload. */
  lemma TableStep(fields: seq<FieldType>, payload: seq<byte>, k: nat, i: nat)
    requires ValidFields(fields) && i < |fields| && k == NullBitsSize(|fields|)
    requires k + 4 * Entries(fields, payload, i) <= |payload|
    ensures
      var r := TableFrom(fields, payload, k, i);
      if k + 4 * Entries(fields, payload, i + 1) > |payload| then
        r == Err(PayloadTruncated) && TableGiven(fields, payload, k, i, r)
      else
        var rest := TableFrom(fields, payload, k, i + 1);
        && (rest.Err? ==> r == Err(rest.error))
        && (rest.Ok? ==> r == Ok(([WidthAt(fields, payload, k, i)] + rest.value.0, rest.value.1)))
  {
    assert i / 8 < k;
    hide IsNullBit, Absent, Get32, Measured, IsFixed, FixedBytes, FixedSize, Entries, ReadLengths, NullBitsSize, TableRead;
    hide ValidFields;
    EntriesStep(fields, payload, i);
    var at, next := k + 4 * Entries(fields, payload, i), k + 4 * Entries(fields, payload, i + 1);
    assert Valid(fields[i]) by {
      ValidAt(fields, i);
    }
    AbsentExactly(payload, k, i);
    MeasuredExactly(fields[i]);
    if !Measured(fields[i]) {
      FixedBytesExactly(fields[i]);
    }
    LengthStep(fields, i, payload[..k], payload[at..]);
    if next == at + 4 <= |payload| {
      CutTwice(payload, at, 4);
    }
  }

  lemma ValidAt(fields: seq<FieldType>, i: nat)
    requires ValidFields(fields) && i < |fields|
    ensures Valid(fields[i])
  {
  }

  lemma EntriesStep(fields: seq<FieldType>, payload: seq<byte>, i: nat)
    requires i < |fields|
    ensures Entries(fields, payload, i + 1)
         == Entries(fields, payload, i) + if Measured(fields[i]) && !Absent(payload, i) then 1 else 0
    ensures Entries(fields, payload, i + 1) <= Entries(fields, payload, |fields|)
  {
    hide Measured, Absent;
    EntriesGrow(fields, payload, i + 1, |fields|);
  }

  lemma TableGrows(fields: seq<FieldType>, payload: seq<byte>, k: nat, i: nat)
    requires i < |fields| && k == NullBitsSize(|fields|) && k + 4 * Entries(fields, payload, i) <= |payload|
    requires k + 4 * Entries(fields, payload, i + 1) <= |payload|
    requires TableGiven(fields, payload, k, i + 1, TableFrom(fields, payload, k, i + 1))
    requires
      var r, rest := TableFrom(fields, payload, k, i), TableFrom(fields, payload, k, i + 1);
      && (rest.Err? ==> r == Err(rest.error))
      && (rest.Ok? ==> r == Ok(([WidthAt(fields, payload, k, i)] + rest.value.0, rest.value.1)))
    ensures TableGiven(fields, payload, k, i, TableFrom(fields, payload, k, i))
  {
    hide TableRead, Entries, TableFrom, WidthAt, NullBitsSize;
    var rest := TableFrom(fields, payload, k, i + 1);
    if rest.Ok? {
      WidthInFront(fields, payload, k, i, rest.value.0);
    }
  }

  lemma WidthInFront(fields: seq<FieldType>, payload: seq<byte>, k: nat, i: nat, widths: seq<nat>)
    requires i < |fields|
    ensures TableRead(fields, payload, k, i + 1, widths) ==>
              TableRead(fields, payload, k, i, [WidthAt(fields, payload, k, i)] + widths)
  {
    hide WidthAt;
    var all := [WidthAt(fields, payload, k, i)] + widths;
    if TableRead(fields, payload, k, i + 1, widths) {
      forall j | i <= j < |fields| ensures all[j - i] == WidthAt(fields, payload, k, j) {
        if i < j {
          assert all[j - i] == widths[j - (i + 1)];
        }
      }
    }
  }

  /** One step of the table reader. */
  lemma LengthStep(fields: seq<FieldType>, i: nat, nulls: seq<byte>, payload: seq<byte>)
    requires i < |fields| && |nulls| == NullBitsSize(|fields|)
    ensures
      var r := ReadLengths(fields, i, nulls, payload);
      var entry := !IsFixed(fields[i]) && !IsNullBit(nulls, i);
      if entry && |payload| < 4 then r == Err(PayloadTruncated)
      else
        var rest := ReadLengths(fields, i + 1, nulls, if entry then payload[4..] else payload);
        var n := if IsFixed(fields[i]) then FixedSize(fields[i]) else if entry then Get32(payload) else 0;
        && (rest.Err? ==> r == Err(rest.error))
        && (rest.Ok? ==> r == Ok(([n] + rest.value.0, rest.value.1)))
  {
    hide IsFixed, IsNullBit, FixedSize, Get32;
  }

  // ---------- the columns ----------

  function WidthOf(lens: Option<seq<nat>>, i: nat): Option<nat>
    requires lens.Some? ==> i < |lens.value|
  {
    if lens.Some? then Some(lens.value[i]) else None
  }

  /** One step of the decoder. */
  lemma CellStep(fields: seq<FieldType>, i: nat, nulls: seq<byte>, lens: Option<seq<nat>>, rest: seq<byte>,
                 values: seq<Value>)
    requires i < |fields| == |values| && |nulls| == NullBitsSize(|fields|)
    requires lens.Some? ==> |lens.value| == |fields|
    ensures
      var w := CellWidth(fields[i], WidthOf(lens, i), rest);
      DecodeCells(fields, i, nulls, lens, rest) == Ok(values[i..])
      <==> if IsNullBit(nulls, i) then
             values[i] == Nil && DecodeCells(fields, i + 1, nulls, lens, rest) == Ok(values[i + 1..])
           else
             && w.Ok? && w.value <= |rest|
             && DecodeValue(fields[i], rest[..w.value], lens.Some?) == Ok(values[i])
             && DecodeCells(fields, i + 1, nulls, lens, rest[w.value..]) == Ok(values[i + 1..])
  {
    hide IsNullBit, CellWidth, DecodeValue;
    if IsNullBit(nulls, i) {
      OneMore(values, i, Nil, DecodeCells(fields, i + 1, nulls, lens, rest));
    } else {
      var w := CellWidth(fields[i], WidthOf(lens, i), rest);
      if w.Ok? && w.value <= |rest| {
        var v := DecodeValue(fields[i], rest[..w.value], lens.Some?);
        if v.Ok? {
          OneMore(values, i, v.value, DecodeCells(fields, i + 1, nulls, lens, rest[w.value..]));
        }
      }
    }
  }

  /** Where the widths come from. */
  ghost predicate WidthsKnown(fields: seq<FieldType>, payload: seq<byte>, indexed: bool, k: nat, lens: Option<seq<nat>>) {
    && (lens.Some? <==> indexed)
    && (lens.Some? ==>
          && TableRead(fields, payload, k, 0, lens.value)
          && k + 4 * Entries(fields, payload, |fields|) <= |payload|)
  }

  lemma EntryRead(payload: seq<byte>, entry: nat, n: nat)
    requires entry + 4 <= |payload|
    ensures Get32(payload[entry..]) == n <==> n < 0x1_0000_0000 && payload[entry..entry + 4] == Four(n)
  {
    hide Get32, Four;
    assert payload[entry..][..4] == payload[entry..entry + 4];
    if n < 0x1_0000_0000 {
      UnsignedFour(payload[entry..], n);
    }
  }

  /** The width clause of ColumnRead. */
  ghost predicate WidthStands(fields: seq<FieldType>, payload: seq<byte>, indexed: bool, k: nat, i: nat, start: nat,
                              n: nat)
    requires i < |fields| && start <= |payload|
  {
    var entry := k + 4 * Entries(fields, payload, i);
    if !indexed then WidthRead(fields[i], payload[start..], n)
    else if !Measured(fields[i]) then n == FixedBytes(fields[i])
    else entry + 4 <= |payload| && n < 0x1_0000_0000 && payload[entry..entry + 4] == Four(n)
  }

  lemma TableWidthExactly(fields: seq<FieldType>, payload: seq<byte>, k: nat, i: nat, widths: seq<nat>, start: nat,
                          n: nat)
    requires TableRead(fields, payload, k, 0, widths) && i < |fields| && !Absent(payload, i) && start <= |payload|
    requires k + 4 * Entries(fields, payload, |fields|) <= |payload|
    ensures widths[i] == n <==> WidthStands(fields, payload, true, k, i, start, n)
  {
    hide Measured, FixedBytes, Four, Get32, Absent;
    assert widths[i - 0] == WidthAt(fields, payload, k, i);
    EntriesGrow(fields, payload, i + 1, |fields|);
    assert Measured(fields[i]) ==> Entries(fields, payload, i + 1) == Entries(fields, payload, i) + 1;
    hide Entries, TableRead;
    if Measured(fields[i]) {
      EntryRead(payload, k + 4 * Entries(fields, payload, i), n);
    }
  }

  lemma WidthExactly(fields: seq<FieldType>, payload: seq<byte>, indexed: bool, k: nat, i: nat, lens: Option<seq<nat>>,
                     start: nat, n: nat)
    requires WidthsKnown(fields, payload, indexed, k, lens) && i < |fields| && !Absent(payload, i) && start <= |payload|
    requires lens.Some? ==> |lens.value| == |fields|
    ensures CellWidth(fields[i], WidthOf(lens, i), payload[start..]) == Ok(n)
       <==> WidthStands(fields, payload, indexed, k, i, start, n)
  {
    hide Absent, CompactedFieldSize, WidthRead, TableRead, Entries;
    if indexed {
      hide WidthStands;
      TableWidthExactly(fields, payload, k, i, lens.value, start, n);
    } else {
      WidthReadExactly(fields[i], payload[start..], n);
    }
  }

  lemma ColumnReadExactly(fields: seq<FieldType>, payload: seq<byte>, indexed: bool, k: nat, i: nat,
                          lens: Option<seq<nat>>, start: nat, end: nat, v: Value)
    requires WidthsKnown(fields, payload, indexed, k, lens) && i < |fields| && !Absent(payload, i) && start <= |payload|
    requires lens.Some? ==> |lens.value| == |fields|
    ensures ColumnRead(fields, payload, indexed, k, i, start, end, v)
       <==> && start <= end <= |payload|
            && CellWidth(fields[i], WidthOf(lens, i), payload[start..]) == Ok(end - start)
            && DecodeValue(fields[i], payload[start..end], indexed) == Ok(v)
  {
    hide Absent, WidthsKnown, CellWidth, DecodeValue, Measured, FixedBytes, WidthRead, Four, Entries, WidthOf;
    if start <= end {
      WidthExactly(fields, payload, indexed, k, i, lens, start, end - start);
    }
  }

  lemma {:induction false} ColumnsExactly(fields: seq<FieldType>, payload: seq<byte>, indexed: bool, k: nat, i: nat,
                                          nulls: seq<byte>, lens: Option<seq<nat>>, start: nat, values: seq<Value>)
    requires i <= |fields| == |values| && k == NullBitsSize(|fields|) && k <= |payload| && nulls == payload[..k]
    requires WidthsKnown(fields, payload, indexed, k, lens) && start <= |payload|
    ensures DecodeCells(fields, i, nulls, lens, payload[start..]) == Ok(values[i..])
       <==> ColumnsRead(fields, payload, indexed, k, i, start, values)
    decreases |fields| - i
  {
    if i < |fields| {
      hide IsNullBit, Absent, DecodeCells, WidthsKnown, StepFound, ColumnsRead;
      AbsentExactly(payload, k, i);
      LensOfAll(fields, payload, indexed, k, lens);
      StepAt(fields, payload, indexed, i, nulls, lens, start, values);
      if Absent(payload, i) {
        ColumnsExactly(fields, payload, indexed, k, i + 1, nulls, lens, start, values);
        AbsentColumn(fields, payload, indexed, k, i, start, values);
      } else {
        PresentColumn(fields, payload, indexed, k, i, nulls, lens, start, values);
      }
    } else {
      assert values[i..] == [];
    }
  }

  lemma LensOfAll(fields: seq<FieldType>, payload: seq<byte>, indexed: bool, k: nat, lens: Option<seq<nat>>)
    requires WidthsKnown(fields, payload, indexed, k, lens)
    ensures lens.Some? ==> |lens.value| == |fields|
    ensures lens.Some? <==> indexed
  {
  }

  lemma AbsentColumn(fields: seq<FieldType>, payload: seq<byte>, indexed: bool, k: nat, i: nat, start: nat,
                     values: seq<Value>)
    requires i < |fields| == |values| && Absent(payload, i)
    ensures ColumnsRead(fields, payload, indexed, k, i, start, values)
       <==> values[i] == Nil && ColumnsRead(fields, payload, indexed, k, i + 1, start, values)
  {
    hide Absent;
    if values[i] == Nil {
      assert ColumnRead(fields, payload, indexed, k, i, start, start, values[i]);
    }
  }

  /** Where a column can end in one place only, the later ones follow there. */
  lemma ColumnsFollow(fields: seq<FieldType>, payload: seq<byte>, indexed: bool, k: nat, i: nat, start: nat, end: nat,
                      values: seq<Value>)
    requires i < |fields| == |values|
    requires forall e: nat :: ColumnRead(fields, payload, indexed, k, i, start, e, values[i]) ==> e == end
    ensures ColumnsRead(fields, payload, indexed, k, i, start, values)
       <==> && ColumnRead(fields, payload, indexed, k, i, start, end, values[i])
            && ColumnsRead(fields, payload, indexed, k, i + 1, end, values)
  {
    hide ColumnRead;
  }

  lemma {:induction false} PresentColumn(fields: seq<FieldType>, payload: seq<byte>, indexed: bool, k: nat, i: nat,
                                         nulls: seq<byte>, lens: Option<seq<nat>>, start: nat, values: seq<Value>)
    requires i < |fields| == |values| && k == NullBitsSize(|fields|) && k <= |payload| && nulls == payload[..k]
    requires WidthsKnown(fields, payload, indexed, k, lens) && start <= |payload| && !Absent(payload, i)
    requires lens.Some? ==> |lens.value| == |fields|
    ensures StepFound(fields, payload, indexed, i, nulls, lens, start, values)
       <==> ColumnsRead(fields, payload, indexed, k, i, start, values)
    decreases |fields| - i, 0
  {
    hide Absent, DecodeCells, WidthsKnown, CellWidth, DecodeValue, NullBitsSize, WidthOf, ColumnRead, ColumnsRead;
    var w := CellWidth(fields[i], WidthOf(lens, i), payload[start..]);
    var end := start + w.GetOr(0);
    forall e: nat | ColumnRead(fields, payload, indexed, k, i, start, e, values[i])
      ensures e == end
    {
      ColumnReadExactly(fields, payload, indexed, k, i, lens, start, e, values[i]);
    }
    ColumnsFollow(fields, payload, indexed, k, i, start, end, values);
    ColumnReadExactly(fields, payload, indexed, k, i, lens, start, end, values[i]);
    if w.Ok? && end <= |payload| {
      ColumnsExactly(fields, payload, indexed, k, i + 1, nulls, lens, end, values);
    }
  }

  /** The decoder finds column `i` at byte `start` and the later ones behind it. */
  ghost predicate StepFound(fields: seq<FieldType>, payload: seq<byte>, indexed: bool, i: nat, nulls: seq<byte>,
                            lens: Option<seq<nat>>, start: nat, values: seq<Value>)
    requires i < |fields| == |values| && |nulls| == NullBitsSize(|fields|) && start <= |payload|
    requires lens.Some? ==> |lens.value| == |fields|
  {
    var w := CellWidth(fields[i], WidthOf(lens, i), payload[start..]);
    && w.Ok? && start + w.value <= |payload|
    && DecodeValue(fields[i], payload[start..start + w.value], indexed) == Ok(values[i])
    && DecodeCells(fields, i + 1, nulls, lens, payload[start + w.value..]) == Ok(values[i + 1..])
  }

  lemma StepAt(fields: seq<FieldType>, payload: seq<byte>, indexed: bool, i: nat, nulls: seq<byte>,
               lens: Option<seq<nat>>, start: nat, values: seq<Value>)
    requires i < |fields| == |values| && |nulls| == NullBitsSize(|fields|) && start <= |payload|
    requires lens.Some? ==> |lens.value| == |fields|
    requires lens.Some? <==> indexed
    ensures DecodeCells(fields, i, nulls, lens, payload[start..]) == Ok(values[i..])
       <==> if IsNullBit(nulls, i) then
              values[i] == Nil && DecodeCells(fields, i + 1, nulls, lens, payload[start..]) == Ok(values[i + 1..])
            else StepFound(fields, payload, indexed, i, nulls, lens, start, values)
  {
    hide IsNullBit, DecodeCells, CellWidth, DecodeValue, WidthOf;
    CellStep(fields, i, nulls, lens, payload[start..], values);
    var w := CellWidth(fields[i], WidthOf(lens, i), payload[start..]);
    if w.Ok? && start + w.value <= |payload| {
      CutTwice(payload, start, w.value);
    }
  }

  lemma CutTwice(payload: seq<byte>, start: nat, n: nat)
    requires start + n <= |payload|
    ensures payload[start..][..n] == payload[start..start + n] && payload[start..][n..] == payload[start + n..]
  {
  }

  // ---------- the whole row ----------

  /**
   A payload is read as the row `values` if and only if it has k bytes of null bits, as few as hold a bit for each
   column, the length table behind them if there is one, and every column where the widths put it.
   */
  lemma RowReadExactly(fields: seq<FieldType>, payload: seq<byte>, indexed: bool, k: nat, values: seq<Value>)
    requires 8 * (k - 1) < |fields| <= 8 * k && |values| == |fields|
    ensures
      var start := k + if indexed then 4 * Entries(fields, payload, |fields|) else 0;
      DecodeRow(fields, payload, indexed) == Ok(values)
      <==> && ValidFields(fields) && start <= |payload|
           && ColumnsRead(fields, payload, indexed, k, 0, start, values)
    ensures ValidFields(fields) && |payload| < k ==> DecodeRow(fields, payload, indexed) == Err(PayloadTooShort)
    ensures
      ValidFields(fields) && indexed && k <= |payload| < k + 4 * Entries(fields, payload, |fields|) ==>
        DecodeRow(fields, payload, indexed) == Err(PayloadTruncated)
  {
    hide ColumnsRead, ValidFields, NullBitsSize, DecodeRow, Entries;
    WidthUnique(|fields|, k);
    if indexed {
      IndexedReadExactly(fields, payload, k, values);
    } else {
      CompactedReadExactly(fields, payload, k, values);
    }
  }

  lemma IndexedReadExactly(fields: seq<FieldType>, payload: seq<byte>, k: nat, values: seq<Value>)
    requires k == NullBitsSize(|fields|) && |values| == |fields|
    ensures
      var r, start := DecodeRow(fields, payload, true), k + 4 * Entries(fields, payload, |fields|);
      && (r == Ok(values) <==> && ValidFields(fields) && start <= |payload|
                               && ColumnsRead(fields, payload, true, k, 0, start, values))
      && (ValidFields(fields) && |payload| < k ==> r == Err(PayloadTooShort))
      && (ValidFields(fields) && k <= |payload| < start ==> r == Err(PayloadTruncated))
  {
    hide DecodeCells, ColumnsRead, ReadLengths, ValidFields, NullBitsSize, DecodeRow, Entries;
    RowStarts(fields, payload, true, k);
    if ValidFields(fields) && k <= |payload| {
      IndexedColumns(fields, payload, k, payload[..k], values);
    }
  }

  lemma CompactedReadExactly(fields: seq<FieldType>, payload: seq<byte>, k: nat, values: seq<Value>)
    requires k == NullBitsSize(|fields|) && |values| == |fields|
    ensures
      var r := DecodeRow(fields, payload, false);
      && (r == Ok(values) <==> && ValidFields(fields) && k <= |payload|
                               && ColumnsRead(fields, payload, false, k, 0, k, values))
      && (ValidFields(fields) && |payload| < k ==> r == Err(PayloadTooShort))
  {
    hide DecodeCells, ColumnsRead, ReadLengths, ValidFields, NullBitsSize, DecodeRow;
    RowStarts(fields, payload, false, k);
    if ValidFields(fields) && k <= |payload| {
      CompactedColumns(fields, payload, k, payload[..k], values);
    }
  }

  lemma CompactedColumns(fields: seq<FieldType>, payload: seq<byte>, k: nat, nulls: seq<byte>, values: seq<Value>)
    requires k == NullBitsSize(|fields|) && k <= |payload| && nulls == payload[..k] && |values| == |fields|
    ensures DecodeCells(fields, 0, nulls, None, payload[k..]) == Ok(values)
       <==> ColumnsRead(fields, payload, false, k, 0, k, values)
  {
    hide DecodeCells, ColumnsRead, NullBitsSize;
    assert values[0..] == values;
    ColumnsExactly(fields, payload, false, k, 0, nulls, None, k, values);
  }

  lemma RowStarts(fields: seq<FieldType>, payload: seq<byte>, indexed: bool, k: nat)
    requires k == NullBitsSize(|fields|)
    ensures
      var r := DecodeRow(fields, payload, indexed);
      && (!ValidFields(fields) ==> r == Err(InvalidSchema))
      && (ValidFields(fields) && |payload| < k ==> r == Err(PayloadTooShort))
      && (ValidFields(fields) && k <= |payload| ==>
            var table := ReadLengths(fields, 0, payload[..k], payload[k..]);
            r == if !indexed then DecodeCells(fields, 0, payload[..k], None, payload[k..])
                 else if table.Err? then Err(table.error)
                 else DecodeCells(fields, 0, payload[..k], Some(table.value.0), table.value.1))
  {
    hide DecodeCells, ReadLengths, ValidFields, NullBitsSize;
  }

  lemma IndexedColumns(fields: seq<FieldType>, payload: seq<byte>, k: nat, nulls: seq<byte>, values: seq<Value>)
    requires k == NullBitsSize(|fields|) && k <= |payload| && nulls == payload[..k] && |values| == |fields|
    requires ValidFields(fields)
    ensures
      var start := k + 4 * Entries(fields, payload, |fields|);
      var table := ReadLengths(fields, 0, nulls, payload[k..]);
      && (table.Ok? <==> start <= |payload|)
      && (table.Err? ==> table.error == PayloadTruncated)
      && (table.Ok? ==>
            (DecodeCells(fields, 0, nulls, Some(table.value.0), table.value.1) == Ok(values)
             <==> ColumnsRead(fields, payload, true, k, 0, start, values)))
  {
    hide DecodeCells, ColumnsRead, ReadLengths, TableRead, NullBitsSize, ValidFields;
    assert Entries(fields, payload, 0) == 0;
    hide Entries;
    assert values[0..] == values;
    LengthsExactly(fields, payload, k, 0);
    var table := TableFrom(fields, payload, k, 0);
    if table.Ok? {
      ColumnsExactly(fields, payload, true, k, 0, nulls, Some(table.value.0),
                     k + 4 * Entries(fields, payload, |fields|), values);
    }
  }
}

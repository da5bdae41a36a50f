/** Batches carry their rows and keys unharmed: log streams, key-value records, value batches. */
module BatchRoundTrip {
  import opened BatchLayout
  import opened Bytes
  import opened FieldTypes
  import opened LookupKey
  import opened Results
  import opened RowCompacted
  import opened RowLayout
  import opened RowRoundTrip
  import opened Varint

  // ---------- log streams ----------

  /** `row` can be a record: its length with the attribute byte is below 2^32. */
  predicate RecordFits(row: seq<byte>) { 1 + |row| < 0x1_0000_0000 }

  /** Rows the indexed codec stores. */
  predicate StorableRow(fields: seq<FieldType>, values: seq<Value>) {
    && RowKeysHashable(fields) && EncodeRow(fields, values, true).Ok? && RowFits(fields, values)
    && RecordFits(EncodeRow(fields, values, true).value)
  }

  /** The records of several rows, one after the other. */
  function LogRecords(fields: seq<FieldType>, rows: seq<seq<Value>>): seq<byte>
    requires forall i :: 0 <= i < |rows| ==> StorableRow(fields, rows[i])
  {
    if rows == [] then []
    else
      assert StorableRow(fields, rows[0]);
      FrameLogRecord(EncodeRow(fields, rows[0], true).value) + LogRecords(fields, rows[1..])
  }

  function CanonRows(fields: seq<FieldType>, rows: seq<seq<Value>>): (r: seq<seq<Value>>)
    requires forall i :: 0 <= i < |rows| ==> |rows[i]| == |fields|
    ensures |r| == |rows| && forall i :: 0 <= i < |rows| ==> r[i] == CanonRow(fields, rows[i])
  {
    if rows == [] then [] else [CanonRow(fields, rows[0])] + CanonRows(fields, rows[1..])
  }

  /** A record: four bytes of length, a header, a row, and what follows. */
  lemma RecordParts(length: seq<byte>, header: seq<byte>, row: seq<byte>, rest: seq<byte>)
    requires |length| == 4
    ensures
      var payload := length + header + row + rest;
      && payload == length + (header + row + rest)
      && (|header| > 0 ==> payload[4] == header[0])
      && payload[4 + |header|..4 + |header| + |row|] == row
      && payload[4 + |header| + |row|..] == rest
  {
  }

  /** One step of decodeLogRecords. */
  lemma DecodeOneLogRecord(fields: seq<FieldType>, row: seq<byte>, rest: seq<byte>, values: seq<Value>)
    requires RecordFits(row) && DecodeRow(fields, row, true) == Ok(values) && DecodeLogRecords(fields, rest).Ok?
    ensures DecodeLogRecords(fields, FrameLogRecord(row) + rest) == Ok([values] + DecodeLogRecords(fields, rest).value)
  {
    Get32OfLE32(U32(1 + |row|), [0] + row + rest);
    RecordParts(LE32(U32(1 + |row|)), [0], row, rest);
    hide LE32, Get32, DecodeRow;
  }

  /** Any number of records in one batch. */
  lemma {:induction false} LogRecordsRoundTrip(fields: seq<FieldType>, rows: seq<seq<Value>>)
    requires forall i :: 0 <= i < |rows| ==> StorableRow(fields, rows[i])
    ensures DecodeLogRecords(fields, LogRecords(fields, rows)) == Ok(CanonRows(fields, rows))
  {
    if rows != [] {
      assert StorableRow(fields, rows[0]);
      IndexedRowDecodes(fields, rows[0]);
      LogRecordsRoundTrip(fields, rows[1..]);
      DecodeOneLogRecord(fields, EncodeRow(fields, rows[0], true).value, LogRecords(fields, rows[1..]),
                         CanonRow(fields, rows[0]));
    }
  }

  lemma LogBatchParts(offset: seq<byte>, length: seq<byte>, magic: seq<byte>, time: seq<byte>, sum: seq<byte>,
                      checked: seq<byte>, tail: seq<byte>)
    requires |offset| == |time| == 8 && |length| == |sum| == 4 && |magic| == 1
    ensures
      var payload := offset + length + magic + time + sum + checked + tail;
      && payload[8..] == length + (magic + time + sum + checked + tail)
      && payload[12] == magic[0]
  {
  }

  lemma LogBatchBytes(crc: Checksum, recordLength: nat, checked: seq<byte>, tail: seq<byte>)
    requires LOG_LENGTH_FIELD_SIZE + recordLength < 0x1_0000_0000 && |checked| == 23 + recordLength
    ensures
      var payload := SealLogBatch(crc, recordLength, checked) + tail;
      var size := LOG_HEADER_SIZE + recordLength;
      && |payload| == size + |tail|
      && payload[12] == 0
      && Get32(payload[8..]) == LOG_LENGTH_FIELD_SIZE + recordLength
      && payload[..size] == SealLogBatch(crc, recordLength, checked)
      && payload[size..] == tail
  {
    var n := U32(LOG_LENGTH_FIELD_SIZE + recordLength);
    var sum := LE32(crc(checked));
    Get32OfLE32(n, [0] + LE64(0) + sum + checked + tail);
    LogBatchParts(LE64(0), LE32(n), [0], LE64(0), sum, checked, tail);
    CutAt(SealLogBatch(crc, recordLength, checked), tail);
    hide LE32, LE64, Get32;
  }

  /** A four-byte checksum slot between what precedes it and what it covers. */
  lemma SumParts(prelude: seq<byte>, sum: seq<byte>, checked: seq<byte>)
    requires |sum| == 4
    ensures
      var batch := prelude + sum + checked;
      && batch[|prelude|..] == sum + checked
      && batch[|prelude| + 4..] == checked
  {
  }

  /** The checksum slot lies before the bytes it covers, so the patched batch checks. */
  lemma LogBatchChecks(crc: Checksum, recordLength: nat, checked: seq<byte>)
    ensures
      var batch := SealLogBatch(crc, recordLength, checked);
      |batch| == 25 + |checked| && batch[25..] == checked && Get32(batch[21..]) == crc(checked)
  {
    Get32OfLE32(crc(checked), checked);
    SumParts(LogPrelude(recordLength), LE32(crc(checked)), checked);
    hide LE32, Get32, LogPrelude;
  }

  /** decodeLogBatch finds the batch at the front of a stream, and its records. */
  lemma LogBatchRoundTrip(crc: Checksum, summary: seq<byte>, record: seq<byte>, tail: seq<byte>)
    requires |summary| == 23 && LOG_LENGTH_FIELD_SIZE + |record| < 0x1_0000_0000
    ensures DecodeLogBatch(crc, SealLogBatch(crc, |record|, summary + record) + tail)
         == Ok((LOG_HEADER_SIZE + |record|, record))
    ensures (SealLogBatch(crc, |record|, summary + record) + tail)[LOG_HEADER_SIZE + |record|..] == tail
  {
    var checked := summary + record;
    LogBatchBytes(crc, |record|, checked, tail);
    LogBatchChecks(crc, |record|, checked);
    var batch := SealLogBatch(crc, |record|, checked);
    CutAt(summary, record);
    assert batch[LOG_HEADER_SIZE..] == batch[25..][23..];
  }

  /** What one call of EncodeLogRecordBatch is given. */
  datatype LogWrite = LogWrite(values: seq<Value>, opts: LogBatchOptions)

  /** Writes whose batches are shorter than 2^32 bytes. */
  predicate WritesFit(fields: seq<FieldType>, writes: seq<LogWrite>) {
    forall i :: 0 <= i < |writes| ==>
      StorableRow(fields, writes[i].values)
      && LOG_LENGTH_FIELD_SIZE + 5 + |EncodeRow(fields, writes[i].values, true).value| < 0x1_0000_0000
  }

  /** The concatenation of any number of encoded batches. */
  function LogStream(crc: Checksum, fields: seq<FieldType>, writes: seq<LogWrite>): seq<byte>
    requires WritesFit(fields, writes)
  {
    if writes == [] then []
    else
      EncodeLogRecordBatch(crc, fields, writes[0].values, true, writes[0].opts).value
      + LogStream(crc, fields, writes[1..])
  }

  function WrittenRows(fields: seq<FieldType>, writes: seq<LogWrite>): (rows: seq<seq<Value>>)
    requires WritesFit(fields, writes)
    ensures |rows| == |writes|
  {
    if writes == [] then []
    else
      assert StorableRow(fields, writes[0].values);
      [CanonRow(fields, writes[0].values)] + WrittenRows(fields, writes[1..])
  }

  /** One step of DecodeLogRecordBatchRows. */
  lemma DecodeOneLogBatch(crc: Checksum, fields: seq<FieldType>, summary: seq<byte>, row: seq<byte>, rest: seq<byte>,
                          values: seq<Value>)
    requires |summary| == 23 && LOG_LENGTH_FIELD_SIZE + 5 + |row| < 0x1_0000_0000
    requires DecodeRow(fields, row, true) == Ok(values) && DecodeLogRecordBatchRows(crc, fields, rest).Ok?
    ensures
      var record := FrameLogRecord(row);
      DecodeLogRecordBatchRows(crc, fields, SealLogBatch(crc, |record|, summary + record) + rest)
      == Ok([values] + DecodeLogRecordBatchRows(crc, fields, rest).value)
  {
    var record := FrameLogRecord(row);
    LogBatchRoundTrip(crc, summary, record, rest);
    DecodeOneLogRecord(fields, row, [], values);
    assert record + [] == record && [values] + [] == [values];
  }

  lemma LogStreamStep(crc: Checksum, fields: seq<FieldType>, writes: seq<LogWrite>)
    requires WritesFit(fields, writes) && writes != []
    ensures
      var w := writes[0];
      assert StorableRow(fields, w.values);
      var record := FrameLogRecord(EncodeRow(fields, w.values, true).value);
      LogStream(crc, fields, writes)
      == SealLogBatch(crc, |record|, LogSummary(w.opts.schemaID, 0, w.opts.writer, 1) + record)
         + LogStream(crc, fields, writes[1..])
  {
  }

  /** The log stream round trip: any number of encoded batches decode to their rows in order, for any checksum. */
  lemma {:induction false} LogStreamRoundTrip(crc: Checksum, fields: seq<FieldType>, writes: seq<LogWrite>)
    requires WritesFit(fields, writes)
    ensures DecodeLogRecordBatchRows(crc, fields, LogStream(crc, fields, writes)) == Ok(WrittenRows(fields, writes))
  {
    if writes != [] {
      var w := writes[0];
      assert StorableRow(fields, w.values);
      var row, rest := EncodeRow(fields, w.values, true).value, LogStream(crc, fields, writes[1..]);
      IndexedRowDecodes(fields, w.values);
      LogStreamRoundTrip(crc, fields, writes[1..]);
      DecodeOneLogBatch(crc, fields, LogSummary(w.opts.schemaID, 0, w.opts.writer, 1), row, rest,
                        CanonRow(fields, w.values));
      LogStreamStep(crc, fields, writes);
    }
  }

  // ---------- key-value records ----------

  /** An independent reader of one key-value record: its key and its row bytes. */
  function SplitKvRecord(record: seq<byte>): Result<(seq<byte>, seq<byte>)> {
    if |record| < 4 then Err(PayloadTooShort)
    else if |record| != 4 + Get32(record) then Err(IncorrectSize)
    else
      match Uvarint(record[4..])
      case Decoded(n, width) =>
        UvarintWidth(record[4..], 0);
        var rest := record[4..][width..];
        if n > |rest| then Err(PayloadTruncated) else Ok((rest[..n], rest[n..]))
      case _ => Err(InvalidVarint)
  }

  predicate KvRecordFits(key: seq<byte>, row: seq<byte>) {
    |FrameKvRecord(key, row)| - 4 < 0x1_0000_0000
  }

  lemma SplitFramedRecord(key: seq<byte>, row: seq<byte>)
    requires KvRecordFits(key, row)
    ensures SplitKvRecord(FrameKvRecord(key, row)) == Ok((key, row))
  {
    var keyLength, record := PutUvarint(U64(|key|)), FrameKvRecord(key, row);
    var n := U32(|keyLength| + |key| + |row|);
    assert record == LE32(n) + (keyLength + (key + row));
    Get32OfLE32(n, keyLength + (key + row));
    UvarintOfPut(U64(|key|), key + row);
    CutAt(keyLength, key + row);
    CutAt(key, row);
  }

  /** The checksum slot of a key-value batch, too, lies before the bytes it covers. */
  lemma KvBatchChecks(crc: Checksum, recordLength: nat, checked: seq<byte>)
    ensures
      var batch := SealKvBatch(crc, recordLength, checked);
      |batch| == 9 + |checked| && batch[9..] == checked && batch[4] == 0 && Get32(batch[5..]) == crc(checked)
  {
    var prelude := LE32(U32(KV_LENGTH_FIELD_SIZE + recordLength)) + [0];
    Get32OfLE32(crc(checked), checked);
    SumParts(prelude, LE32(crc(checked)), checked);
    hide LE32, Get32;
  }

  lemma KvSummaryStarts(schemaID: int32, writer: Option<WriterState>, record: seq<byte>)
    ensures Get16(KvSummary(schemaID, writer) + record) == U16(schemaID)
    ensures (KvSummary(schemaID, writer) + record)[19..] == record
  {
    var later := [0] + LE64(EncodedWriterID(writer)) + LE32(EncodedBatchSequence(writer)) + LE32(1) + record;
    assert KvSummary(schemaID, writer) + record == LE16(U16(schemaID)) + later;
    Get16OfLE16(U16(schemaID), later);
    CutAt(KvSummary(schemaID, writer), record);
  }

  /** decodeKvBatch passes every encoded batch and returns its schema id modulo 2^16. */
  lemma KvBatchRoundTrip(crc: Checksum, schemaID: int32, record: seq<byte>, writer: Option<WriterState>)
    ensures DecodeKvBatch(crc, EncodeKvBatch(crc, schemaID, record, writer)) == Ok((U16(schemaID), record))
  {
    var checked := KvSummary(schemaID, writer) + record;
    var batch := SealKvBatch(crc, |record|, checked);
    KvBatchChecks(crc, |record|, checked);
    KvSummaryStarts(schemaID, writer, record);
    assert batch[KV_HEADER_SIZE..] == batch[9..][19..];
  }

  /**
   Key-value framing: from an encoded batch, the length fields and the key-length varint recover exactly the lookup
   key and the row; the delete batch of the same row carries the same key and an empty row, under the same schema id.
   */
  lemma KvFraming(crc: Checksum, fields: seq<FieldType>, values: seq<Value>, opts: KvBatchOptions)
    requires EncodeKvRecord(fields, values, opts).Ok?
    requires |EncodeKvRecord(fields, values, opts).value| - 4 < 0x1_0000_0000
    ensures
      var put := EncodeKvRecordBatch(crc, fields, values, opts);
      var delete := EncodeKvDeleteRecordBatch(crc, fields, values, opts);
      && put.Ok? && delete.Ok?
      && DecodeKvBatch(crc, put.value).Ok? && DecodeKvBatch(crc, delete.value).Ok?
      && DecodeKvBatch(crc, put.value).value.0 == DecodeKvBatch(crc, delete.value).value.0 == U16(opts.schemaID)
      && var key := EncodeLookupKey(fields, values, KeyColumns(opts)).value;
         var row := EncodeRow(fields, values, opts.indexed).value;
         && SplitKvRecord(DecodeKvBatch(crc, put.value).value.1) == Ok((key, row))
         && SplitKvRecord(DecodeKvBatch(crc, delete.value).value.1) == Ok((key, []))
  {
    var key, row := RecordKey(fields, values, opts).value, EncodeRow(fields, values, opts.indexed).value;
    KvBatchRoundTrip(crc, opts.schemaID, FrameKvRecord(key, row), opts.writer);
    KvBatchRoundTrip(crc, opts.schemaID, FrameKvRecord(key, []), opts.writer);
    SplitFramedRecord(key, row);
    SplitFramedRecord(key, []);
  }

  // ---------- value batches ----------

  /** A record of a value batch: length, schema id, row. */
  function ValueRecord(schemaID: uint16, row: seq<byte>): seq<byte> { LE32(U32(2 + |row|)) + LE16(schemaID) + row }

  function ValueRecords(rows: seq<(uint16, seq<byte>)>): seq<byte> {
    if rows == [] then [] else ValueRecord(rows[0].0, rows[0].1) + ValueRecords(rows[1..])
  }

  /** A value batch as the server lays it out: length, magic, count, records. */
  function ValueBatch(rows: seq<(uint16, seq<byte>)>): seq<byte> {
    LE32(U32(5 + |ValueRecords(rows)|)) + [0] + LE32(U32(|rows|)) + ValueRecords(rows)
  }

  /** Each row decodes to the values beside it and is short enough. */
  predicate RowsDecode(fields: seq<FieldType>, indexed: bool, rows: seq<(uint16, seq<byte>)>, values: seq<seq<Value>>) {
    |rows| == |values|
    && forall i :: 0 <= i < |rows| ==>
         2 + |rows[i].1| < 0x1_0000_0000 && DecodeRow(fields, rows[i].1, indexed) == Ok(values[i])
  }

  lemma {:induction false} ValueRecordsDecode(fields: seq<FieldType>, indexed: bool, rows: seq<(uint16, seq<byte>)>,
                                              values: seq<seq<Value>>)
    requires RowsDecode(fields, indexed, rows, values)
    ensures DecodeValueRecords(fields, indexed, |rows|, ValueRecords(rows)) == Ok(values)
  {
    hide LE16, LE32, Get32, DecodeRow;
    if rows != [] {
      var id, row, rest := rows[0].0, rows[0].1, ValueRecords(rows[1..]);
      RowsDecodeStep(fields, indexed, rows, values);
      hide RowsDecode;
      ValueRecordsDecode(fields, indexed, rows[1..], values[1..]);
      OneValueRecord(fields, indexed, |rows|, id, row, rest);
      assert values == [values[0]] + values[1..];
    }
  }

  lemma RowsDecodeStep(fields: seq<FieldType>, indexed: bool, rows: seq<(uint16, seq<byte>)>, values: seq<seq<Value>>)
    requires RowsDecode(fields, indexed, rows, values) && rows != []
    ensures values != [] && 2 + |rows[0].1| < 0x1_0000_0000 && DecodeRow(fields, rows[0].1, indexed) == Ok(values[0])
    ensures RowsDecode(fields, indexed, rows[1..], values[1..])
  {
    hide DecodeRow;
  }

  /** One step of the reader. */
  lemma OneValueRecord(fields: seq<FieldType>, indexed: bool, count: nat, id: uint16, row: seq<byte>, rest: seq<byte>)
    requires count > 0 && 2 + |row| < 0x1_0000_0000 && DecodeRow(fields, row, indexed).Ok?
    requires DecodeValueRecords(fields, indexed, count - 1, rest).Ok?
    ensures DecodeValueRecords(fields, indexed, count, ValueRecord(id, row) + rest)
         == Ok([DecodeRow(fields, row, indexed).value] + DecodeValueRecords(fields, indexed, count - 1, rest).value)
  {
    hide LE16, LE32, Get32, DecodeRow;
    Get32OfLE32(U32(2 + |row|), LE16(id) + row + rest);
    RecordParts(LE32(U32(2 + |row|)), LE16(id), row, rest);
  }

  lemma NineByteHeader(length: seq<byte>, magic: seq<byte>, count: seq<byte>, body: seq<byte>, tail: seq<byte>)
    requires |length| == 4 && |magic| == 1 && |count| == 4
    ensures
      var payload := length + magic + count + body + tail;
      && payload == length + (magic + count + body + tail)
      && payload[4] == magic[0] && payload[5..] == count + (body + tail)
      && payload[9..9 + |body|] == body
  {
  }

  lemma ValueBatchParts(rows: seq<(uint16, seq<byte>)>, tail: seq<byte>)
    requires 5 + |ValueRecords(rows)| < 0x1_0000_0000 && |rows| < 0x1_0000_0000
    ensures
      var body, payload := ValueRecords(rows), ValueBatch(rows) + tail;
      && |payload| >= 9 + |body|
      && Get32(payload) == 5 + |body| && payload[4] == 0 && Get32(payload[5..]) == |rows|
      && payload[9..9 + |body|] == body
  {
    var body := ValueRecords(rows);
    var length, count := LE32(U32(5 + |body|)), LE32(U32(|rows|));
    Get32OfLE32(U32(5 + |body|), [0] + count + body + tail);
    Get32OfLE32(U32(|rows|), body + tail);
    hide LE32, Get32, ValueRecords;
    NineByteHeader(length, [0], count, body, tail);
  }

  /** A value batch decodes to the rows its records hold, in order, whatever bytes follow the batch. */
  lemma ValueBatchRoundTrip(fields: seq<FieldType>, indexed: bool, rows: seq<(uint16, seq<byte>)>,
                            values: seq<seq<Value>>, tail: seq<byte>)
    requires ValidFields(fields) && RowsDecode(fields, indexed, rows, values)
    requires 5 + |ValueRecords(rows)| < 0x1_0000_0000 && |rows| < 0x1_0000_0000
    ensures DecodeValueRecordBatchRows(fields, ValueBatch(rows) + tail, indexed) == Ok(values)
  {
    ValueBatchParts(rows, tail);
    ValueRecordsDecode(fields, indexed, rows, values);
  }
}

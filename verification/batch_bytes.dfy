/**
 Log, key-value, value and Arrow batches byte by byte (internal/codec/row/row.go:78-324, 609-642 and
 internal/codec/arrow/log_batch.go:78-144): what is written, and which bytes are accepted.
 */
module BatchBytes {
  import opened BatchLayout
  import opened Bytes
  import opened FieldTypes
  import opened LookupKey
  import opened NestedReading
  import opened Results
  import opened RowLayout
  import opened Varint
  import opened WireForms
  import ArrowLog
  import Bits

  /** Eight bytes of writer id and four of batch sequence; without a writer state all of them are FF. */
  function WriterBytes(writer: Option<WriterState>): seq<byte> {
    match writer
    case None => [255, 255, 255, 255, 255, 255, 255, 255, 255, 255, 255, 255]
    case Some(w) => Eight(w.writerID) + Four(w.batchSequence)
  }

  lemma WriterBytesExactly(writer: Option<WriterState>)
    ensures LE64(EncodedWriterID(writer)) + LE32(EncodedBatchSequence(writer)) == WriterBytes(writer)
  {
    LEEight(EncodedWriterID(writer));
    LEFour(EncodedBatchSequence(writer));
    hide LE;
    if writer.Some? {
      EightWraps(writer.value.writerID);
      FourWraps(writer.value.batchSequence);
    }
  }

  lemma FourOf(n: int)
    ensures LE32(U32(n)) == Four(n)
  {
    hide LE, Four, U32;
    LEFour(U32(n));
    FourWraps(n);
  }

  lemma TwoOf(n: int)
    ensures LE16(U16(n)) == Two(n)
  {
    hide LE, Two, U16;
    LETwo(U16(n));
    TwoWraps(n);
  }

  lemma Zeros()
    ensures LE64(0) == [0, 0, 0, 0, 0, 0, 0, 0] && LE32(0) == [0, 0, 0, 0] && LE32(1) == [1, 0, 0, 0]
  {
    LEEight(0);
    LEFour(0);
    LEFour(1);
    hide LE;
  }

  // ---------- log batches ----------

  /** Base offset, length, magic, commit timestamp. */
  function LogFront(length: int): seq<byte> {
    [0, 0, 0, 0, 0, 0, 0, 0] + Four(length) + [0] + [0, 0, 0, 0, 0, 0, 0, 0]
  }

  /** Schema id, attributes, last offset delta, writer, record count, records. */
  function LogBody(schemaID: int32, attributes: byte, writer: Option<WriterState>, count: int, records: seq<byte>)
    : seq<byte> {
    Two(schemaID) + [attributes] + [0, 0, 0, 0] + WriterBytes(writer) + Four(count) + records
  }

  lemma SixPieces(a: seq<byte>, b: seq<byte>, c: seq<byte>, d: seq<byte>, e: seq<byte>, f: seq<byte>, g: seq<byte>)
    ensures a + b + c + d + e + f + g == a + b + c + (d + e) + f + g
  {
  }

  lemma LogBodyExactly(schemaID: int32, attributes: byte, writer: Option<WriterState>, count: nat, records: seq<byte>)
    ensures LogSummary(schemaID, attributes, writer, count) + records
         == LogBody(schemaID, attributes, writer, count, records)
  {
    hide LE16, LE32, LE64, U16, U32, Two, Four, WriterBytes, EncodedWriterID, EncodedBatchSequence;
    TwoOf(schemaID);
    FourOf(count);
    WriterBytesExactly(writer);
    Zeros();
    SixPieces(LE16(U16(schemaID)), [attributes], LE32(0), LE64(EncodedWriterID(writer)),
              LE32(EncodedBatchSequence(writer)), LE32(U32(count)), records);
  }

  /** A sealed batch: the front, the checksum of all that follows it, and the body. */
  lemma SealedExactly(crc: Checksum, recordLength: nat, checked: seq<byte>)
    ensures SealLogBatch(crc, recordLength, checked) == LogFront(36 + recordLength) + Four(crc(checked)) + checked
    ensures |LogFront(36 + recordLength)| == 21
  {
    hide LE32, LE64, U32, Four;
    FourOf(36 + recordLength);
    LEFour(crc(checked));
    Zeros();
  }

  /** A log batch of one row: 48 bytes of header, the record's length and attributes, and the row. */
  lemma LogBatchOnTheWire(crc: Checksum, fields: seq<FieldType>, values: seq<Value>, indexed: bool, opts: LogBatchOptions)
    ensures
      var row := EncodeRow(fields, values, indexed);
      EncodeLogRecordBatch(crc, fields, values, indexed, opts) ==
      if row.Err? then Err(row.error)
      else
        var records := Four(1 + |row.value|) + [0] + row.value;
        var body := LogBody(opts.schemaID, 0, opts.writer, 1, records);
        Ok(LogFront(36 + |records|) + Four(crc(body)) + body)
  {
    hide EncodeRow, LE32, U32, LogFront, LogBody, LogSummary, SealLogBatch, Four;
    var row := EncodeRow(fields, values, indexed);
    if row.Ok? {
      FourOf(1 + |row.value|);
      var records := Four(1 + |row.value|) + [0] + row.value;
      assert records == FrameLogRecord(row.value);
      LogBodyExactly(opts.schemaID, 0, opts.writer, 1, records);
      SealedExactly(crc, |records|, LogBody(opts.schemaID, 0, opts.writer, 1, records));
    }
  }

  /** An Arrow batch: the same header with the attribute bit of append-only batches and the number of records. */
  lemma ArrowBatchOnTheWire(crc: Checksum, record: seq<byte>, recordCount: nat, opts: ArrowLog.Options)
    ensures
      var body := LogBody(opts.schemaID, if opts.appendOnly then 1 else 0, opts.writer, recordCount, record);
      ArrowLog.EncodeBatch(crc, record, recordCount, opts) == LogFront(36 + |record|) + Four(crc(body)) + body
  {
    hide LogFront, LogBody, LogSummary, SealLogBatch, Four;
    var attributes := if opts.appendOnly then 1 else 0;
    LogBodyExactly(opts.schemaID, attributes, opts.writer, recordCount, record);
    SealedExactly(crc, |record|, LogBody(opts.schemaID, attributes, opts.writer, recordCount, record));
  }

  // ---------- key-value batches ----------

  /** A record: its length, the bytes that hold the length of the key, key, row. */
  function KvRecordBytes(prefix: seq<byte>, key: seq<byte>, row: seq<byte>): seq<byte> {
    Four(|prefix| + |key| + |row|) + prefix + key + row
  }

  /** The length of the key is a varint. */
  ghost predicate KvRecordForm(key: seq<byte>, row: seq<byte>, record: seq<byte>) {
    exists prefix: seq<byte> ::
      IsVarint(prefix, |key| % 0x1_0000_0000_0000_0000) && record == KvRecordBytes(prefix, key, row)
  }

  lemma FrameSpelled(key: seq<byte>, row: seq<byte>, prefix: seq<byte>)
    requires prefix == PutUvarint(U64(|key|))
    ensures FrameKvRecord(key, row) == KvRecordBytes(prefix, key, row)
  {
    hide LE32, U32, Four, PutUvarint, U64;
    FourOf(|prefix| + |key| + |row|);
  }

  lemma KvRecordExactly(key: seq<byte>, row: seq<byte>, record: seq<byte>)
    ensures FrameKvRecord(key, row) == record <==> KvRecordForm(key, row, record)
  {
    hide FrameKvRecord, KvRecordBytes, PutUvarint, IsVarint;
    hide U64;
    var n := |key| % 0x1_0000_0000_0000_0000;
    WrapsTo(|key|);
    FrameSpelled(key, row, PutUvarint(n));
    PutUvarintExactly(n, PutUvarint(n));
    if KvRecordForm(key, row, record) {
      var p: seq<byte> :| IsVarint(p, n) && record == KvRecordBytes(p, key, row);
      PutUvarintExactly(n, p);
    }
  }

  lemma WrapsTo(n: nat)
    ensures U64(n) == n % 0x1_0000_0000_0000_0000
  {
  }

  function KvBody(schemaID: int32, writer: Option<WriterState>, record: seq<byte>): seq<byte> {
    Two(schemaID) + [0] + WriterBytes(writer) + [1, 0, 0, 0] + record
  }

  /** A key-value batch around a record: length, magic, checksum of all that follows it, body. */
  lemma KvBatchOnTheWire(crc: Checksum, schemaID: int32, record: seq<byte>, writer: Option<WriterState>)
    ensures
      var body := KvBody(schemaID, writer, record);
      EncodeKvBatch(crc, schemaID, record, writer) == Four(24 + |record|) + [0] + Four(crc(body)) + body
  {
    hide LE16, LE32, LE64, U16, U32, Two, Four, WriterBytes, EncodedWriterID, EncodedBatchSequence;
    TwoOf(schemaID);
    FourOf(24 + |record|);
    WriterBytesExactly(writer);
    Zeros();
    var body := KvBody(schemaID, writer, record);
    assert KvSummary(schemaID, writer) + record == body by {
      FivePieces(LE16(U16(schemaID)), [0], LE64(EncodedWriterID(writer)), LE32(EncodedBatchSequence(writer)), LE32(1),
                 record);
    }
    LEFour(crc(body));
  }

  lemma FivePieces(a: seq<byte>, b: seq<byte>, c: seq<byte>, d: seq<byte>, e: seq<byte>, f: seq<byte>)
    ensures a + b + c + d + e + f == a + b + (c + d) + e + f
  {
  }

  /** The key of a record is that of the key columns, or of the first column where none are named. */
  lemma KvRecordOnTheWire(fields: seq<FieldType>, values: seq<Value>, opts: KvBatchOptions)
    requires fields != [] && |values| == |fields| && ValidFields(fields)
    ensures
      var key := EncodeLookupKey(fields, values, if opts.keyColumns == [] then [0] else opts.keyColumns);
      var row := EncodeRow(fields, values, opts.indexed);
      var put, delete := EncodeKvRecord(fields, values, opts), EncodeKvDeleteRecord(fields, values, opts);
      && (key.Err? ==> put == delete == Err(key.error))
      && (key.Ok? ==> delete.Ok? && KvRecordForm(key.value, [], delete.value))
      && (key.Ok? && row.Err? ==> put == Err(row.error))
      && (key.Ok? && row.Ok? ==> put.Ok? && KvRecordForm(key.value, row.value, put.value))
  {
    hide EncodeLookupKey, EncodeRow, FrameKvRecord, KvRecordForm, ValidFields;
    var key := EncodeLookupKey(fields, values, if opts.keyColumns == [] then [0] else opts.keyColumns);
    var row := EncodeRow(fields, values, opts.indexed);
    if key.Ok? {
      KvRecordExactly(key.value, [], FrameKvRecord(key.value, []));
      if row.Ok? {
        KvRecordExactly(key.value, row.value, FrameKvRecord(key.value, row.value));
      }
    }
  }

  /** Without a sound schema and a value for each column there is no record. */
  lemma KvRecordRefused(fields: seq<FieldType>, values: seq<Value>, opts: KvBatchOptions)
    requires fields == [] || |values| != |fields| || !ValidFields(fields)
    ensures
      var error := if fields == [] then NoFields else if |values| != |fields| then ValueCountMismatch else InvalidSchema;
      EncodeKvRecord(fields, values, opts) == EncodeKvDeleteRecord(fields, values, opts) == Err(error)
  {
    hide EncodeLookupKey, EncodeRow;
  }

  // ---------- what is accepted ----------

  lemma FourAt(payload: seq<byte>, at: nat, n: nat)
    requires at + 4 <= |payload|
    ensures Get32(payload[at..]) == n <==> n < 0x1_0000_0000 && payload[at..at + 4] == Four(n)
  {
    hide Get32, Four;
    assert payload[at..][..4] == payload[at..at + 4];
    if n < 0x1_0000_0000 {
      UnsignedFour(payload[at..], n);
    } else {
      assert Get32(payload[at..]) != n;
    }
  }

  /** The first `size` bytes are a log batch: long enough, of magic 0, and with the checksum of bytes 25 and up. */
  predicate LogBatchStands(crc: Checksum, payload: seq<byte>, size: nat, validate: bool) {
    && 48 <= size <= |payload| && size - 12 < 0x1_0000_0000
    && payload[8..12] == Four(size - 12)
    && payload[12] == 0
    && (validate ==> payload[21..25] == Four(crc(payload[25..size])))
  }

  lemma CutInside(payload: seq<byte>, at: nat, size: nat)
    requires at + 4 <= size <= |payload|
    ensures payload[..size][at..] == payload[at..size] && payload[..size][at..][..4] == payload[at..][..4]
  {
  }

  /** A log batch is found at the front of any bytes if and only if it stands there. */
  lemma LogBatchReadExactly(crc: Checksum, payload: seq<byte>, size: nat, records: seq<byte>)
    ensures DecodeLogBatch(crc, payload) == Ok((size, records))
       <==> LogBatchStands(crc, payload, size, true) && records == payload[48..size]
  {
    hide Get32, Four;
    if |payload| >= 48 {
      FourAt(payload, 8, Get32(payload[8..]));
      if size >= 12 {
        FourAt(payload, 8, size - 12);
      }
      if 48 <= size <= |payload| {
        CutInside(payload, 21, size);
        CutInside(payload, 25, size);
        FourAt(payload[..size], 21, crc(payload[25..size]));
        assert payload[..size][48..] == payload[48..size];
      }
    }
  }

  /** The same for key-value batches, which fill the payload. */
  lemma KvBatchReadExactly(crc: Checksum, payload: seq<byte>, schemaID: uint16, records: seq<byte>)
    ensures DecodeKvBatch(crc, payload) == Ok((schemaID, records))
       <==> && |payload| >= 28 && payload[4] == 0 && payload[5..9] == Four(crc(payload[9..]))
            && payload[9..11] == Two(schemaID) && records == payload[28..]
  {
    hide Get16, Get32, Four, Two;
    if |payload| >= 28 {
      FourAt(payload, 5, crc(payload[9..]));
      GetTwo(payload[9..]);
      assert payload[9..][..2] == payload[9..11];
      if Two(schemaID) == payload[9..11] {
        TwoInjective(schemaID, Get16(payload[9..]));
      }
    }
  }

  /** The records of a log batch: each a length, a zero and a row of that length less one. */
  predicate LogRecordsStand(fields: seq<FieldType>, payload: seq<byte>, rows: seq<seq<Value>>)
    decreases |rows|
  {
    if rows == [] then payload == []
    else
      && |payload| >= 5 && 1 <= Count(payload) <= |payload| - 4 && payload[4] == 0
      && DecodeRow(fields, payload[5..4 + Count(payload)], true) == Ok(rows[0])
      && LogRecordsStand(fields, payload[4 + Count(payload)..], rows[1..])
  }

  lemma {:induction false} LogRecordsReadExactly(fields: seq<FieldType>, payload: seq<byte>, rows: seq<seq<Value>>)
    ensures DecodeLogRecords(fields, payload) == Ok(rows) <==> LogRecordsStand(fields, payload, rows)
    decreases |payload|
  {
    hide DecodeRow, Get32, Count, DecodeLogRecords, LogRecordsStand;
    LogRecordStep(fields, payload, rows);
    if |payload| >= 5 {
      CountExactly(payload);
      var end := 4 + Count(payload);
      if 5 <= end <= |payload| && rows != [] {
        LogRecordsReadExactly(fields, payload[end..], rows[1..]);
      }
    }
  }

  lemma FirstRow(rows: seq<seq<Value>>, first: seq<Value>, rest: seq<seq<Value>>)
    ensures [first] + rest == rows <==> rows != [] && rows[0] == first && rows[1..] == rest
  {
    if rows != [] && rows[0] == first && rows[1..] == rest {
      assert rows == [rows[0]] + rows[1..];
    }
    if [first] + rest == rows {
      assert rows[1..] == rest;
    }
  }

  /** One step of the reader beside one step of what it should read. */
  lemma LogRecordStep(fields: seq<FieldType>, payload: seq<byte>, rows: seq<seq<Value>>)
    ensures payload == [] ==> (DecodeLogRecords(fields, payload) == Ok(rows) <==> rows == [])
    ensures payload == [] ==> (LogRecordsStand(fields, payload, rows) <==> rows == [])
    ensures rows == [] ==> (LogRecordsStand(fields, payload, rows) <==> payload == [])
    ensures payload != [] && rows == [] ==> DecodeLogRecords(fields, payload) != Ok(rows)
    ensures 0 < |payload| < 5 ==> DecodeLogRecords(fields, payload).Err? && !LogRecordsStand(fields, payload, rows)
    ensures |payload| >= 5 && rows != [] ==>
              var end := 4 + Count(payload);
              if end > |payload| || payload[4] != 0 || end < 5 then
                DecodeLogRecords(fields, payload).Err? && !LogRecordsStand(fields, payload, rows)
              else
                var row, rest := DecodeRow(fields, payload[5..end], true), payload[end..];
                && (DecodeLogRecords(fields, payload) == Ok(rows)
                    <==> row == Ok(rows[0]) && DecodeLogRecords(fields, rest) == Ok(rows[1..]))
                && (LogRecordsStand(fields, payload, rows)
                    <==> row == Ok(rows[0]) && LogRecordsStand(fields, rest, rows[1..]))
  {
    hide DecodeRow, Get32, Count;
    if |payload| >= 5 {
      CountExactly(payload);
      var end := 4 + Count(payload);
      if 5 <= end <= |payload| {
        var row, rest := DecodeRow(fields, payload[5..end], true), DecodeLogRecords(fields, payload[end..]);
        if row.Ok? && rest.Ok? {
          FirstRow(rows, row.value, rest.value);
        }
      }
    }
  }

  /** The records of a value batch: each a length, a schema id and a row of that length less two. */
  predicate ValueRecordsStand(fields: seq<FieldType>, indexed: bool, body: seq<byte>, rows: seq<seq<Value>>)
    decreases |rows|
  {
    if rows == [] then body == []
    else
      && |body| >= 6 && 2 <= Count(body) <= |body| - 4
      && DecodeRow(fields, body[6..4 + Count(body)], indexed) == Ok(rows[0])
      && ValueRecordsStand(fields, indexed, body[4 + Count(body)..], rows[1..])
  }

  lemma ValueRecordStep(fields: seq<FieldType>, indexed: bool, count: nat, body: seq<byte>, rows: seq<seq<Value>>)
    requires count > 0
    ensures
      var r := DecodeValueRecords(fields, indexed, count, body);
      if |body| < 6 || !(2 <= Count(body) <= |body| - 4) then r.Err?
      else
        var row := DecodeRow(fields, body[6..4 + Count(body)], indexed);
        var rest := DecodeValueRecords(fields, indexed, count - 1, body[4 + Count(body)..]);
        r == Ok(rows) <==> rows != [] && row == Ok(rows[0]) && rest == Ok(rows[1..])
  {
    hide DecodeRow, Get32, Count;
    if |body| >= 6 {
      CountExactly(body);
      if 2 <= Count(body) <= |body| - 4 {
        var row := DecodeRow(fields, body[6..4 + Count(body)], indexed);
        var rest := DecodeValueRecords(fields, indexed, count - 1, body[4 + Count(body)..]);
        if row.Ok? && rest.Ok? {
          FirstRow(rows, row.value, rest.value);
        }
      }
    }
  }

  lemma ValueStandStep(fields: seq<FieldType>, indexed: bool, body: seq<byte>, rows: seq<seq<Value>>)
    requires rows != []
    ensures ValueRecordsStand(fields, indexed, body, rows)
       <==> && |body| >= 6 && 2 <= Count(body) <= |body| - 4
            && DecodeRow(fields, body[6..4 + Count(body)], indexed) == Ok(rows[0])
            && ValueRecordsStand(fields, indexed, body[4 + Count(body)..], rows[1..])
  {
    hide DecodeRow, Count;
  }

  lemma NoValueRecords(fields: seq<FieldType>, indexed: bool, body: seq<byte>)
    ensures DecodeValueRecords(fields, indexed, 0, body) == if body == [] then Ok([]) else Err(IncorrectSize)
    ensures ValueRecordsStand(fields, indexed, body, []) <==> body == []
  {
  }

  lemma {:induction false} ValueRecordsReadExactly(fields: seq<FieldType>, indexed: bool, count: nat, body: seq<byte>,
                                                   rows: seq<seq<Value>>)
    ensures DecodeValueRecords(fields, indexed, count, body) == Ok(rows)
       <==> |rows| == count && ValueRecordsStand(fields, indexed, body, rows)
    decreases count
  {
    hide DecodeRow, Count, DecodeValueRecords, ValueRecordsStand;
    if count == 0 {
      NoValueRecords(fields, indexed, body);
    } else {
      ValueRecordStep(fields, indexed, count, body, rows);
      if rows != [] {
        ValueStandStep(fields, indexed, body, rows);
        if |body| >= 6 && 2 <= Count(body) <= |body| - 4 {
          ValueRecordsReadExactly(fields, indexed, count - 1, body[4 + Count(body)..], rows[1..]);
        }
      }
    }
  }

  /** A value batch is accepted if and only if its length, magic and count are right and its records fill it exactly. */
  lemma ValueBatchReadExactly(fields: seq<FieldType>, payload: seq<byte>, indexed: bool, rows: seq<seq<Value>>)
    ensures DecodeValueRecordBatchRows(fields, payload, indexed) == Ok(rows)
       <==> && ValidFields(fields) && |payload| >= 9 && 9 <= Count(payload) + 4 <= |payload| && payload[4] == 0
            && Count(payload[5..]) == |rows|
            && ValueRecordsStand(fields, indexed, payload[9..Count(payload) + 4], rows)
  {
    hide Get32, Count, DecodeValueRecords, ValueRecordsStand, ValidFields;
    if |payload| >= 9 {
      CountExactly(payload);
      CountExactly(payload[5..]);
      if 9 <= Count(payload) + 4 <= |payload| {
        ValueRecordsReadExactly(fields, indexed, Count(payload[5..]), payload[9..Count(payload) + 4], rows);
      }
    }
  }

  /** An Arrow batch: where it is not append-only, as many bytes as it counts records come before the records. */
  lemma ArrowBatchReadExactly(crc: Checksum, payload: seq<byte>, validate: bool, r: ArrowLog.Decoded)
    ensures ArrowLog.DecodeBatch(crc, payload, validate) == Ok(r)
       <==> && LogBatchStands(crc, payload, r.size, validate)
            && r.appendOnly == (payload[27] % 2 == 1)
            && var types := if r.appendOnly then 0 else Count(payload[44..]);
               48 + types <= r.size && r.record == payload[48 + types..r.size]
  {
    hide Get32, Four, Count, ArrowLog.DecodeBody;
    if |payload| >= 48 {
      FourAt(payload, 8, Get32(payload[8..]));
      if r.size >= 12 {
        FourAt(payload, 8, r.size - 12);
      }
      if 48 <= r.size <= |payload| {
        FourAt(payload, 21, crc(payload[25..r.size]));
        CutInside(payload, 25, r.size);
        ArrowBodyExactly(payload, r.size, r);
      }
    }
  }

  lemma ArrowBodyExactly(payload: seq<byte>, size: nat, r: ArrowLog.Decoded)
    requires 48 <= size <= |payload|
    ensures ArrowLog.DecodeBody(payload[..size]) == Ok(r)
       <==> && r.size == size && r.appendOnly == (payload[27] % 2 == 1)
            && var types := if r.appendOnly then 0 else Count(payload[44..]);
               48 + types <= r.size && r.record == payload[48 + types..r.size]
  {
    hide Get32, Count;
    var batch := payload[..size];
    CountExactly(batch[44..]);
    assert Count(batch[44..]) == Count(payload[44..]) by {
      SameCount(payload, size);
    }
    assert batch[48..] == payload[48..size];
    var count := Count(payload[44..]);
    if count <= size - 48 {
      assert payload[48..size][count..] == payload[48 + count..size];
    }
    assert Bits.Bit(batch[27], 0) <==> payload[27] % 2 == 1;
  }

  lemma SameCount(payload: seq<byte>, size: nat)
    requires 48 <= size <= |payload|
    ensures Count(payload[..size][44..]) == Count(payload[44..])
  {
  }
}

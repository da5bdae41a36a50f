/**
 Log, key-value and value batches around encoded rows (internal/codec/row/row.go:78-324, 609-642). CRC-32C
 (polynomial in section 12.1 of RFC 3720) is a parameter: nothing here depends on which function it is.
 */
module BatchLayout {
  import opened Bytes
  import opened FieldTypes
  import opened LookupKey
  import opened Results
  import opened RowLayout
  import opened Varint

  const LOG_HEADER_SIZE := 48
  const KV_HEADER_SIZE := 28
  const LOG_LENGTH_FIELD_SIZE := 36
  const KV_LENGTH_FIELD_SIZE := 24

  type Checksum = seq<byte> -> uint32

  datatype WriterState = WriterState(writerID: int64, batchSequence: int32)

  datatype LogBatchOptions = LogBatchOptions(schemaID: int32, writer: Option<WriterState>)

  datatype KvBatchOptions =
    KvBatchOptions(schemaID: int32, indexed: bool, keyColumns: seq<int>, writer: Option<WriterState>)

  function EncodedWriterID(writer: Option<WriterState>): uint64 {
    match writer
    case None => 0xFFFF_FFFF_FFFF_FFFF
    case Some(w) => U64(w.writerID)
  }

  function EncodedBatchSequence(writer: Option<WriterState>): uint32 {
    match writer
    case None => 0xFFFF_FFFF
    case Some(w) => U32(w.batchSequence)
  }

  // ---------- log batches ----------

  /** Bytes 0 to 20 of a log batch: base offset, length, magic, commit timestamp. */
  function LogPrelude(recordLength: nat): (bs: seq<byte>)
    ensures |bs| == 21
  {
    LE64(0) + LE32(U32(LOG_LENGTH_FIELD_SIZE + recordLength)) + [0] + LE64(0)
  }

  /** Bytes 25 to 47: schema id, attributes, last offset delta, writer id, batch sequence, record count. */
  function LogSummary(schemaID: int32, attributes: byte, writer: Option<WriterState>, recordCount: nat): (bs: seq<byte>)
    ensures |bs| == 23
  {
    LE16(U16(schemaID)) + [attributes] + LE32(0) + LE64(EncodedWriterID(writer)) + LE32(EncodedBatchSequence(writer))
    + LE32(U32(recordCount))
  }

  /** A log batch around the summary and records `checked`, the part the checksum covers. */
  function SealLogBatch(crc: Checksum, recordLength: nat, checked: seq<byte>): seq<byte> {
    LogPrelude(recordLength) + LE32(crc(checked)) + checked
  }

  function EncodeLogBatch(crc: Checksum, schemaID: int32, record: seq<byte>, writer: Option<WriterState>): seq<byte> {
    SealLogBatch(crc, |record|, LogSummary(schemaID, 0, writer, 1) + record)
  }

  /** The size of the batch at the front of `payload` and its records. */
  function DecodeLogBatch(crc: Checksum, payload: seq<byte>): (r: Result<(nat, seq<byte>)>)
    ensures r.Ok? ==> LOG_HEADER_SIZE <= r.value.0 <= |payload|
  {
    if |payload| < LOG_HEADER_SIZE then Err(PayloadTooShort)
    else if payload[12] != 0 then Err(UnsupportedMagic)
    else
      var size := Get32(payload[8..]) + 12;
      if size > |payload| then Err(PayloadTruncated)
      else if size < 25 then Err(SliceOutOfRange)
      else if Get32(payload[..size][21..]) != crc(payload[..size][25..]) then Err(InvalidCrc)
      else if size < LOG_HEADER_SIZE then Err(SliceOutOfRange)
      else Ok((size, payload[..size][LOG_HEADER_SIZE..]))
  }

  function FrameLogRecord(row: seq<byte>): seq<byte> { LE32(U32(1 + |row|)) + [0] + row }

  function EncodeLogRecord(fields: seq<FieldType>, values: seq<Value>, indexed: bool): Result<seq<byte>> {
    var row :- EncodeRow(fields, values, indexed);
    Ok(FrameLogRecord(row))
  }

  function DecodeLogRecords(fields: seq<FieldType>, payload: seq<byte>): Result<seq<seq<Value>>>
    decreases |payload|
  {
    if payload == [] then Ok([])
    else if |payload| < 5 then Err(PayloadTruncated)
    else
      var end := 4 + Get32(payload);
      if end > |payload| then Err(PayloadTruncated)
      else if payload[4] != 0 then Err(UnsupportedAttributes)
      else if end < 5 then Err(SliceOutOfRange)
      else
        var row :- DecodeRow(fields, payload[5..end], true);
        var rest :- DecodeLogRecords(fields, payload[end..]);
        Ok([row] + rest)
  }

  function EncodeLogRecordBatch(crc: Checksum, fields: seq<FieldType>, values: seq<Value>, indexed: bool,
                                opts: LogBatchOptions): Result<seq<byte>> {
    var record :- EncodeLogRecord(fields, values, indexed);
    Ok(EncodeLogBatch(crc, opts.schemaID, record, opts.writer))
  }

  function DecodeLogRecordBatchRows(crc: Checksum, fields: seq<FieldType>, payload: seq<byte>): Result<seq<seq<Value>>>
    decreases |payload|
  {
    if payload == [] then Ok([])
    else
      var batch :- DecodeLogBatch(crc, payload);
      var rows :- DecodeLogRecords(fields, batch.1);
      var rest :- DecodeLogRecordBatchRows(crc, fields, payload[batch.0..]);
      Ok(rows + rest)
  }

  // ---------- key-value batches ----------

  /** Bytes 9 to 27 of a key-value batch. */
  function KvSummary(schemaID: int32, writer: Option<WriterState>): (bs: seq<byte>)
    ensures |bs| == 19
  {
    LE16(U16(schemaID)) + [0] + LE64(EncodedWriterID(writer)) + LE32(EncodedBatchSequence(writer)) + LE32(1)
  }

  function SealKvBatch(crc: Checksum, recordLength: nat, checked: seq<byte>): seq<byte> {
    LE32(U32(KV_LENGTH_FIELD_SIZE + recordLength)) + [0] + LE32(crc(checked)) + checked
  }

  function EncodeKvBatch(crc: Checksum, schemaID: int32, record: seq<byte>, writer: Option<WriterState>): seq<byte> {
    SealKvBatch(crc, |record|, KvSummary(schemaID, writer) + record)
  }

  /** The schema id of a batch and its records. */
  function DecodeKvBatch(crc: Checksum, payload: seq<byte>): Result<(uint16, seq<byte>)> {
    if |payload| < KV_HEADER_SIZE then Err(PayloadTooShort)
    else if payload[4] != 0 then Err(UnsupportedMagic)
    else if Get32(payload[5..]) != crc(payload[9..]) then Err(InvalidCrc)
    else Ok((Get16(payload[9..]), payload[KV_HEADER_SIZE..]))
  }

  function KeyColumns(opts: KvBatchOptions): seq<int> { if opts.keyColumns == [] then [0] else opts.keyColumns }

  /** NewRow followed by EncodeLookupKey, as both record encoders do. */
  function RecordKey(fields: seq<FieldType>, values: seq<Value>, opts: KvBatchOptions): Result<seq<byte>> {
    if fields == [] then Err(NoFields)
    else if |values| != |fields| then Err(ValueCountMismatch)
    else if !ValidFields(fields) then Err(InvalidSchema)
    else EncodeLookupKey(fields, values, KeyColumns(opts))
  }

  /** Length, key length as a varint, key, row. */
  function FrameKvRecord(key: seq<byte>, row: seq<byte>): seq<byte> {
    var keyLength := PutUvarint(U64(|key|));
    LE32(U32(|keyLength| + |key| + |row|)) + keyLength + key + row
  }

  function EncodeKvRecord(fields: seq<FieldType>, values: seq<Value>, opts: KvBatchOptions): Result<seq<byte>> {
    var key :- RecordKey(fields, values, opts);
    var row :- EncodeRow(fields, values, opts.indexed);
    Ok(FrameKvRecord(key, row))
  }

  function EncodeKvDeleteRecord(fields: seq<FieldType>, values: seq<Value>, opts: KvBatchOptions): Result<seq<byte>> {
    var key :- RecordKey(fields, values, opts);
    Ok(FrameKvRecord(key, []))
  }

  function EncodeKvRecordBatch(crc: Checksum, fields: seq<FieldType>, values: seq<Value>, opts: KvBatchOptions)
    : Result<seq<byte>> {
    var record :- EncodeKvRecord(fields, values, opts);
    Ok(EncodeKvBatch(crc, opts.schemaID, record, opts.writer))
  }

  function EncodeKvDeleteRecordBatch(crc: Checksum, fields: seq<FieldType>, values: seq<Value>, opts: KvBatchOptions)
    : Result<seq<byte>> {
    var record :- EncodeKvDeleteRecord(fields, values, opts);
    Ok(EncodeKvBatch(crc, opts.schemaID, record, opts.writer))
  }

  // ---------- value batches ----------

  /** The records of a value batch: `count` of them, filling `body` exactly. */
  function DecodeValueRecords(fields: seq<FieldType>, indexed: bool, count: nat, body: seq<byte>)
    : Result<seq<seq<Value>>> {
    if count == 0 then (if body == [] then Ok([]) else Err(IncorrectSize))
    else if |body| < 6 then Err(PayloadTruncated)
    else
      var end := 4 + Get32(body);
      if end > |body| then Err(PayloadTruncated)
      else if end < 6 then Err(SliceOutOfRange)
      else
        var row :- DecodeRow(fields, body[6..end], indexed);
        var rest :- DecodeValueRecords(fields, indexed, count - 1, body[end..]);
        Ok([row] + rest)
  }

  function DecodeValueRecordBatchRows(fields: seq<FieldType>, payload: seq<byte>, indexed: bool)
    : Result<seq<seq<Value>>> {
    if !ValidFields(fields) then Err(InvalidSchema)
    else if |payload| < 9 then Err(PayloadTooShort)
    else
      var limit := Get32(payload) + 4;
      if limit > |payload| then Err(PayloadTruncated)
      else if payload[4] != 0 then Err(UnsupportedMagic)
      else
        var count := Get32(payload[5..]);
        if limit < 9 then Err(if count == 0 then IncorrectSize else PayloadTruncated)
        else DecodeValueRecords(fields, indexed, count, payload[9..limit])
  }
}

/**
 Log batches whose records are one Arrow record batch (internal/codec/arrow/log_batch.go). The Arrow encoding itself
 is opaque bytes, and `decode` stands for DecodeRecordBatch. The frame is the one of BatchLayout with an attribute bit
 for append-only batches.
 */
module ArrowLog {
  import opened BatchLayout
  import opened Bytes
  import opened FieldTypes
  import opened Results
  import BatchCodec
  import BatchRoundTrip
  import Bits
  import RowCodec

  type RecordDecoder = seq<byte> -> Result<seq<seq<Value>>>

  datatype Options = Options(schemaID: int32, appendOnly: bool, writer: Option<WriterState>)

  function Attributes(appendOnly: bool): byte {
    if appendOnly then 1 else 0
  }

  function EncodeBatch(crc: Checksum, record: seq<byte>, recordCount: nat, opts: Options): seq<byte> {
    SealLogBatch(crc, |record|,
                 LogSummary(opts.schemaID, Attributes(opts.appendOnly), opts.writer, recordCount) + record)
  }

  /** A batch's size, its records behind the change types, and whether it is append-only. */
  datatype Decoded = Decoded(size: nat, record: seq<byte>, appendOnly: bool)

  function DecodeBatch(crc: Checksum, payload: seq<byte>, validate: bool): (r: Result<Decoded>)
    ensures r.Ok? ==> LOG_HEADER_SIZE <= r.value.size <= |payload|
  {
    if |payload| < LOG_HEADER_SIZE then Err(PayloadTooShort)
    else if payload[12] != 0 then Err(UnsupportedMagic)
    else
      var size := Get32(payload[8..]) + 12;
      if size > |payload| then Err(PayloadTruncated)
      else if validate && size < 25 then Err(SliceOutOfRange)
      else if validate && Get32(payload[21..]) != crc(payload[..size][25..]) then Err(InvalidCrc)
      else if size < LOG_HEADER_SIZE then Err(SliceOutOfRange)
      else DecodeBody(payload[..size])
  }

  /** The part of decodeLogBatch behind the checks. */
  function DecodeBody(batch: seq<byte>): (r: Result<Decoded>)
    requires |batch| >= LOG_HEADER_SIZE
    ensures r.Ok? ==> r.value.size == |batch|
  {
    var recordCount := Get32(batch[44..]);
    var appendOnly := Bits.Bit(batch[27], 0);
    var record := batch[LOG_HEADER_SIZE..];
    if !appendOnly && recordCount > 0 then
      if |record| < recordCount then Err(PayloadTruncated)
      else Ok(Decoded(|batch|, record[recordCount..], appendOnly))
    else Ok(Decoded(|batch|, record, appendOnly))
  }

  method EncodeLogBatch(crc: Checksum, record: seq<byte>, recordCount: nat, opts: Options) returns (buf: seq<byte>)
    ensures buf == EncodeBatch(crc, record, recordCount, opts)
  {
    hide LE16, LE32, LE64, U16, U32;
    buf := LE64(0);
    buf := buf + LE32(U32(LOG_LENGTH_FIELD_SIZE + |record|));
    buf := buf + [0];
    buf := buf + LE64(0);
    ghost var prelude := buf;
    buf := buf + LE32(0);
    ghost var start := buf;
    buf := buf + LE16(U16(opts.schemaID));
    if opts.appendOnly {
      buf := buf + [1];
    } else {
      buf := buf + [0];
    }
    buf := buf + LE32(0);
    buf := buf + LE64(EncodedWriterID(opts.writer));
    buf := buf + LE32(EncodedBatchSequence(opts.writer));
    buf := buf + LE32(U32(recordCount));
    buf := buf + record;
    var attributes := Attributes(opts.appendOnly);
    BatchCodec.LogTail(start, LE16(U16(opts.schemaID)), [attributes], LE32(0), LE64(EncodedWriterID(opts.writer)),
                       LE32(EncodedBatchSequence(opts.writer)), LE32(U32(recordCount)), record);
    ghost var checked := LogSummary(opts.schemaID, attributes, opts.writer, recordCount) + record;
    BatchCodec.PatchSlot(prelude, LE32(0), checked, crc(checked));
    var sum := crc(buf[25..]);
    buf := BatchCodec.Patch32(buf, 21, sum);
  }

  method DecodeLogBatch(crc: Checksum, payload: seq<byte>, validate: bool) returns (r: Result<Decoded>)
    ensures r == DecodeBatch(crc, payload, validate)
  {
    hide Get32;
    if |payload| < LOG_HEADER_SIZE {
      return Err(PayloadTooShort);
    }
    if payload[12] != 0 {
      return Err(UnsupportedMagic);
    }
    var batchSize := Get32(payload[8..]) + 12;
    if batchSize > |payload| {
      return Err(PayloadTruncated);
    }
    var batch := payload[..batchSize];
    if validate {
      if batchSize < 25 {
        return Err(SliceOutOfRange);
      }
      if Get32(payload[21..]) != crc(batch[25..]) {
        return Err(InvalidCrc);
      }
    }
    if batchSize < LOG_HEADER_SIZE {
      return Err(SliceOutOfRange);
    }
    var recordCount := Get32(batch[44..]);
    var appendOnly := Bits.Bit(batch[27], 0);
    var recordPayload := batch[LOG_HEADER_SIZE..];
    if !appendOnly && recordCount > 0 {
      if |recordPayload| < recordCount {
        return Err(PayloadTruncated);
      }
      recordPayload := recordPayload[recordCount..];
    }
    return Ok(Decoded(batchSize, recordPayload, appendOnly));
  }

  /** The rows of a stream of batches. */
  function DecodeRows(crc: Checksum, decode: RecordDecoder, payload: seq<byte>, validate: bool)
    : Result<seq<seq<Value>>>
    decreases |payload|
  {
    if payload == [] then Ok([])
    else
      var batch :- DecodeBatch(crc, payload, validate);
      var rows :- decode(batch.record);
      var rest :- DecodeRows(crc, decode, payload[batch.size..], validate);
      Ok(rows + rest)
  }

  function DecodeLogRecordBatchRows(fields: seq<FieldType>, crc: Checksum, decode: RecordDecoder, payload: seq<byte>,
                                    validate: bool): Result<seq<seq<Value>>> {
    if !ValidFields(fields) then Err(InvalidSchema) else DecodeRows(crc, decode, payload, validate)
  }

  lemma DecodeRowsStep(crc: Checksum, decode: RecordDecoder, payload: seq<byte>, validate: bool)
    requires payload != []
    ensures
      var whole, batch := DecodeRows(crc, decode, payload, validate), DecodeBatch(crc, payload, validate);
      && (batch.Err? ==> whole == Err(batch.error))
      && (batch.Ok? ==>
            var rows := decode(batch.value.record);
            && (rows.Err? ==> whole == Err(rows.error))
            && (rows.Ok? ==>
                  whole == RowCodec.Prepended(rows.value,
                                              DecodeRows(crc, decode, payload[batch.value.size..], validate))))
  {
    hide DecodeBatch;
  }

  method DecodeStream(fields: seq<FieldType>, crc: Checksum, decode: RecordDecoder, stream: seq<byte>, validate: bool)
    returns (r: Result<seq<seq<Value>>>)
    ensures r == DecodeLogRecordBatchRows(fields, crc, decode, stream, validate)
  {
    if !ValidFields(fields) {
      return Err(InvalidSchema);
    }
    hide DecodeBatch, DecodeRows;
    var rows: seq<seq<Value>>, payload := [], stream;
    RowCodec.PrependedNothing([], DecodeRows(crc, decode, stream, validate));
    while |payload| > 0
      invariant DecodeRows(crc, decode, stream, validate)
             == RowCodec.Prepended(rows, DecodeRows(crc, decode, payload, validate))
      decreases |payload|
    {
      DecodeRowsStep(crc, decode, payload, validate);
      var batch := DecodeLogBatch(crc, payload, validate);
      if batch.Err? {
        return Err(batch.error);
      }
      var decoded := decode(batch.value.record);
      if decoded.Err? {
        return decoded;
      }
      BatchCodec.PrependedRows(rows, decoded.value, DecodeRows(crc, decode, payload[batch.value.size..], validate));
      rows := rows + decoded.value;
      payload := payload[batch.value.size..];
    }
    NoBatches(crc, decode, validate);
    RowCodec.PrependedNothing(rows, Ok([]));
    return Ok(rows);
  }

  lemma NoBatches(crc: Checksum, decode: RecordDecoder, validate: bool)
    ensures DecodeRows(crc, decode, [], validate) == Ok([])
  {
  }
}

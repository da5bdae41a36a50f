/**
 The batch encoders and decoders as the source runs them: buffers appended to and patched, loops over records and
 batches. Each method computes the function of BatchLayout it is named after.
 */
module BatchCodec {
  import opened Bytes
  import opened FieldTypes
  import opened Results
  import opened Varint
  import RowCodec
  import RowLayout
  import B = BatchLayout

  /** `buf[at..at + 4]` overwritten with `n`, as PutUint32 does. */
  function Patch32(buf: seq<byte>, at: nat, n: uint32): seq<byte>
    requires at + 4 <= |buf|
  {
    buf[..at] + LE32(n) + buf[at + 4..]
  }

  lemma PatchSlot(prelude: seq<byte>, slot: seq<byte>, checked: seq<byte>, n: uint32)
    requires |slot| == 4
    ensures
      var buf := prelude + slot + checked;
      buf[|prelude| + 4..] == checked && Patch32(buf, |prelude|, n) == prelude + LE32(n) + checked
  {
    hide LE32;
    var buf := prelude + slot + checked;
    assert buf[..|prelude|] == prelude;
    assert buf[|prelude| + 4..] == checked;
  }

  method EncodeLogBatch(crc: B.Checksum, schemaID: int32, record: seq<byte>, writer: Option<B.WriterState>)
    returns (buf: seq<byte>)
    ensures buf == B.EncodeLogBatch(crc, schemaID, record, writer)
  {
    hide LE16, LE32, LE64, U16, U32;
    buf := LE64(0); // base offset
    buf := buf + LE32(U32(B.LOG_LENGTH_FIELD_SIZE + |record|));
    buf := buf + [0]; // magic
    buf := buf + LE64(0); // commit timestamp
    ghost var prelude := buf;
    buf := buf + LE32(0); // checksum placeholder
    ghost var start := buf;
    buf := buf + LE16(U16(schemaID));
    buf := buf + [0]; // attributes
    buf := buf + LE32(0); // last offset delta
    buf := buf + LE64(B.EncodedWriterID(writer));
    buf := buf + LE32(B.EncodedBatchSequence(writer));
    buf := buf + LE32(1);
    buf := buf + record;
    LogTail(start, LE16(U16(schemaID)), [0], LE32(0), LE64(B.EncodedWriterID(writer)),
            LE32(B.EncodedBatchSequence(writer)), LE32(1), record);
    PatchSlot(prelude, LE32(0), B.LogSummary(schemaID, 0, writer, 1) + record,
              crc(B.LogSummary(schemaID, 0, writer, 1) + record));
    var sum := crc(buf[25..]);
    buf := Patch32(buf, 21, sum);
  }

  lemma LogTail(start: seq<byte>, id: seq<byte>, attributes: seq<byte>, delta: seq<byte>, writer: seq<byte>,
                sequence: seq<byte>, count: seq<byte>, record: seq<byte>)
    ensures start + id + attributes + delta + writer + sequence + count + record
         == start + (id + attributes + delta + writer + sequence + count + record)
  {
  }

  method EncodeKvBatch(crc: B.Checksum, schemaID: int32, record: seq<byte>, writer: Option<B.WriterState>)
    returns (buf: seq<byte>)
    ensures buf == B.EncodeKvBatch(crc, schemaID, record, writer)
  {
    hide LE16, LE32, LE64, U16, U32;
    buf := LE32(U32(B.KV_LENGTH_FIELD_SIZE + |record|));
    buf := buf + [0]; // magic
    ghost var prelude := buf;
    buf := buf + LE32(0); // checksum placeholder
    ghost var start := buf;
    buf := buf + LE16(U16(schemaID));
    buf := buf + [0]; // attributes
    buf := buf + LE64(B.EncodedWriterID(writer));
    buf := buf + LE32(B.EncodedBatchSequence(writer));
    buf := buf + LE32(1);
    buf := buf + record;
    KvTail(start, LE16(U16(schemaID)), [0], LE64(B.EncodedWriterID(writer)), LE32(B.EncodedBatchSequence(writer)),
           LE32(1), record);
    PatchSlot(prelude, LE32(0), B.KvSummary(schemaID, writer) + record, crc(B.KvSummary(schemaID, writer) + record));
    var sum := crc(buf[9..]);
    buf := Patch32(buf, 5, sum);
  }

  lemma KvTail(start: seq<byte>, id: seq<byte>, attributes: seq<byte>, writer: seq<byte>, sequence: seq<byte>,
               count: seq<byte>, record: seq<byte>)
    ensures start + id + attributes + writer + sequence + count + record
         == start + (id + attributes + writer + sequence + count + record)
  {
  }

  // ---------- records ----------

  method EncodeLogRecord(fields: seq<FieldType>, values: seq<Value>, indexed: bool) returns (r: Result<seq<byte>>)
    ensures r == B.EncodeLogRecord(fields, values, indexed)
  {
    hide LE32, RowLayout.EncodeRow;
    var row := RowCodec.EncodeRow(fields, values, indexed);
    if row.Err? {
      return row;
    }
    var out := LE32(U32(1 + |row.value|));
    out := out + [0];
    out := out + row.value;
    return Ok(out);
  }

  /** The key both record encoders start with. */
  method RecordKey(fields: seq<FieldType>, values: seq<Value>, opts: B.KvBatchOptions) returns (r: Result<seq<byte>>)
    ensures r == B.RecordKey(fields, values, opts)
  {
    if |fields| == 0 {
      return Err(NoFields);
    }
    if |values| != |fields| {
      return Err(ValueCountMismatch);
    }
    if !ValidFields(fields) {
      return Err(InvalidSchema);
    }
    var keyColumns := opts.keyColumns;
    if |keyColumns| == 0 {
      keyColumns := [0];
    }
    r := RowCodec.EncodeLookupKey(fields, values, keyColumns);
  }

  method EncodeKvRecord(fields: seq<FieldType>, values: seq<Value>, opts: B.KvBatchOptions)
    returns (r: Result<seq<byte>>)
    ensures r == B.EncodeKvRecord(fields, values, opts)
  {
    hide LE32, PutUvarint, RowLayout.EncodeRow, B.RecordKey;
    var key := RecordKey(fields, values, opts);
    if key.Err? {
      return key;
    }
    var row := RowCodec.EncodeRow(fields, values, opts.indexed);
    if row.Err? {
      return row;
    }
    var keyLen := PutUvarint(U64(|key.value|));
    var out := LE32(U32(|keyLen| + |key.value| + |row.value|));
    out := out + keyLen;
    out := out + key.value;
    out := out + row.value;
    return Ok(out);
  }

  method EncodeKvDeleteRecord(fields: seq<FieldType>, values: seq<Value>, opts: B.KvBatchOptions)
    returns (r: Result<seq<byte>>)
    ensures r == B.EncodeKvDeleteRecord(fields, values, opts)
  {
    hide LE32, PutUvarint, B.RecordKey;
    var key := RecordKey(fields, values, opts);
    if key.Err? {
      return key;
    }
    var keyLen := PutUvarint(U64(|key.value|));
    var out := LE32(U32(|keyLen| + |key.value|));
    out := out + keyLen;
    out := out + key.value;
    assert out + [] == out;
    return Ok(out);
  }

  // ---------- decoding loops ----------

  /** The row of the log record at `off` and the offset after it. */
  function LogRecordAt(fields: seq<FieldType>, payload: seq<byte>, off: nat): (r: Result<(seq<Value>, nat)>)
    requires off < |payload|
    ensures r.Ok? ==> off < r.value.1 <= |payload|
  {
    if off + 5 > |payload| then Err(PayloadTruncated)
    else
      var end := off + 4 + Get32(payload[off..]);
      if end > |payload| then Err(PayloadTruncated)
      else if payload[off + 4] != 0 then Err(UnsupportedAttributes)
      else if end < off + 5 then Err(SliceOutOfRange)
      else
        var row :- RowLayout.DecodeRow(fields, payload[off + 5..end], true);
        Ok((row, end))
  }

  lemma SliceOfSlice<T>(s: seq<T>, lo: nat, hi: nat, a: nat, b: nat)
    requires lo <= hi <= |s| && a <= b <= hi - lo
    ensures s[lo..hi][a..b] == s[lo + a..lo + b]
  {
    var cut := s[lo..hi];
    assert forall i :: 0 <= i < b - a ==> cut[a..b][i] == cut[a + i] == s[lo + a..lo + b][i];
  }

  lemma DropOfSlice<T>(s: seq<T>, lo: nat, hi: nat, a: nat)
    requires lo <= hi <= |s| && a <= hi - lo
    ensures s[lo..hi][a..] == s[lo + a..hi]
  {
  }

  lemma DecodeLogRecordsStep(fields: seq<FieldType>, payload: seq<byte>, off: nat)
    requires off < |payload|
    ensures
      var whole, record := B.DecodeLogRecords(fields, payload[off..]), LogRecordAt(fields, payload, off);
      && (record.Err? ==> whole == Err(record.error))
      && (record.Ok? ==>
            whole == RowCodec.Prepended([record.value.0], B.DecodeLogRecords(fields, payload[record.value.1..])))
  {
    hide RowLayout.DecodeRow;
    if off + 5 <= |payload| {
      var n := Get32(payload[off..]);
      hide Get32;
      if off + 4 + n <= |payload| && n >= 1 {
        assert payload[off..][5..4 + n] == payload[off + 5..off + 4 + n];
        assert payload[off..][4 + n..] == payload[off + 4 + n..];
      }
    }
  }

  method DecodeLogRecords(fields: seq<FieldType>, payload: seq<byte>) returns (r: Result<seq<seq<Value>>>)
    ensures r == B.DecodeLogRecords(fields, payload)
  {
    hide Get32, RowLayout.DecodeRow;
    var rows: seq<seq<Value>>, off: nat := [], 0;
    assert payload[0..] == payload;
    RowCodec.PrependedNothing([], B.DecodeLogRecords(fields, payload));
    while off < |payload|
      invariant off <= |payload|
      invariant B.DecodeLogRecords(fields, payload)
             == RowCodec.Prepended(rows, B.DecodeLogRecords(fields, payload[off..]))
    {
      DecodeLogRecordsStep(fields, payload, off);
      if off + 5 > |payload| {
        return Err(PayloadTruncated);
      }
      var declared := Get32(payload[off..]);
      var recordEnd := off + 4 + declared;
      if recordEnd > |payload| {
        return Err(PayloadTruncated);
      }
      if payload[off + 4] != 0 {
        return Err(UnsupportedAttributes);
      }
      if recordEnd < off + 5 {
        return Err(SliceOutOfRange);
      }
      var row := RowCodec.DecodeRow(fields, payload[off + 5..recordEnd], true);
      if row.Err? {
        return Err(row.error);
      }
      RowCodec.PrependedStep(rows, row.value, B.DecodeLogRecords(fields, payload[recordEnd..]));
      rows := rows + [row.value];
      off := recordEnd;
    }
    RowCodec.PrependedNothing(rows, Ok([]));
    return Ok(rows);
  }

  lemma PrependedRows<T>(done: seq<T>, more: seq<T>, rest: Result<seq<T>>)
    ensures RowCodec.Prepended(done, RowCodec.Prepended(more, rest)) == RowCodec.Prepended(done + more, rest)
  {
    if rest.Ok? {
      assert done + (more + rest.value) == (done + more) + rest.value;
    }
  }

  lemma DecodeBatchesStep(crc: B.Checksum, fields: seq<FieldType>, payload: seq<byte>)
    requires payload != []
    ensures
      var whole, batch := B.DecodeLogRecordBatchRows(crc, fields, payload), B.DecodeLogBatch(crc, payload);
      && (batch.Err? ==> whole == Err(batch.error))
      && (batch.Ok? ==>
            var rows := B.DecodeLogRecords(fields, batch.value.1);
            && (rows.Err? ==> whole == Err(rows.error))
            && (rows.Ok? ==>
                  whole == RowCodec.Prepended(rows.value,
                                              B.DecodeLogRecordBatchRows(crc, fields, payload[batch.value.0..]))))
  {
    hide B.DecodeLogBatch, B.DecodeLogRecords;
  }

  method DecodeLogRecordBatchRows(crc: B.Checksum, fields: seq<FieldType>, stream: seq<byte>)
    returns (r: Result<seq<seq<Value>>>)
    ensures r == B.DecodeLogRecordBatchRows(crc, fields, stream)
  {
    hide B.DecodeLogBatch, B.DecodeLogRecords;
    var rows: seq<seq<Value>>, payload := [], stream;
    RowCodec.PrependedNothing([], B.DecodeLogRecordBatchRows(crc, fields, stream));
    while |payload| > 0
      invariant B.DecodeLogRecordBatchRows(crc, fields, stream)
             == RowCodec.Prepended(rows, B.DecodeLogRecordBatchRows(crc, fields, payload))
      decreases |payload|
    {
      DecodeBatchesStep(crc, fields, payload);
      var batch := B.DecodeLogBatch(crc, payload);
      if batch.Err? {
        return Err(batch.error);
      }
      var decoded := DecodeLogRecords(fields, batch.value.1);
      if decoded.Err? {
        return decoded;
      }
      PrependedRows(rows, decoded.value, B.DecodeLogRecordBatchRows(crc, fields, payload[batch.value.0..]));
      rows := rows + decoded.value;
      payload := payload[batch.value.0..];
    }
    RowCodec.PrependedNothing(rows, Ok([]));
    return Ok(rows);
  }

  lemma DecodeValueRecordsStep(fields: seq<FieldType>, indexed: bool, count: nat, payload: seq<byte>, off: nat,
                               limit: nat)
    requires off <= limit <= |payload| && count > 0
    ensures
      var whole := B.DecodeValueRecords(fields, indexed, count, payload[off..limit]);
      if off + 6 > limit then whole == Err(PayloadTruncated)
      else
        var end := off + 4 + Get32(payload[off..]);
        if end > limit then whole == Err(PayloadTruncated)
        else if end < off + 6 then whole == Err(SliceOutOfRange)
        else
          var row := RowLayout.DecodeRow(fields, payload[off + 6..end], indexed);
          && (row.Err? ==> whole == Err(row.error))
          && (row.Ok? ==>
                whole == RowCodec.Prepended(
                           [row.value], B.DecodeValueRecords(fields, indexed, count - 1, payload[end..limit])))
  {
    hide RowLayout.DecodeRow;
    if off + 6 <= limit {
      assert payload[off..limit][..4] == payload[off..][..4];
      hide Get32;
      Get32OfPrefix(payload[off..limit], payload[off..]);
      var end := off + 4 + Get32(payload[off..]);
      if off + 6 <= end <= limit {
        SliceOfSlice(payload, off, limit, 6, end - off);
        DropOfSlice(payload, off, limit, end - off);
      }
    }
  }

  method DecodeValueRecordBatchRows(fields: seq<FieldType>, payload: seq<byte>, indexed: bool)
    returns (r: Result<seq<seq<Value>>>)
    ensures r == B.DecodeValueRecordBatchRows(fields, payload, indexed)
  {
    hide Get32, RowLayout.DecodeRow;
    if !ValidFields(fields) {
      return Err(InvalidSchema);
    }
    if |payload| < 9 {
      return Err(PayloadTooShort);
    }
    var limit := Get32(payload) + 4;
    if limit > |payload| {
      return Err(PayloadTruncated);
    }
    if payload[4] != 0 {
      return Err(UnsupportedMagic);
    }
    var recordCount := Get32(payload[5..]);
    if limit < 9 {
      return Err(if recordCount == 0 then IncorrectSize else PayloadTruncated);
    }
    var rows: seq<seq<Value>>, off: nat := [], 9;
    ghost var whole := B.DecodeValueRecords(fields, indexed, recordCount, payload[9..limit]);
    RowCodec.PrependedNothing([], whole);
    while |rows| < recordCount
      invariant 9 <= off <= limit && |rows| <= recordCount
      invariant whole == RowCodec.Prepended(
                           rows, B.DecodeValueRecords(fields, indexed, recordCount - |rows|, payload[off..limit]))
    {
      DecodeValueRecordsStep(fields, indexed, recordCount - |rows|, payload, off, limit);
      if off + 6 > limit {
        return Err(PayloadTruncated);
      }
      var recordEnd := off + 4 + Get32(payload[off..]);
      if recordEnd > limit {
        return Err(PayloadTruncated);
      }
      if recordEnd < off + 6 {
        return Err(SliceOutOfRange);
      }
      var row := RowCodec.DecodeRow(fields, payload[off + 6..recordEnd], indexed);
      if row.Err? {
        return Err(row.error);
      }
      RowCodec.PrependedStep(
        rows, row.value,
        B.DecodeValueRecords(fields, indexed, recordCount - |rows| - 1, payload[recordEnd..limit]));
      rows := rows + [row.value];
      off := recordEnd;
    }
    if off != limit {
      return Err(IncorrectSize);
    }
    RowCodec.PrependedNothing(rows, Ok([]));
    return Ok(rows);
  }
}

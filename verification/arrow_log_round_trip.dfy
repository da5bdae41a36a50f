/** Arrow log batches come back: one batch, exactly when, and whole streams. */
module ArrowLogRoundTrip {
  import opened ArrowLog
  import opened BatchLayout
  import opened Bytes
  import opened FieldTypes
  import opened Results
  import BatchRoundTrip
  import Bits

  /** The summary's attribute byte and record count, where decodeLogBatch looks for them. */
  lemma SummaryParts(id: seq<byte>, attributes: byte, delta: seq<byte>, writer: seq<byte>, sequence: seq<byte>,
                     count: seq<byte>, record: seq<byte>)
    requires |id| == 2 && |delta| == 4 && |writer| == 8 && |sequence| == 4 && |count| == 4
    ensures
      var checked := id + [attributes] + delta + writer + sequence + count + record;
      && |checked| == 23 + |record|
      && checked[2] == attributes
      && checked[19..] == count + record
      && checked[23..] == record
  {
  }

  lemma ShiftedParts(batch: seq<byte>, checked: seq<byte>)
    requires |batch| == 25 + |checked| && batch[25..] == checked && |checked| >= 23
    ensures batch[27] == checked[2] && batch[44..] == checked[19..] && batch[48..] == checked[23..]
  {
    assert batch[27] == batch[25..][2];
    assert batch[44..] == batch[25..][19..];
    assert batch[48..] == batch[25..][23..];
  }

  /** What decodeLogBatch makes of a sealed batch whose checks pass. */
  lemma BodyOfEncoded(crc: Checksum, record: seq<byte>, recordCount: nat, opts: Options)
    ensures
      var batch := EncodeBatch(crc, record, recordCount, opts);
      var skipped := if opts.appendOnly then 0 else U32(recordCount);
      && |batch| == LOG_HEADER_SIZE + |record|
      && DecodeBody(batch) == if skipped > |record| then Err(PayloadTruncated)
                              else Ok(Decoded(|batch|, record[skipped..], opts.appendOnly))
  {
    hide LE16, LE32, LE64, U16, U32, Get32, SealLogBatch;
    var attributes := Attributes(opts.appendOnly);
    var checked := LogSummary(opts.schemaID, attributes, opts.writer, recordCount) + record;
    BatchRoundTrip.LogBatchChecks(crc, |record|, checked);
    ShiftedParts(EncodeBatch(crc, record, recordCount, opts), checked);
    SummaryParts(LE16(U16(opts.schemaID)), attributes, LE32(0), LE64(EncodedWriterID(opts.writer)),
                 LE32(EncodedBatchSequence(opts.writer)), LE32(U32(recordCount)), record);
    Get32OfLE32(U32(recordCount), record);
    assert record[0..] == record;
  }

  lemma PrefixAt(whole: seq<byte>, front: seq<byte>, at: nat)
    requires at + 4 <= |front| <= |whole| && whole[..|front|] == front
    ensures whole[at..][..4] == front[at..][..4]
  {
    assert forall i :: at <= i < at + 4 ==> whole[i] == whole[..|front|][i];
  }

  /** At the front of a stream, with or without the checksum test, only the body matters. */
  lemma EncodedBatchFound(crc: Checksum, record: seq<byte>, recordCount: nat, opts: Options, tail: seq<byte>,
                          validate: bool)
    requires LOG_LENGTH_FIELD_SIZE + |record| < 0x1_0000_0000
    ensures
      var batch := EncodeBatch(crc, record, recordCount, opts);
      && DecodeBatch(crc, batch + tail, validate) == DecodeBody(batch)
      && |batch| == LOG_HEADER_SIZE + |record| && (batch + tail)[|batch|..] == tail
  {
    hide SealLogBatch, LogSummary, Get32, DecodeBody;
    var checked := LogSummary(opts.schemaID, Attributes(opts.appendOnly), opts.writer, recordCount) + record;
    var batch := EncodeBatch(crc, record, recordCount, opts);
    BatchRoundTrip.LogBatchBytes(crc, |record|, checked, tail);
    BatchRoundTrip.LogBatchChecks(crc, |record|, checked);
    PrefixAt(batch + tail, batch, 21);
    Get32OfPrefix((batch + tail)[21..], batch[21..]);
  }

  /** A batch comes back exactly if it is append-only or empty: otherwise bytes of it are taken for change types. */
  lemma BatchRoundTripExactly(crc: Checksum, record: seq<byte>, recordCount: nat, opts: Options, tail: seq<byte>,
                              validate: bool)
    requires LOG_LENGTH_FIELD_SIZE + |record| < 0x1_0000_0000
    ensures
      var r := DecodeBatch(crc, EncodeBatch(crc, record, recordCount, opts) + tail, validate);
      r == Ok(Decoded(LOG_HEADER_SIZE + |record|, record, opts.appendOnly))
      <==> opts.appendOnly || U32(recordCount) == 0
  {
    EncodedBatchFound(crc, record, recordCount, opts, tail, validate);
    BodyOfEncoded(crc, record, recordCount, opts);
    hide EncodeBatch, DecodeBatch, DecodeBody, U32;
    var skipped := if opts.appendOnly then 0 else U32(recordCount);
    if skipped <= |record| {
      assert record[skipped..] == record <==> skipped == 0 by {
        assert |record[skipped..]| == |record| - skipped;
        assert record[0..] == record;
      }
    }
  }

  // ---------- streams ----------

  datatype Write = Write(record: seq<byte>, recordCount: nat, schemaID: int32, writer: Option<WriterState>)

  predicate Fits(writes: seq<Write>) {
    forall i :: 0 <= i < |writes| ==> LOG_LENGTH_FIELD_SIZE + |writes[i].record| < 0x1_0000_0000
  }

  /** The concatenation of any number of append-only batches. */
  function Stream(crc: Checksum, writes: seq<Write>): seq<byte> {
    if writes == [] then []
    else
      var w := writes[0];
      EncodeBatch(crc, w.record, w.recordCount, Options(w.schemaID, true, w.writer)) + Stream(crc, writes[1..])
  }

  /** The rows of the records, in order, or the first error of the record decoder. */
  function RowsOf(decode: RecordDecoder, writes: seq<Write>): Result<seq<seq<Value>>> {
    if writes == [] then Ok([])
    else
      var rows :- decode(writes[0].record);
      var rest :- RowsOf(decode, writes[1..]);
      Ok(rows + rest)
  }

  lemma {:induction false} StreamRoundTrip(crc: Checksum, decode: RecordDecoder, writes: seq<Write>, validate: bool)
    requires Fits(writes)
    ensures DecodeRows(crc, decode, Stream(crc, writes), validate) == RowsOf(decode, writes)
  {
    hide EncodeBatch, DecodeBatch;
    if writes != [] {
      var w := writes[0];
      var opts := Options(w.schemaID, true, w.writer);
      var rest := Stream(crc, writes[1..]);
      StreamRoundTrip(crc, decode, writes[1..], validate);
      BatchRoundTripExactly(crc, w.record, w.recordCount, opts, rest, validate);
      EncodedBatchFound(crc, w.record, w.recordCount, opts, rest, validate);
      assert EncodeBatch(crc, w.record, w.recordCount, opts) + rest != [];
    }
  }

  /** The projected reader, which skips the checksum, reads whatever the validating one accepts alike. */
  lemma {:induction false} ProjectedAgrees(crc: Checksum, decode: RecordDecoder, payload: seq<byte>)
    requires DecodeRows(crc, decode, payload, true).Ok?
    ensures DecodeRows(crc, decode, payload, false) == DecodeRows(crc, decode, payload, true)
    decreases |payload|
  {
    if payload != [] {
      var batch := DecodeBatch(crc, payload, true);
      assert DecodeBatch(crc, payload, false) == batch;
      hide DecodeBatch;
      ProjectedAgrees(crc, decode, payload[batch.value.size..]);
    }
  }
}

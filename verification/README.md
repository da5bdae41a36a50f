# A verified model of the Fluss Go client

This project models, in Dafny 4.11, the parts of the client whose correctness is not visible from reading one
function: the row codec and the batch formats around it, the buffered writer, the two-attempt write, the column type
parser, the schema-evolving snapshot reader, and the log framing and timestamp arithmetic of the Arrow codec.
`dafny verify dfyconfig.toml` checks all of it.

## How it is laid out

Where the source computes with expressions and recursion, the model is a function; where it updates buffers, fields or
slices in loops, the model is a method or a class proved equal to a function of its inputs or of its old state. The
theorems are lemmas about those functions, so they hold of both.

| files | what they hold |
|---|---|
| `results`, `bytes`, `bits`, `varint`, `decimals` | results, machine integers, little-endian bytes, masks, unsigned LEB128 (section 7.6 of the DWARF version 5 standard), decimal text |
| `field_types`, `row_layout`, `row_bitmap` | column types, dynamic values, both row layouts as functions, the null bitmap |
| `wire_forms`, `scalar_bytes`, `row_bytes`, `row_reading`, `nested_reading`, `key_bytes`, `batch_bytes` | an account of the wire that shares nothing with the codec, byte by byte, and that the codec writes and accepts exactly that |
| `row_round_trip`, `row_exactness`, `small_rows`, `lookup_key` | the row codec theorems: the indexed layout and lookup keys |
| `row_compacted`, `compacted_columns`, `compacted_positions`, `fixed_as_varint`, `compacted_survivors`, `row_compacted_limits`, `row_compacted_cases` | the compacted layout: what one column gives back, a decoder that has lost its place, and the exact condition on whole rows with its cases |
| `row_codec` | the row codec as it runs: appended buffers, bits set in place, moving offsets |
| `batch_layout`, `batch_round_trip`, `batch_codec` | log, key-value and value batches |
| `batches`, `writer_buffer`, `writer_system`, `writer_safety`, `writer_runs`, `writer_waits` | the buffered writer and everything that interleaves with it |
| `bucket_results`, `write_retry`, `write_retry_rules`, `write_retry_sends` | bucket failures, merging, and the retry |
| `type_grammar`, `type_parser`, `type_text`, `type_language`, `type_routes`, `type_routes_exact`, `type_names` | the type parser, its language, and the JSON route |
| `snapshot_decode`, `snapshot_reader`, `snapshot_rows` | reading rows written under older schemas |
| `arrow_timestamps`, `arrow_log`, `arrow_log_round_trip` | Arrow timestamps and log batches |

## Reading the model

- **Values.** A Go `any` is a `Value`. Floats are their bit patterns. A `map[any]any` is the list of its entries in the
  order one `range` visits them; statements hold for every list and so for every iteration order.
- **Canonical values.** `CanonRow` is what a column type keeps of a value: lenient integer coercions applied, the sign of
  a wide decimal (precision above 18) dropped, the nanoseconds of a timestamp of precision 3 or less dropped.
  `ExactRow` says that a row is already of that form.
- **Spelled out twice.** The functions that specify the codec, the parser and the writer are pinned by lemmas that do
  not name them: what bytes there are (`RowOnTheWire`, `ScalarBytesExactly`, `LogBatchOnTheWire` and the others of their
  files), what any bytes are read as (`RowReadExactly`, `ScalarReadExactly`), what each type name means (`WordExactly`,
  `JsonExactly`), which errors lead to a second send (`SecondSendExactly`), what a full buffer does (`FullBufferWaits`).
- **Panics.** Where Go would panic on malformed input, the result is `Err(SliceOutOfRange)` or `Err(UnhashableKey)`.
- **Checksums.** CRC-32C (polynomial in section 12.1 of RFC 3720) is a function parameter: the framing theorems hold for
  every checksum.
- **Concurrency.** A state of `WriterSystem` is a buffer with its in-flight flush, blocked writers, fired timer
  callbacks and callers of `CloseWithContext`; a step is one critical section or one event of the environment, and
  `Execution` is any sequence of steps. AppendWriter and UpsertWriter are this one machine. `accepted`, `delivered`,
  `dropped` and `failures` only record history.
- **Servers.** A server is any function from the attempt number and the batches sent to a reply.
- **Where code and expectation differ.** The code is modelled as it is, and the exact condition is proved:
  - Compacted rows. Decimals of precision up to 18 and timestamps are written in fixed bytes and read as varints, so a
    row that holds one comes back only in the cases of `ComesBack`, and those are all (`CompactedRowExactly`). With
    ordinary timestamps the first such column must hold 0 to 127, be no timestamp finer than milliseconds, and be
    followed by nothing but zeros (`OrdinaryRowExactly`). -128 to -1 come back where FF 01 follows, which at the end of
    a row is possible only with bytes behind it (`FirstNarrowExactly`, `LastNarrowExactly`). A timestamp finer than
    milliseconds with 0 to 2^23 - 1 nanoseconds never decodes (`FineTimestampFails`); one with more nanoseconds can
    (`FineTimestampCanComeBack`). An array, map or row that is not null never decodes (`NestedNeverDecodes`).
  - A nil error of AppendLog or UpsertKV need not mean success (`NilErrorMeansSuccessExactly`,
    `NilErrorCanHideFailure`).
  - Arrow batches that are not append-only lose their rows' change types (`BatchRoundTripExactly`), and timestamps
    outside the decoder's truncated form come back in it (`PairRestoredExactly`).
  - The snapshot's fast path differs from the projection for repeated column names (`FastPathExactly`).
  - The two schema routes part for single words (`BareWordRoutesAgreeExactly`) and for trees (`RoutesAgreeExactly`).

## Model

| member | source | states |
|---|---|---|
| RowExactness.IndexedRoundTripExactly | internal/codec/row/row.go:326-359 | Decoding an indexed row gives back the very values encoded if and only if each value already has the form its column keeps, for any nesting of arrays, maps and rows and any nulls |
| SmallRows.SmallRowExactly | internal/codec/row/row.go:326-359 | The same for every indexed row shorter than 2^32 bytes whose map keys are of kinds that Go can hash |
| SmallRows.SmallRowComesBack | internal/codec/row/row.go:644-698 | Every such row decodes to its canonical values |
| SmallRows.HashableExactly | internal/codec/row/row.go:1188-1225 | Those kinds: no map at any depth of the type has byte strings, arrays, maps or rows for keys |
| RowBytes.RowOnTheWire | internal/codec/row/row.go:326-359 | An encoded row is k bytes of null bits, k being the least number of bytes with a bit for each column, bit i % 8 of byte i / 8 set exactly for a nil in column i and spare bits clear; in the indexed layout four bytes of length, lowest first, for each present string, byte string, array, map, row, decimal above precision 18 or timestamp above 3; then the present columns in order |
| RowBytes.RowRefused | internal/codec/row/row.go:326-359 | Else it fails for its schema, for the number of its values, or with the error of the first value its column does not take |
| RowBytes.RowAccepted | internal/codec/row/row.go:326-359 | A row is encoded if its schema is sound and every column takes its value |
| RowBytes.ValidExactly | internal/codec/row/types.go:114-171 | A type is refused exactly for a decimal or timestamp, at any depth, with a precision or scale out of range |
| RowReading.RowReadExactly | internal/codec/row/row.go:644-698 | Any payload decodes to a row if and only if it holds that many bytes of null bits, the length table behind them, and each present column where the widths put it; shorter ones are too short or truncated |
| ScalarBytes.ScalarBytesExactly | internal/codec/row/row.go:457-562 | A scalar is encoded as exactly these bytes in each layout: integers of any Go width in two's complement lowest byte first or as shortest varints, lengths in front of strings, shortest big-endian magnitudes |
| ScalarBytes.ScalarRefused | internal/codec/row/row.go:987-1013 | A scalar that is not encoded is of the wrong kind, or a decimal of another scale |
| ScalarBytes.ScalarReadExactly | internal/codec/row/row.go:798-877 | What any bytes whatever are read as in a scalar column, in both layouts |
| ScalarBytes.WidthReadExactly | internal/codec/row/row.go:700-761 | What compactedFieldSize answers for any bytes |
| RowBytes.ArrayOnTheWire | internal/codec/row/row.go:1260-1272 | An array is the number of its elements and each of them behind its length, 1 for nil or 0 and its bytes |
| RowBytes.MapOnTheWire | internal/codec/row/row.go:1164-1186 | A map likewise, keys and values in turn |
| RowBytes.NestedAccepted | internal/codec/row/row.go:1239-1248 | Nested values are encoded if and only if every element is nil or taken by its type |
| NestedReading.ArrayReadExactly | internal/codec/row/row.go:1274-1298 | Any bytes are read as an array if and only if they are its count and its elements behind their lengths |
| NestedReading.MapReadExactly | internal/codec/row/row.go:1188-1225 | Any bytes are read as a map if and only if they are a count and entries with hashable keys, assigned in order |
| NestedReading.PutExactly | internal/codec/row/row.go:1188-1225 | Assigning to a map replaces the entry of an equal key or adds one |
| NestedReading.KeyEqualExactly | internal/codec/row/row.go:1188-1225 | Key equality is Go's: zeros of either sign are equal, NaNs and decimals never |
| RowRoundTrip.IndexedRowDecodes | internal/codec/row/row.go:644-698 | Every storable row decodes to its canonical values |
| RowRoundTrip.ValueRoundTrip | internal/codec/row/row.go:798-877 | A storable value of any type, nested to any depth, survives encoding and decoding |
| RowRoundTrip.EntriesRoundTrip | internal/codec/row/row.go:1164-1225 | Map entries decode to the entries put into a map in their order, with Go's key equality |
| RowExactness.AnyIterationOrder | internal/codec/row/row.go:1164-1186 | Two iteration orders of one map each decode to all its entries |
| RowExactness.ValueExactness | internal/codec/row/row.go:457-562 | A value is canonical if and only if it is of its column's kind with nothing the column drops |
| RowRoundTrip.LengthsRoundTrip | internal/codec/row/row.go:660-680 | The length table read for an indexed row gives each variable column the length written for it, and the rest is the payload |
| RowBitmap.NullBitmapBit | internal/codec/row/row.go:644-660 | A bit of the null bitmap is set exactly for a null column |
| RowBitmap.SetNullBit | internal/codec/row/row.go:879-879 | Setting one bit in place turns the bitmap of the columns so far into the bitmap with one more null column |
| Bits.OrBitIsMaskOr | internal/codec/row/row.go:879-879 | The arithmetic used for bits is the machine's bitwise or with a shifted one |
| Bits.BitIsMaskTest | internal/codec/row/row.go:681-690 | The arithmetic used for bits is the machine's mask test |
| RowCompacted.CompactedRoundTrip | internal/codec/row/row.go:602-607 | A compacted row decodes to its canonical values whatever bytes follow it, if every column that is not null is of a supported type (no array, map, row, timestamp or decimal of precision up to 18) and shorter than 2^32 bytes |
| RowCompacted.ScalarSelfDelimiting | internal/codec/row/row.go:700-761 | compactedFieldSize on a supported field followed by any bytes is the width written, and those bytes decode to the value |
| RowCompacted.CompactedNeedsNullNested | internal/codec/row/row.go:758-760 | A compacted row whose other non-null columns are of supported types decodes if and only if its array, map and row columns are null |
| RowCompacted.NestedNeverDecodes | internal/codec/row/row.go:758-760 | A compacted row with an array, map or row that is not null never decodes, whatever its other columns and what follows it |
| RowCompactedLimits.CompactedRowExactly | internal/codec/row/row.go:602-607 | Any compacted row with lengths below 2^32 decodes to its canonical values if and only if it is one that ComesBack describes: supported columns, then one narrow decimal or timestamp holding 0 to 127 with only zeros behind it, or a fine timestamp whose twelve bytes happen to be measured right or one byte too long over such zeros |
| SmallRows.SmallCompactedRowExactly | internal/codec/row/row.go:602-607 | The same for every compacted row shorter than 2^32 bytes |
| RowCompactedLimits.CompactedRowWithTail | internal/codec/row/row.go:681-698 | Rows that come back do so whatever follows them; with bytes behind the row others come back only where the decoder runs past the end of a column |
| RowCompactedCases.CompactedValuesExactly | internal/codec/row/row.go:602-607 | A compacted row decodes to the very values encoded if and only if each fits its column and the row comes back |
| RowCompactedCases.OrdinaryRowExactly | internal/codec/row/row.go:741-757 | With timestamps of 0 to 2^23 - 1 nanoseconds: a compacted row comes back if and only if, nulls aside, nothing is nested or a timestamp finer than milliseconds, and the first narrow column holds 0 to 127 with only zeros after it |
| RowCompactedCases.FirstNarrowExactly | internal/codec/row/row.go:1031-1064 | Behind supported columns and before anything, a narrow decimal or timestamp lets the row come back if and only if it holds 0 to 127 and only zeros follow in the row, or holds -128 to -1, FF 01 follows, and the later columns are found behind these two bytes |
| RowCompactedCases.LastNarrowExactly | internal/codec/row/row.go:1066-1107 | Where no later column is present: if and only if it holds 0 to 127, or -128 to -1 with FF 01 behind the row |
| RowCompactedCases.SecondNarrowMustBeZero | internal/codec/row/row.go:1031-1064 | Of two narrow decimals, the first of them 0 to 127, the row gives both back if and only if the second is zero |
| CompactedPositions.NeverRecovers | internal/codec/row/row.go:681-698 | A decoder that has run ahead over a byte that is not zero finds the rest of the row nowhere |
| CompactedPositions.BehindExactly | internal/codec/row/row.go:681-698 | A decoder two bytes or more behind over zeros finds the later columns if and only if they are all written in zeros and none is a fine timestamp or nested |
| CompactedSurvivors.SurvivorsExactly | internal/codec/row/row.go:681-698 | Column by column, which columns the decoder finds again at their places or off them |
| FixedAsVarint.FixedReadAsVarint | internal/codec/row/row.go:741-757 | Eight fixed bytes in front of anything are the varint of their own number exactly for 0 to 127, in one byte, and for -128 to -1 where FF 01 follows, in ten |
| RowCompactedCases.FineTimestampFails | internal/codec/row/row.go:1086-1107 | Behind supported columns, a timestamp of precision 4 to 9 with 0 to 2^23 - 1 nanoseconds keeps the row from ever decoding, whatever its other columns and what follows it |
| RowCompactedCases.FineTimestampCanComeBack | internal/codec/row/row.go:1086-1107 | A row with a fine timestamp of more nanoseconds that does come back |
| Varint.UvarintOfPut | internal/codec/row/row.go:588-598 | Any 64-bit varint is read back with its width, whatever follows it |
| Varint.VarintBuffersSuffice | internal/codec/row/row.go:576-598 | Varints of 32- and 64-bit numbers fit buffers of 5 and 10 bytes |
| WireForms.PutUvarintExactly | internal/codec/row/row.go:588-598 | The bytes written are the shortest varint of the number: seven bits a byte, lowest first, the high bit on all but the last |
| WireForms.UvarintExactly | internal/codec/row/row.go:588-598 | A varint is read from any bytes if and only if one of at most ten bytes below 2^64 stands there |
| WireForms.ToBEExactly | internal/codec/row/row.go:1031-1036 | Magnitudes are the shortest big-endian bytes of their number |
| KeyBytes.KeyBytesExactly | internal/codec/row/row.go:365-455 | The bytes of a key column: varints for narrow decimals, and of the milliseconds and then the nanoseconds of a timestamp; else the compacted form |
| KeyBytes.LookupKeyExactly | internal/codec/row/row.go:60-76 | A key is the bytes of its columns in the order asked for, with nothing between them |
| KeyBytes.KeyRefused | internal/codec/row/row.go:60-76 | It fails at the first column that is out of range or does not take its value |
| LookupKey.PrefixLookupExactly | internal/codec/row/row.go:60-76 | The key over the first k columns is a byte prefix of another row's key over all columns if and only if the rows agree on those k columns |
| LookupKey.FullKeysInjective | internal/codec/row/row.go:60-76 | Keys over the same columns are equal if and only if the key values are |
| LookupKey.CodesPrefixFree | internal/codec/row/row.go:365-455 | Codes of one key column are prefix-free |
| RowCodec.EncodeRow | internal/codec/row/row.go:326-359 | The encoding loop, which sets null bits in place and appends lengths and payload, builds the layout or fails with the first column's error |
| RowCodec.DecodeRow | internal/codec/row/row.go:644-698 | The two decoding loops over a moving offset compute the row, or the same error, as decoding cell by cell |
| RowCodec.EncodeValue | internal/codec/row/row.go:457-562 | Dispatch on the column type, with the collection loops, equals the recursive encoding |
| RowCodec.DecodeValue | internal/codec/row/row.go:798-877 | Dispatch on the column type, with the collection loops, equals the recursive decoding |
| RowCodec.EncodeMap | internal/codec/row/row.go:1164-1186 | The loop over map entries equals the recursive encoding |
| RowCodec.DecodeMap | internal/codec/row/row.go:1188-1225 | The loop over a map's fields, filling a map and rejecting unhashable keys, equals the recursive decoding |
| RowCodec.EncodeLengthPrefixedCollection | internal/codec/row/row.go:1260-1272 | The loop over items equals the recursive encoding |
| RowCodec.DecodeLengthPrefixedCollection | internal/codec/row/row.go:1274-1298 | The loop over framed items with a moving offset equals the recursive decoding |
| RowCodec.EncodeLookupKey | internal/codec/row/row.go:60-76 | The loop over key columns concatenates the column codes or fails as the source does |
| BatchRoundTrip.LogStreamRoundTrip | internal/codec/row/row.go:110-125 | Any number of concatenated log batches decode to exactly the rows written, in order, with every checksum passing |
| BatchRoundTrip.LogRecordsRoundTrip | internal/codec/row/row.go:247-269 | Any number of records in one batch decode to their rows |
| BatchRoundTrip.LogBatchChecks | internal/codec/row/row.go:175-192 | The patched checksum lies outside the bytes it covers and matches them |
| BatchRoundTrip.LogBatchRoundTrip | internal/codec/row/row.go:609-627 | A batch at the front of any stream is found with its size and records |
| BatchRoundTrip.KvFraming | internal/codec/row/row.go:271-324 | Splitting an encoded key-value batch recovers its lookup key and row bytes; the delete record carries the same key and no row |
| BatchRoundTrip.KvBatchRoundTrip | internal/codec/row/row.go:629-642 | Every encoded key-value batch passes decodeKvBatch with its schema id modulo 2^16 |
| BatchRoundTrip.ValueBatchRoundTrip | internal/codec/row/row.go:135-173 | A value batch decodes to the rows its records hold, in order, whatever follows it |
| BatchBytes.LogBatchOnTheWire | internal/codec/row/row.go:175-192 | A log batch byte by byte: offset, length, magic, time, checksum, schema id, attributes, delta, twelve bytes of writer state that are FF without one, count, record |
| BatchBytes.LogBatchReadExactly | internal/codec/row/row.go:609-627 | A log batch is found in front of any bytes if and only if its length, magic and checksum are right |
| BatchBytes.LogRecordsReadExactly | internal/codec/row/row.go:247-269 | Any bytes are read as records if and only if they are lengths, zeros and rows with nothing left over |
| BatchBytes.KvBatchOnTheWire | internal/codec/row/row.go:194-208 | A key-value batch byte by byte |
| BatchBytes.KvRecordOnTheWire | internal/codec/row/row.go:271-324 | Its record: length, varint length of the key, key of the named columns or of the first, row; or the first error |
| BatchBytes.KvRecordRefused | internal/codec/row/row.go:271-278 | No fields, the wrong number of values or an unsound schema |
| BatchBytes.KvBatchReadExactly | internal/codec/row/row.go:629-642 | Which bytes are accepted as a key-value batch |
| BatchBytes.ValueBatchReadExactly | internal/codec/row/row.go:135-173 | Which bytes are accepted as a value batch: the records fill its declared length exactly |
| BatchCodec.EncodeLogBatch | internal/codec/row/row.go:175-192 | Appending fields and then patching the checksum slot in place gives the sealed log batch |
| BatchCodec.EncodeKvBatch | internal/codec/row/row.go:194-208 | The same for key-value batches |
| BatchCodec.EncodeKvRecord | internal/codec/row/row.go:271-299 | Length, varint key length, key and row in that order, or the first error |
| BatchCodec.EncodeKvDeleteRecord | internal/codec/row/row.go:301-324 | The record with the same key and an empty row |
| BatchCodec.DecodeLogRecords | internal/codec/row/row.go:247-269 | The loop over records with a moving offset |
| BatchCodec.DecodeLogRecordBatchRows | internal/codec/row/row.go:110-125 | The loop over batches ends because every batch is nonempty, and collects all rows |
| BatchCodec.DecodeValueRecordBatchRows | internal/codec/row/row.go:135-173 | The counted loop over value records, with its bounds and size errors |
| Batches.BucketRecordBatchBytes | client/writer.go:487-493 | The loop adds up the record bytes |
| Batches.TotalBytesExactly | client/writer.go:487-493 | The sum is the length of all records together |
| WriterBuffer.WriterState.TryWriteLocked | client/writer.go:40-69 | One pass of Write, case by case: refused when closed, written through without buffering, refused or asleep by BlockOnBufferFull when there are too many batches or bytes, else appended; and the whole new state |
| WriterBuffer.WriterState.BeginFlushLocked | client/writer.go:133-149 | beginFlush takes the whole buffer, or refuses; the timer stops even when it refuses for a flush under way |
| WriterBuffer.WriterState.RestorePendingLocked | client/writer.go:151-161 | A failed flush puts its batches in front, with their bytes, and re-arms the timer unless closed |
| WriterBuffer.WriterState.FinishFlushLocked | client/writer.go:163-171 | A finished flush re-arms the timer only for batches that came meanwhile |
| WriterBuffer.WriterState.CloseLocked | client/writer.go:106-115 | Close empties the buffer and stops the timer |
| WriterBuffer.WriterState.HasCapacityLocked | client/writer.go:192-200 | Both limits, each only when set |
| WriterBuffer.WriterState.ResetTimer | client/writer.go:173-190 | The timer is armed exactly when there is a linger time |
| WriterBuffer.WriterState.Flush | client/writer.go:71-92 | Alone, a flush sends the whole buffer or leaves it unchanged, and fails exactly when closed, busy or refused by the network |
| WriterBuffer.WriterState.CloseWithContext | client/writer.go:117-131 | Alone, an error leaves the writer open with its batches, and nil means it is closed with its batches sent if it flushes on close |
| WriterBuffer.FailedFlushRestores | client/writer.go:151-161 | Beginning a flush and restoring it gives back the buffered batches |
| WriterRuns.FifoConservation | client/writer.go:42-69 | In every execution: delivered, in flight and pending batches together are the accepted ones in order until Close, and with the dropped ones always the same multiset |
| WriterRuns.BufferBound | client/writer.go:192-200 | After k consecutive failed flushes the buffer holds at most k + 1 times each limit, one limit while a flush is in flight or without failures, and the byte counter is exact |
| WriterRuns.BoundReached | client/writer.go:151-161 | For every k some execution reaches that bound, unless writes bypass the buffer |
| WriterRuns.LingerNeverStrands | client/writer.go:173-190 | Pending batches of an open lingering writer with no flush in flight always have an armed timer or a fired callback, and no timer is armed during a flush |
| WriterRuns.NoLostWakeup | client/writer.go:455-469 | A sleeping writer's request does not fit or a flush is in flight, the writer is open, and either end of that flush wakes it |
| WriterWaits.FullBufferWaits | client/writer.go:62-67 | With BlockOnBufferFull a writer that finds too many batches or bytes goes to sleep with its request, and nothing else changes |
| WriterWaits.FullBufferRefuses | client/writer.go:62-64 | Without it the writer is refused and nothing else changes |
| WriterWaits.NobodyWaits | client/writer.go:62-64 | And no writer waits in any state of any execution |
| WriterWaits.RoomAccepts | client/writer.go:53-61 | A writer that finds room has its batches put behind all others |
| WriterWaits.ClosedRefuses | client/writer.go:40-43 | A closed writer takes nothing |
| WriterWaits.UnflushedFoundClosed | client/writer.go:117-131 | Unless FlushOnClose is false, a call of CloseWithContext that returns nil without a flush of its own found the writer closed |
| WriterRuns.FlushDeliversAllBefore | client/writer.go:71-92 | A flush that succeeds has delivered exactly the batches accepted before it began |
| WriterRuns.CloseLosesNothingFlushed | client/writer.go:117-131 | If CloseWithContext flushed and returned nil, every batch accepted before its own flush began was delivered and only later ones were dropped, under every schedule |
| WriterRuns.CloserHistory | client/writer.go:117-131 | A call of CloseWithContext never forgets when its flush began and only moves forward |
| WriterSafety.ConservedByStep | client/writer.go:133-171 | Every step keeps: accepted is delivered, in flight, pending and dropped, in that order |
| WriterSafety.BoundedByStep | client/writer.go:53-61 | Every step keeps the bound, shared between the buffer and the flush in flight |
| WriterSafety.TimerSoundByStep | client/writer.go:151-190 | Every step keeps the timer invariant |
| WriterSafety.SleepersByStep | client/writer.go:53-67 | Every step keeps each sleeper's reason to sleep |
| WriterSafety.ClosersSoundByStep | client/writer.go:117-131 | Every step keeps what each closer may rely on |
| BucketResults.BucketFailureKeyInjective | client/table.go:506-511 | Key texts are equal if and only if partition and bucket are, with "nil" apart from every number |
| BucketResults.ParseResults | client/parse.go:11-48 | Results in order, and one failure for each result with a nonzero code |
| BucketResults.FailuresComplete | client/parse.go:34-46 | A failure is reported if and only if some result failed with it |
| BucketResults.SplitBucketWriteFailures | client/table.go:487-504 | Under each key text the last retryable failure of that bucket and nothing else, terminal failures in order; none is counted twice |
| BucketResults.FilterBatchesByFailure | client/table.go:513-521 | Exactly the batches of the given buckets, in order |
| BucketResults.MergeResults | client/table.go:523-540 | The outcome is sorted by bucket; if the existing list holds one result a bucket, merging is map override and keeps one result a bucket |
| BucketResults.ReorderingKeepsBuckets | client/table.go:538-538 | Sorting, stable or not, changes nothing but the order |
| WriteRetry.WriteOnce | client/table.go:186-228 | One attempt: all answers of the leaders, a failure for each failed bucket, and nothing but the error if a leader cannot be reached |
| WriteRetry.Write | client/table.go:54-95 | The retry loop sends, merges and fails as its history of attempts says, for any server |
| WriteRetryRules.RetryDiscipline | client/table.go:54-95 | At most two sends; the second is everything after an unanswered first, or exactly the original-order subsequence of retryably failed buckets when every failure was retryable |
| WriteRetrySends.SecondSendExactly | client/table.go:54-95 | There is a second send if and only if the refresh works and the first attempt failed curably: without an answer by such an error, and then everything goes out again, or with failed buckets all of which failed so, one of them with a batch |
| WriteRetrySends.CurableExactly | client/table.go:475-485 | Such an error has code 44, is ErrLeaderNotAvailable, or speaks of a missing route or of a leader |
| WriteRetrySends.FinalErrorExactly | client/table.go:64-91 | The error is that of the last attempt; of failed buckets it names, in order, those that were not curable, and it is nil if all were |
| WriteRetrySends.AnsweredOutcome | client/table.go:186-228 | If all leaders answer: a result for each item in order, and the failures in order |
| WriteRetrySends.OutcomeExactly | client/table.go:186-214 | If one does not: its error and no results |
| WriteRetrySends.ByBucketLast | client/table.go:523-540 | Of several answers about a bucket the last counts |
| WriteRetryRules.SelectedPositions | client/table.go:513-521 | The filter keeps each batch whose bucket is asked for, once, in order, and no other |
| WriteRetryRules.NilErrorHidesNoTerminalFailure | client/table.go:74-91 | With a nil error no bucket's last response is a failure that cannot be retried |
| WriteRetryRules.NilErrorMeansSuccessExactly | client/table.go:74-77 | For any server, a nil error means that no bucket is left failed if and only if no bucket's last answer in the last attempt is a failure and that attempt answered every bucket left failed by the first |
| WriteRetryRules.NilErrorCanHideFailure | client/table.go:74-77 | A leader that stays unavailable gives a nil error with its failure among the results |
| WriteRetryRules.LastResponseWins | client/table.go:523-559 | Over any number of attempts, each bucket's merged result is the last one given for it |
| TypeParser.FieldTypeParser.ParseType | internal/metadata/schema_descriptor.go:230-357 | The recursive descent terminates on every input, keeps its position within bounds, and computes the grammar's result |
| TypeParser.FieldTypeParser.ParseShape | internal/metadata/schema_descriptor.go:233-356 | What each keyword makes the parser read next, and the type or the first error that comes of it |
| TypeParser.FieldTypeParser.ParseFields | internal/metadata/schema_descriptor.go:332-349 | The loop over row fields reads them all or fails at the first bad one |
| TypeParser.FieldTypeParser.ParseIntArgs | internal/metadata/schema_descriptor.go:359-393 | The loop over arguments, with its range and count errors |
| TypeParser.FieldTypeParser.ParseIdentifier | internal/metadata/schema_descriptor.go:395-407 | The longest word at the position, and what follows it |
| TypeParser.FieldTypeParser.SkipSpaces | internal/metadata/schema_descriptor.go:409-413 | The position moves to the next character that is not a space |
| TypeParser.FieldTypeParser.Expect | internal/metadata/schema_descriptor.go:415-422 | One character is passed, or nothing but spaces |
| TypeParser.FieldTypeParser.Peek | internal/metadata/schema_descriptor.go:424-430 | The next character that is not a space |
| TypeParser.ParseFieldType | internal/metadata/schema_descriptor.go:217-228 | Trimming, one type, and nothing behind it |
| TypeText.TypeTextParsesBack | internal/metadata/schema_descriptor.go:217-228 | Any way of writing a type, whatever its nesting, letter case, spaces, digits and field names, is parsed as that type |
| TypeText.TypeReadBack | internal/metadata/schema_descriptor.go:230-357 | The same inside a longer text |
| TypeNames.WordExactly | internal/metadata/schema_descriptor.go:230-357 | A single word, between any spaces and in any case of letters, is the type in whose list of names it is, and else is refused; a timestamp alone has precision 6 |
| TypeNames.WordWithNumberExactly | internal/metadata/schema_descriptor.go:248-296 | With one number in parentheses it is a string, byte string or time whatever the number, or a timestamp of that precision, and nothing else |
| TypeNames.WordWithTwoExactly | internal/metadata/schema_descriptor.go:262-267 | With two it is a decimal of that precision and scale, and nothing else |
| TypeNames.ArrayOfText | internal/metadata/schema_descriptor.go:297-308 | ARRAY<...> around the text of a type |
| TypeNames.MapOfTexts | internal/metadata/schema_descriptor.go:309-327 | MAP<...,...> around the texts of two types |
| TypeNames.JsonExactly | internal/metadata/schema_descriptor.go:128-203 | A JSON object is the type that its name, with three long names more, and its other keys say, and nothing else |
| TypeNames.Preferences | internal/metadata/schema_descriptor.go:82-117 | Which description counts where there are several |
| TypeLanguage.ParsesExactlyTexts | internal/metadata/schema_descriptor.go:217-430 | An input is accepted as a type if and only if it is a way of writing that type |
| TypeRoutes.RoutesAgree | internal/metadata/schema_descriptor.go:128-203 | A JSON type tree and its text give the same type, at any depth, with the shared default precision and with nested fields given as trees or as text |
| TypeRoutes.ColumnRoutesAgree | internal/metadata/schema_descriptor.go:82-93 | A column described by a tree and one described by its text have the same type |
| TypeRoutes.BareWordRoutesAgreeExactly | internal/metadata/schema_descriptor.go:133-201 | A single word means the same on both routes if and only if it is not one of five names |
| TypeRoutesExact.RoutesAgreeExactly | internal/metadata/schema_descriptor.go:128-203 | A JSON tree with word names and its text give one type if and only if every decimal has precision and scale, every number is one the text can hold, and no row is empty; otherwise the text is refused |
| SnapshotDecode.SameColumns | internal/snapshot/decode.go:47-57 | The loop decides equality of the column lists |
| SnapshotDecode.ProjectRow | internal/snapshot/decode.go:59-74 | A target column whose name the source lacks is nil; else it holds the value of the last source column of that name, or nil where the row is too short |
| SnapshotDecode.FastPathExactly | internal/snapshot/decode.go:41-44 | For equal column lists, skipping the projection is sound if and only if columns of one name hold one value |
| SnapshotDecode.IndexedEvolution | internal/snapshot/decode.go:17-45 | An indexed row stored under any older schema is read with each target column holding the value written in the column of its name, or nil if the older schema has none; without target columns unchanged |
| SnapshotDecode.CompactedEvolution | internal/snapshot/decode.go:34-45 | The same for every compacted row that comes back |
| SnapshotReader.Reader.LookupPlan | internal/snapshot/reader.go:65-83 | A plan is loaded at most once and then kept; every cached plan is an initial or a loaded one |
| SnapshotReader.Reader.DecodeValue | internal/snapshot/decode.go:17-45 | For any loader, the row or the error, and the cache left behind: an error is a value too short, the load's own, a missing schema, or the decoder's on that plan |
| SnapshotReader.Reader.ReadAll | internal/snapshot/reader.go:34-48 | For any loader, all rows in order with the cache threaded through, or the error of the first value that fails, or of the iteration; with a steady loader the result is that of decoding every value |
| SnapshotReader.ReadFails | internal/snapshot/reader.go:34-48 | An error is that of one value, and everything before it was read |
| SnapshotReader.ReadWithOnePlan | internal/snapshot/reader.go:65-83 | All values of one schema id are decoded with one plan, whatever the loader answers later |
| SnapshotRows.SnapshotOfRows | internal/snapshot/reader.go:34-48 | From rows to rows: a store of rows encoded under any mixture of older schemas, in either layout, is read back in order with every target column its namesake's value, or nil |
| ArrowTimestamps.InstantRoundedDown | internal/codec/arrow/record_batch.go:374-416 | The instant survives, rounded down to the unit of the precision, if and only if it is representable |
| ArrowTimestamps.PairRestoredExactly | internal/codec/arrow/record_batch.go:398-416 | Milliseconds and nanoseconds come back if and only if they are a whole number of units in truncated form |
| ArrowTimestamps.SinceEpochRestored | internal/codec/arrow/record_batch.go:398-416 | They do for every unit-aligned instant since 1970 in the usual form |
| ArrowTimestamps.UsualValue | internal/codec/arrow/record_batch.go:374-397 | The number in the column: seconds, milliseconds, microseconds or nanoseconds by precision |
| ArrowTimestamps.UsualParts | internal/codec/arrow/record_batch.go:398-416 | How it is taken apart |
| ArrowLog.EncodeLogBatch | internal/codec/arrow/log_batch.go:78-99 | Appending and patching gives the sealed batch with its attribute bit and record count |
| ArrowLog.DecodeLogBatch | internal/codec/arrow/log_batch.go:115-144 | Size, checksum, attribute and change-type handling with their errors |
| ArrowLog.DecodeStream | internal/codec/arrow/log_batch.go:58-76 | The loop over batches collects the rows of all records |
| BatchBytes.ArrowBatchOnTheWire | internal/codec/arrow/log_batch.go:78-99 | An Arrow batch byte by byte |
| BatchBytes.ArrowBatchReadExactly | internal/codec/arrow/log_batch.go:115-144 | Which bytes are accepted as an Arrow batch, and what is skipped in front of its records |
| ArrowLogRoundTrip.BatchRoundTripExactly | internal/codec/arrow/log_batch.go:134-143 | A batch comes back if and only if it is append-only or counts no records |
| ArrowLogRoundTrip.StreamRoundTrip | internal/codec/arrow/log_batch.go:58-76 | Any number of append-only batches decode to the rows of their records, with or without the checksum test |
| ArrowLogRoundTrip.ProjectedAgrees | internal/codec/arrow/log_batch.go:50-56 | The reader that skips the checksum agrees with the one that checks it wherever that one succeeds |

## Left out

- Narrowing a float64 to float32, decimals given as strings, and NaN results: the encoder accepts float bit patterns and unscaled integers only.
- Element, key and value types that are nil pointers and unknown type kinds: a FieldType is one its constructors can build.
- Batches whose declared size is below their header: the source may slice out of range, and the model answers with an error.
- Records, rows and strings of 2^32 bytes or more: their lengths wrap in the source, and the round trips exclude them.
- RowCompactedLimits.CompactedRowWithTail: where the decoder runs past a column, it looks for the later columns among bytes behind the row, which can be anything; for those rows the condition stays the search itself (`RowIsColumns`), except in the cases of `FirstNarrowExactly`.
- DecodeKvRecordBatch (internal/codec/row/row.go:127-133): it reads rows from bytes that still hold record length and key; KvFraming splits them instead.
- DecodeLogRecordBatch (internal/codec/row/row.go:102-108): the single-row form of the stream decoder.
- WriterBuffer.WriterState.TryWriteLocked: one pass of the loop of Write; what the network answers a write that bypasses the buffer is not part of it, and the waiting between passes is in WriterSystem.
- Cancelled contexts before Write and Flush take the lock: they return at once and change nothing.
- A fired timer callback whose context has expired before beginFlush: its deadline starts when it fires, and clocks are not modelled.
- Liveness of the writer: that a flush ends and that a woken writer is scheduled is up to the network and to Go.
- Leader routing and the order in which leaders are called: a reply lists what the leaders answer, in any order.
- Response messages of an unexpected protobuf type: the transport builds the response from the name it is asked for.
- The operation text of a PartialWriteError, and error texts beyond what decides whether an error is retryable.
- The order of results with equal bucket ids: sort.Slice leaves it open, and so does SortByBucket.
- Field types in text outside ASCII, and JSON unmarshalling: the JSON route starts from the parsed tree.
- Two lookups of one schema id that load a plan at the same time: LookupPlan is one step.
- Opening and closing the snapshot store, fetching its files, and Arrow record encoding: the store is a sequence of values and an Arrow record is opaque bytes with an abstract decoder.
- The wrapper of encodeLogBatch in the Arrow codec that rejects an empty row list, and compression options.
- Admin calls, lookups, fetches, scans, authentication, transport and metadata caching.

/**
 The unit a client writes: encoded records for one bucket of an optionally partitioned table.
 */
module Batches {
  import opened Bytes
  import opened Results

  datatype BucketRecordBatch = BucketRecordBatch(partitionID: Option<int64>, bucketID: int32, records: seq<byte>)

  /** The record bytes of `batches`, as bucketRecordBatchBytes adds them up. */
  function TotalBytes(batches: seq<BucketRecordBatch>): nat {
    if batches == [] then 0 else |batches[0].records| + TotalBytes(batches[1..])
  }

  lemma {:induction false} TotalBytesOfConcat(a: seq<BucketRecordBatch>, b: seq<BucketRecordBatch>)
    ensures TotalBytes(a + b) == TotalBytes(a) + TotalBytes(b)
  {
    if a == [] {
      assert a + b == b;
    } else {
      assert (a + b)[1..] == a[1..] + b;
      TotalBytesOfConcat(a[1..], b);
    }
  }

  method BucketRecordBatchBytes(batches: seq<BucketRecordBatch>) returns (total: nat)
    ensures total == TotalBytes(batches)
  {
    total := 0;
    for i := 0 to |batches|
      invariant total == TotalBytes(batches[..i])
    {
      assert batches[..i + 1] == batches[..i] + [batches[i]];
      TotalBytesOfConcat(batches[..i], [batches[i]]);
      total := total + |batches[i].records|;
    }
    assert batches[..|batches|] == batches;
  }

  /** The records of all batches, one after the other. */
  function AllRecords(batches: seq<BucketRecordBatch>): seq<byte> {
    if batches == [] then [] else batches[0].records + AllRecords(batches[1..])
  }

  lemma {:induction false} TotalBytesExactly(batches: seq<BucketRecordBatch>)
    ensures TotalBytes(batches) == |AllRecords(batches)|
  {
    if batches != [] {
      TotalBytesExactly(batches[1..]);
    }
  }
}

/**
 The two-attempt write of AppendLog and UpsertKV against a server that may answer anything. The two differ only in
 whether one attempt sorts its results, which is the parameter `sortsAttempts`.
 */
module WriteRetry {
  import opened Batches
  import opened BucketResults
  import opened Bytes
  import opened Results

  datatype WriteError = Partial(failures: seq<BucketWriteError>) | Other(err: GoError)

  datatype LeaderReply = Answer(items: seq<ResponseItem>) | CallFailed(err: GoError)

  /** What becomes of one attempt: no table info or route, or calls to leaders, in the order they are made. */
  datatype Reply = Unsent(err: GoError) | Sent(replies: seq<LeaderReply>)

  /** How the network answers the batches of attempt 0 or 1. */
  type Server = (nat, seq<BucketRecordBatch>) -> Reply

  datatype Attempt = Attempt(sent: seq<BucketRecordBatch>, results: seq<BucketResult>, error: Option<WriteError>)

  // ---------- one attempt ----------

  function PartialError(results: seq<BucketResult>): Option<WriteError> {
    if Failures(results) == [] then None else Some(Partial(Failures(results)))
  }

  /** A leader that cannot be reached discards what other leaders answered. */
  function Collect(replies: seq<LeaderReply>, sofar: seq<BucketResult>): (seq<BucketResult>, Option<WriteError>) {
    if replies == [] then (sofar, PartialError(sofar))
    else
      match replies[0]
      case Answer(items) => Collect(replies[1..], sofar + Parsed(items))
      case CallFailed(err) => ([], Some(Other(err)))
  }

  function Outcome(reply: Reply): (seq<BucketResult>, Option<WriteError>) {
    match reply
    case Unsent(err) => ([], Some(Other(err)))
    case Sent(replies) => Collect(replies, [])
  }

  method WriteOnce(reply: Reply, sorts: bool) returns (results: seq<BucketResult>, error: Option<WriteError>)
    ensures error == Outcome(reply).1 && multiset(results) == multiset(Outcome(reply).0)
    ensures !sorts ==> results == Outcome(reply).0
    ensures sorts ==> SortedByBucket(results)
  {
    if reply.Unsent? {
      return [], Some(Other(reply.err));
    }
    var failures: seq<BucketWriteError>;
    results, failures := [], [];
    assert reply.replies[0..] == reply.replies;
    for i := 0 to |reply.replies|
      invariant failures == Failures(results)
      invariant Outcome(reply) == Collect(reply.replies[i..], results)
    {
      var leader := reply.replies[i];
      if leader.CallFailed? {
        return [], Some(Other(leader.err));
      }
      var parsed, failed := ParseResults(leader.items);
      FailuresOfConcat(results, parsed);
      assert reply.replies[i..][1..] == reply.replies[i + 1..];
      results := results + parsed;
      failures := failures + failed;
    }
    if sorts {
      results := SortByBucket(results);
    }
    return results, if |failures| > 0 then Some(Partial(failures)) else None;
  }

  lemma {:induction false} CollectedErrors(replies: seq<LeaderReply>, sofar: seq<BucketResult>)
    ensures
      var (results, error) := Collect(replies, sofar);
      match error
      case None => Failures(results) == []
      case Some(Partial(failures)) => failures == Failures(results) && failures != []
      case Some(Other(_)) => results == []
  {
    if replies != [] && replies[0].Answer? {
      CollectedErrors(replies[1..], sofar + Parsed(replies[0].items));
    }
  }

  // ---------- what a write does ----------

  ghost predicate Performed(reply: Reply, attempt: Attempt) {
    attempt.error == Outcome(reply).1 && multiset(attempt.results) == multiset(Outcome(reply).0)
  }

  function Resent(first: Attempt): seq<BucketRecordBatch> {
    match first.error
    case Some(Partial(failures)) => Selected(first.sent, RetryableKeys(failures))
    case _ => first.sent
  }

  predicate WantsRetry(first: Attempt) {
    match first.error
    case None => false
    case Some(Other(err)) => IsRetryable(err)
    case Some(Partial(failures)) => RetryableKeys(failures) != {} && Terminal(failures) == [] && Resent(first) != []
  }

  function FinalError(attempts: seq<Attempt>): Option<WriteError>
    requires attempts != []
  {
    match attempts[|attempts| - 1].error
    case Some(Partial(failures)) =>
      if Terminal(failures) == [] then None else Some(Partial(Terminal(failures)))
    case error => error
  }

  /** `refreshed` says whether the metadata refresh before a second attempt works. */
  ghost predicate IsWrite(server: Server, refreshed: bool, buckets: seq<BucketRecordBatch>, attempts: seq<Attempt>) {
    && attempts != []
    && attempts[0].sent == buckets
    && (forall i :: 0 <= i < |attempts| ==> Performed(server(i, attempts[i].sent), attempts[i]))
    && |attempts| == (if WantsRetry(attempts[0]) && refreshed then 2 else 1)
    && (|attempts| == 2 ==> attempts[1].sent == Resent(attempts[0]))
  }

  function Merged(attempts: seq<Attempt>): map<BucketKey, BucketResult> {
    if attempts == [] then map[]
    else Merged(attempts[..|attempts| - 1]) + ByBucket(attempts[|attempts| - 1].results)
  }

  lemma NothingMerged()
    ensures UniqueBuckets([]) && ByBucket([]) == map[] == Merged([])
  {
  }

  method Write(server: Server, refreshed: bool, sortsAttempts: bool, buckets: seq<BucketRecordBatch>)
    returns (results: seq<BucketResult>, error: Option<WriteError>, attempts: seq<Attempt>)
    ensures IsWrite(server, refreshed, buckets, attempts)
    ensures error == FinalError(attempts)
    ensures UniqueBuckets(results) && SortedByBucket(results) && ByBucket(results) == Merged(attempts)
  {
    hide IsRetryable, Failures, Terminal, RetryableKeys, Selected, Collect, ByBucket, UniqueBuckets, SortedByBucket;
    hide Outcome, KeyedByText;
    results, attempts := [], [];
    NothingMerged();
    var pending := buckets;
    for attempt := 0 to 2
      invariant attempt == |attempts| <= 1
      invariant UniqueBuckets(results) && ByBucket(results) == Merged(attempts)
      invariant attempt == 0 ==> pending == buckets
      invariant attempt == 1 ==>
                  && attempts[0].sent == buckets
                  && Performed(server(0, buckets), attempts[0])
                  && WantsRetry(attempts[0]) && refreshed && pending == Resent(attempts[0])
    {
      var reply := server(attempt, pending);
      var current, err := WriteOnce(reply, sortsAttempts);
      ghost var before := attempts;
      attempts := attempts + [Attempt(pending, current, err)];
      assert attempts[..attempt] == before;
      results := MergeResults(results, current);
      if err.None? {
        return results, None, attempts;
      }
      if err.value.Other? {
        if attempt == 1 || !IsRetryable(err.value.err) || !refreshed {
          return results, err, attempts;
        }
        continue;
      }
      var retryable, terminal := SplitBucketWriteFailures(err.value.failures);
      var terminalError := if |terminal| == 0 then None else Some(Partial(terminal));
      if retryable == map[] || attempt == 1 || !refreshed {
        return results, terminalError, attempts;
      }
      pending := FilterBatchesByFailure(pending, retryable, RetryableKeys(err.value.failures));
      if |pending| == 0 {
        return results, terminalError, attempts;
      }
      if terminalError.Some? && |retryable| != |err.value.failures| {
        return results, terminalError, attempts;
      }
    }
    assert false;
  }
}

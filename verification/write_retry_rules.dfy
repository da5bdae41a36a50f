/**
 What the two-attempt write promises for every behaviour of the servers.
 */
module WriteRetryRules {
  import opened Batches
  import opened BucketResults
  import opened Bytes
  import opened Results
  import opened WriteRetry

  // ---------- which batches go out again ----------

  ghost predicate Increasing(positions: seq<nat>) {
    forall i, j :: 0 <= i < j < |positions| ==> positions[i] < positions[j]
  }

  function KeyOf(batch: BucketRecordBatch): BucketKey {
    BucketKey(batch.partitionID, batch.bucketID)
  }

  /** `chosen` is `batches` without those whose bucket is not in `keys`: `positions` are the places kept. */
  ghost predicate IsSubsequence(batches: seq<BucketRecordBatch>, keys: set<BucketKey>, chosen: seq<BucketRecordBatch>,
                                positions: seq<nat>) {
    && |positions| == |chosen|
    && Increasing(positions)
    && (forall i :: 0 <= i < |positions| ==> positions[i] < |batches| && batches[positions[i]] == chosen[i])
    && (forall n :: 0 <= n < |batches| ==> (KeyOf(batches[n]) in keys <==> n in positions))
  }

  lemma KeepLast(batches: seq<BucketRecordBatch>, keys: set<BucketKey>, chosen: seq<BucketRecordBatch>,
                 positions: seq<nat>, last: BucketRecordBatch)
    requires IsSubsequence(batches, keys, chosen, positions) && KeyOf(last) in keys
    ensures IsSubsequence(batches + [last], keys, chosen + [last], positions + [|batches|])
  {
    var longer := positions + [|batches|];
    assert longer[|positions|] == |batches|;
    forall n | 0 <= n < |batches| ensures n in longer <==> n in positions {
    }
  }

  lemma SkipLast(batches: seq<BucketRecordBatch>, keys: set<BucketKey>, chosen: seq<BucketRecordBatch>,
                 positions: seq<nat>, last: BucketRecordBatch)
    requires IsSubsequence(batches, keys, chosen, positions) && KeyOf(last) !in keys
    ensures IsSubsequence(batches + [last], keys, chosen, positions)
  {
    assert |batches| !in positions;
  }

  lemma {:induction false} SelectedPositions(batches: seq<BucketRecordBatch>, keys: set<BucketKey>)
    returns (positions: seq<nat>)
    ensures IsSubsequence(batches, keys, Selected(batches, keys), positions)
  {
    if batches == [] {
      positions := [];
    } else {
      var n := |batches| - 1;
      positions := SelectedPositions(batches[..n], keys);
      assert batches == batches[..n] + [batches[n]];
      hide IsSubsequence;
      if KeyOf(batches[n]) in keys {
        KeepLast(batches[..n], keys, Selected(batches[..n], keys), positions, batches[n]);
        positions := positions + [n];
      } else {
        SkipLast(batches[..n], keys, Selected(batches[..n], keys), positions, batches[n]);
      }
    }
  }

  /** The keys of a partial failure are those of the results that failed retryably. */
  lemma RetryableKeysOfResults(results: seq<BucketResult>, k: BucketKey)
    ensures k in RetryableKeys(Failures(results))
       <==> exists r :: r in results && r.Failed() && IsRetryable(r.Failure().err) && r.Key() == k
  {
    hide IsRetryable, Failures;
    if k in RetryableKeys(Failures(results)) {
      var f :| f in Failures(results) && IsRetryable(f.err) && f.Key() == k;
      FailuresComplete(results, f);
      var r :| r in results && r.Failed() && r.Failure() == f;
      assert r.Key() == k;
    }
    if r :| r in results && r.Failed() && IsRetryable(r.Failure().err) && r.Key() == k {
      FailuresComplete(results, r.Failure());
      assert r.Failure().Key() == k;
    }
  }

  lemma SameMembers(a: seq<BucketResult>, b: seq<BucketResult>)
    requires multiset(a) == multiset(b)
    ensures forall r :: r in a <==> r in b
  {
    assert forall r :: r in a <==> r in multiset(a);
    assert forall r :: r in b <==> r in multiset(b);
  }

  /** How the results of an attempt account for its error. */
  lemma AttemptErrors(reply: Reply, attempt: Attempt)
    requires Performed(reply, attempt)
    ensures attempt.error.None? ==> forall r :: r in attempt.results ==> !r.Failed()
    ensures attempt.error.Some? && attempt.error.value.Other? ==> attempt.results == []
    ensures attempt.error.Some? && attempt.error.value.Partial? ==>
              && (exists r :: r in attempt.results && r.Failed())
              && (forall r :: r in attempt.results && r.Failed() ==> r.Failure() in attempt.error.value.failures)
              && (forall k :: k in RetryableKeys(attempt.error.value.failures) <==> FailedRetryably(attempt, k))
  {
    var raw := Outcome(reply).0;
    SameMembers(raw, attempt.results);
    if reply.Sent? {
      CollectedErrors(reply.replies, []);
      hide Collect, IsRetryable, RetryableKeys;
      forall r | r in raw && r.Failed() ensures r.Failure() in Failures(raw) {
        FailuresComplete(raw, r.Failure());
      }
      if attempt.error.Some? && attempt.error.value.Partial? {
        var f := attempt.error.value.failures[0];
        FailuresComplete(raw, f);
        forall k ensures k in RetryableKeys(attempt.error.value.failures) <==> FailedRetryably(attempt, k) {
          RetryableKeysOfResults(raw, k);
        }
      }
    }
  }

  predicate FailedRetryably(attempt: Attempt, k: BucketKey) {
    exists r :: r in attempt.results && r.Failed() && IsRetryable(r.Failure().err) && r.Key() == k
  }

  // ---------- the main rules ----------

  /**
   At most two sends. A second one follows a failed first one only: either no bucket was answered and everything goes
   out again, or every failure was retryable and exactly the batches of the failed buckets go out, in their order.
   */
  lemma RetryDiscipline(server: Server, refreshed: bool, buckets: seq<BucketRecordBatch>, attempts: seq<Attempt>)
    returns (positions: seq<nat>)
    requires IsWrite(server, refreshed, buckets, attempts)
    ensures 1 <= |attempts| <= 2 && attempts[0].sent == buckets
    ensures |attempts| == 2 ==> attempts[0].error.Some?
    ensures |attempts| == 2 && attempts[0].error.value.Other? ==>
              attempts[0].results == [] && attempts[1].sent == buckets
    ensures |attempts| == 2 && attempts[0].error.value.Partial? ==>
              && (forall r :: r in attempts[0].results && r.Failed() ==> IsRetryable(r.Failure().err))
              && |attempts[1].sent| == |positions| > 0
              && Increasing(positions)
              && (forall i :: 0 <= i < |positions| ==>
                    positions[i] < |buckets| && attempts[1].sent[i] == buckets[positions[i]])
              && (forall n :: 0 <= n < |buckets| ==>
                    (n in positions <==> FailedRetryably(attempts[0], KeyOf(buckets[n]))))
  {
    hide Outcome, IsRetryable, RetryableKeys, Terminal, Selected;
    positions := [];
    AttemptErrors(server(0, buckets), attempts[0]);
    if |attempts| == 2 && attempts[0].error.value.Partial? {
      var failures := attempts[0].error.value.failures;
      forall r | r in attempts[0].results && r.Failed() ensures IsRetryable(r.Failure().err) {
        TerminalComplete(failures, r.Failure());
      }
      positions := SelectedPositions(buckets, RetryableKeys(failures));
    }
  }

  /** An attempt after which the write goes on or ends with a nil error: whatever failed is retryable. */
  predicate OnlyRetryable(attempt: Attempt) {
    forall r :: r in attempt.results && r.Failed() ==> IsRetryable(r.Failure().err)
  }

  lemma NoTerminalLeft(reply: Reply, attempt: Attempt)
    requires Performed(reply, attempt)
    requires WantsRetry(attempt) || FinalError([attempt]) == None
    ensures OnlyRetryable(attempt)
  {
    hide Outcome, IsRetryable, RetryableKeys, Terminal;
    AttemptErrors(reply, attempt);
    forall r | r in attempt.results && r.Failed() ensures IsRetryable(r.Failure().err) {
      TerminalComplete(attempt.error.value.failures, r.Failure());
    }
  }

  /** A nil error: no bucket's last answer is a failure that a retry could not cure. */
  lemma NilErrorHidesNoTerminalFailure(server: Server, refreshed: bool, buckets: seq<BucketRecordBatch>,
                                       attempts: seq<Attempt>, k: BucketKey)
    requires IsWrite(server, refreshed, buckets, attempts) && FinalError(attempts) == None
    requires k in Merged(attempts) && Merged(attempts)[k].Failed()
    ensures IsRetryable(Merged(attempts)[k].Failure().err)
  {
    hide Outcome, IsRetryable, WantsRetry, ByBucket;
    MergedOfTwo(attempts);
    var last := attempts[|attempts| - 1];
    NoTerminalLeft(server(|attempts| - 1, last.sent), last);
    NoTerminalLeftFirst(server, refreshed, buckets, attempts);
    ByBucketMembers(last.results, k);
    ByBucketMembers(attempts[0].results, k);
  }

  lemma NoTerminalLeftFirst(server: Server, refreshed: bool, buckets: seq<BucketRecordBatch>, attempts: seq<Attempt>)
    requires IsWrite(server, refreshed, buckets, attempts) && FinalError(attempts) == None
    ensures OnlyRetryable(attempts[0])
  {
    hide Outcome, IsRetryable, WantsRetry, OnlyRetryable;
    NoTerminalLeft(server(0, buckets), attempts[0]);
  }

  /** Merging any number of attempts keeps, for each bucket, what the last attempt to mention it said last. */
  lemma {:induction false} LastResponseWins(attempts: seq<Attempt>, k: BucketKey, r: BucketResult)
    ensures (k in Merged(attempts) && Merged(attempts)[k] == r)
       <==> exists i :: 0 <= i < |attempts| && DecidedBy(attempts, i, k, r)
  {
    if attempts != [] {
      hide ByBucket;
      var n := |attempts| - 1;
      LastResponseWins(attempts[..n], k, r);
      if k in ByBucket(attempts[n].results) {
        assert DecidedBy(attempts, n, k, ByBucket(attempts[n].results)[k]);
      } else {
        assert forall i :: 0 <= i < n ==> DecidedBy(attempts, i, k, r) == DecidedBy(attempts[..n], i, k, r);
      }
    }
  }

  predicate DecidedBy(attempts: seq<Attempt>, i: nat, k: BucketKey, r: BucketResult)
    requires i < |attempts|
  {
    && k in ByBucket(attempts[i].results)
    && ByBucket(attempts[i].results)[k] == r
    && forall j :: i < j < |attempts| ==> k !in ByBucket(attempts[j].results)
  }

  lemma MergedOfTwo(attempts: seq<Attempt>)
    requires 1 <= |attempts| <= 2
    ensures |attempts| == 1 ==> Merged(attempts) == ByBucket(attempts[0].results)
    ensures |attempts| == 2 ==> Merged(attempts) == ByBucket(attempts[0].results) + ByBucket(attempts[1].results)
  {
    hide ByBucket;
    assert Merged([]) == map[];
    assert Merged([attempts[0]]) == ByBucket(attempts[0].results) by {
      assert [attempts[0]][..0] == [];
    }
    if |attempts| == 1 {
      assert attempts == [attempts[0]];
    } else {
      assert attempts[..1] == [attempts[0]];
    }
  }

  ghost predicate NoneFailed(answers: map<BucketKey, BucketResult>) {
    forall k :: k in answers ==> !answers[k].Failed()
  }

  predicate AllSucceeded(results: seq<BucketResult>) {
    forall r :: r in results ==> !r.Failed()
  }

  /** `second` mentions again every bucket whose last answer in `first` is a failure. */
  ghost predicate AnswersFailures(first: map<BucketKey, BucketResult>, second: map<BucketKey, BucketResult>) {
    forall k :: k in first && first[k].Failed() ==> k in second
  }

  /**
   A nil error need not mean success, for any server: it does exactly if no bucket's last answer in the last attempt is
   a failure and that attempt answered again for every bucket left failed by the first. An attempt without an error
   leaves no such failure, and for a server that answers a bucket at most once an attempt this is the only way.
   */
  lemma NilErrorMeansSuccessExactly(server: Server, refreshed: bool, buckets: seq<BucketRecordBatch>,
                                    attempts: seq<Attempt>)
    requires IsWrite(server, refreshed, buckets, attempts) && FinalError(attempts) == None
    ensures
      var last := attempts[|attempts| - 1];
      NoneFailed(Merged(attempts))
      <==> && NoneFailed(ByBucket(last.results))
           && (|attempts| == 2 ==> AnswersFailures(ByBucket(attempts[0].results), ByBucket(last.results)))
    ensures
      var last := attempts[|attempts| - 1];
      && (last.error == None ==> NoneFailed(ByBucket(last.results)))
      && (NoneFailed(ByBucket(last.results)) && UniqueBuckets(last.results) ==> last.error == None)
  {
    var last := attempts[|attempts| - 1];
    assert Performed(server(|attempts| - 1, last.sent), last);
    MergedOfTwo(attempts);
    hide IsWrite, Performed, ByBucket, UniqueBuckets, Merged, NoneFailed, AnswersFailures;
    NoErrorMeansSuccess(server(|attempts| - 1, last.sent), last);
    NoneFailedIff(last.results);
    if |attempts| == 2 {
      NoneFailedOfTwo(ByBucket(attempts[0].results), ByBucket(last.results));
    }
  }

  lemma NoErrorMeansSuccess(reply: Reply, attempt: Attempt)
    requires Performed(reply, attempt) && FinalError([attempt]) == None
    ensures attempt.error == None <==> AllSucceeded(attempt.results)
  {
    hide Outcome, IsRetryable, Terminal, RetryableKeys;
    AttemptErrors(reply, attempt);
  }

  lemma NoneFailedOfTwo(first: map<BucketKey, BucketResult>, second: map<BucketKey, BucketResult>)
    ensures NoneFailed(first + second) <==> NoneFailed(second) && AnswersFailures(first, second)
  {
    var all := first + second;
    assert forall k :: k in second ==> k in all && all[k] == second[k];
    assert forall k :: k in first && k !in second ==> k in all && all[k] == first[k];
  }

  lemma NoneFailedIff(results: seq<BucketResult>)
    ensures AllSucceeded(results) ==> NoneFailed(ByBucket(results))
    ensures NoneFailed(ByBucket(results)) && UniqueBuckets(results) ==> AllSucceeded(results)
  {
    hide ByBucket, UniqueBuckets;
    forall k | k in ByBucket(results) ensures ByBucket(results)[k] in results {
      ByBucketMembers(results, k);
    }
    if UniqueBuckets(results) {
      forall r | r in results ensures r.Key() in ByBucket(results) && ByBucket(results)[r.Key()] == r {
        UniqueByBucket(results, r);
      }
    }
  }

  /** The failing family is not empty: a leader that stays away is reported as success, with its failure inside. */
  lemma NilErrorCanHideFailure(refreshed: bool) returns (server: Server, attempts: seq<Attempt>)
    ensures IsWrite(server, refreshed, [BucketRecordBatch(None, 0, [])], attempts)
    ensures FinalError(attempts) == None
    ensures BucketKey(None, 0) in Merged(attempts) && Merged(attempts)[BucketKey(None, 0)].Failed()
  {
    var batch := BucketRecordBatch(None, 0, []);
    var item := ResponseItem(None, Some(0), None, Some(LEADER_NOT_AVAILABLE_CODE), None);
    var reply := Sent([Answer([item])]);
    server := (i, sent) => reply;
    var r := BucketResult(None, 0, 0, Some(LEADER_NOT_AVAILABLE_CODE), None);
    var attempt := Attempt([batch], [r], Some(Partial([r.Failure()])));
    OneRetryableFailure(reply, attempt, batch, item, r);
    hide Outcome, Resent, WantsRetry, ByBucket;
    attempts := if refreshed then [attempt, attempt] else [attempt];
    MergedOfTwo(attempts);
  }

  lemma OneRetryableFailure(reply: Reply, attempt: Attempt, batch: BucketRecordBatch, item: ResponseItem,
                            r: BucketResult)
    requires batch == BucketRecordBatch(None, 0, [])
    requires item == ResponseItem(None, Some(0), None, Some(LEADER_NOT_AVAILABLE_CODE), None)
    requires reply == Sent([Answer([item])])
    requires r == BucketResult(None, 0, 0, Some(LEADER_NOT_AVAILABLE_CODE), None)
    requires attempt == Attempt([batch], [r], Some(Partial([r.Failure()])))
    ensures Performed(reply, attempt) && WantsRetry(attempt) && Resent(attempt) == [batch]
    ensures FinalError([attempt]) == None
    ensures ByBucket(attempt.results) == map[BucketKey(None, 0) := r]
  {
    var f := r.Failure();
    assert IsRetryable(f.err);
    hide IsRetryable;
    assert Parsed([item]) == [r];
    assert [] + [r] == [r];
    assert [Answer([item])][1..] == [];
    assert [r][..0] == [] && Failures([r]) == [f];
    assert Outcome(reply) == Collect([], [r]);
    assert [f][..0] == [] && Terminal([f]) == [];
    assert f in [f] && f.Key() in RetryableKeys([f]);
    assert [batch][..0] == [] && KeyOf(batch) == f.Key();
    assert Selected([batch], RetryableKeys([f])) == [batch];
  }
}

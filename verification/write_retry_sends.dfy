/** When a write is sent again, error by error: the answers that lead to a second attempt, and that all others do not. */
module WriteRetrySends {
  import opened Batches
  import opened BucketResults
  import opened Bytes
  import opened Decimals
  import opened Results
  import opened WriteRetry
  import opened WriteRetryRules

  // ---------- errors that a fresh route may cure ----------

  /** `part` stands somewhere in `s`. */
  predicate Occurs(part: string, s: string) {
    exists i :: 0 <= i <= |s| - |part| && s[i..][..|part|] == part
  }

  predicate RouteText(s: string) {
    Occurs("fluss: no route for table=", s) || Occurs("fluss: leader ", s)
  }

  /** Code 44 of the protocol, ErrLeaderNotAvailable, or a message about a missing route or leader. */
  predicate Curable(e: GoError) {
    if e.APIError? then e.code == 44 || RouteText(e.message) else e.leaderNotAvailable || RouteText(e.text)
  }

  lemma {:induction false} ContainsExactly(s: string, part: string)
    ensures Contains(s, part) <==> Occurs(part, s)
  {
    if part <= s {
      assert s[0..] == s && s[0..][..|part|] == part;
    }
    if |part| < |s| {
      ContainsExactly(s[1..], part);
      if i :| 0 <= i <= |s[1..]| - |part| && s[1..][i..][..|part|] == part {
        assert s[1..][i..] == s[i + 1..];
        assert s[i + 1..][..|part|] == part;
      }
      if i :| 0 < i <= |s| - |part| && s[i..][..|part|] == part {
        assert s[1..][i - 1..] == s[i..];
        assert s[1..][i - 1..][..|part|] == part;
      }
    }
    if i :| 0 <= i <= |s| - |part| && s[i..][..|part|] == part && i == 0 {
      assert s[0..] == s;
    }
  }

  lemma ItoaChars(n: int)
    ensures forall i :: 0 <= i < |Itoa(n)| ==> IsDigit(Itoa(n)[i]) || Itoa(n)[i] == '-'
  {
    hide Digits;
    var digits := Digits(if n < 0 then -n else n);
    assert forall i :: 0 <= i < |digits| ==> IsDigit(digits[i]);
  }

  /** Text in front of a message adds no occurrence, if whatever starts there breaks off within it. */
  lemma OccursBehind(front: string, message: string, part: string)
    requires |part| > 5
    requires forall i :: 0 <= i < |front| && front[i] == part[0] ==> i + 5 < |front| && front[i + 5] != part[5]
    ensures Occurs(part, front + message) <==> Occurs(part, message)
  {
    var all := front + message;
    if i :| 0 <= i <= |all| - |part| && all[i..][..|part|] == part {
      assert part[0] == all[i..][0] == all[i] && part[5] == all[i..][5] == all[i + 5];
      assert i >= |front|;
      assert message[i - |front|..] == all[i..];
      assert message[i - |front|..][..|part|] == part;
    }
    if i :| 0 <= i <= |message| - |part| && message[i..][..|part|] == part {
      assert all[|front| + i..] == message[i..];
      assert all[|front| + i..][..|part|] == part;
    }
  }

  lemma CodeText(code: int32)
    ensures
      var front := "fluss API error code=" + Itoa(code);
      forall i :: 0 <= i < |front| && front[i] == 'f' ==> i == 0
    ensures ("fluss API error code=" + Itoa(code))[5] == ' '
  {
    ItoaChars(code);
    hide Itoa;
  }

  lemma MessageDecides(code: int32, message: string, part: string)
    requires |part| > 5 && part[0] == 'f' && part[5] == ':'
    ensures Contains(ErrorText(APIError(code, message)), part) <==> Occurs(part, message)
  {
    hide Itoa, Contains, Occurs;
    var front := "fluss API error code=" + Itoa(code);
    CodeText(code);
    ContainsExactly(ErrorText(APIError(code, message)), part);
    if message == "" {
      assert front + "" == front;
      OccursBehind(front, "", part);
    } else {
      var longer := front + ": ";
      assert longer[5] == front[5];
      assert ErrorText(APIError(code, message)) == longer + message;
      OccursBehind(longer, message, part);
    }
  }

  lemma CurableExactly(e: GoError)
    ensures IsRetryable(e) <==> Curable(e)
  {
    hide Contains, Occurs, Itoa, ErrorText;
    if e.APIError? {
      MessageDecides(e.code, e.message, "fluss: no route for table=");
      MessageDecides(e.code, e.message, "fluss: leader ");
    } else {
      OtherText(e);
      ContainsExactly(e.text, "fluss: no route for table=");
      ContainsExactly(e.text, "fluss: leader ");
    }
  }

  lemma OtherText(e: GoError)
    requires e.OtherError?
    ensures ErrorText(e) == e.text
  {
  }

  // ---------- when there is a second attempt ----------

  /** The result of a bucket that failed, with an error that a fresh route may cure. */
  predicate FailedCurably(r: BucketResult) {
    r.errorCode.Some? && r.errorCode.value != 0
    && Curable(APIError(r.errorCode.value, if r.errorMessage.Some? then r.errorMessage.value else ""))
  }

  predicate FailedAtAll(r: BucketResult) {
    r.errorCode.Some? && r.errorCode.value != 0
  }

  /** Some batch is for a bucket that failed. */
  predicate SomeFailedBatch(buckets: seq<BucketRecordBatch>, results: seq<BucketResult>) {
    exists n, r :: 0 <= n < |buckets| && r in results && FailedAtAll(r)
                   && r.partitionID == buckets[n].partitionID && r.bucketID == buckets[n].bucketID
  }

  lemma FailedExactly(r: BucketResult)
    ensures r.Failed() <==> FailedAtAll(r)
    ensures FailedCurably(r) <==> r.Failed() && IsRetryable(r.Failure().err)
  {
    hide IsRetryable, Curable;
    if r.Failed() {
      CurableExactly(r.Failure().err);
    }
  }

  /** A first attempt that was answered is followed by a second one exactly in these cases. */
  lemma AnsweredWantsRetry(reply: Reply, first: Attempt)
    requires Performed(reply, first) && first.error.Some? && first.error.value.Partial?
    ensures WantsRetry(first)
       <==> && (forall r :: r in first.results && FailedAtAll(r) ==> FailedCurably(r))
            && SomeFailedBatch(first.sent, first.results)
  {
    hide Outcome, IsRetryable, Curable, FailedCurably, FailedAtAll, RetryableKeys, Terminal, Selected;
    AttemptErrors(reply, first);
    forall r: BucketResult ensures r.Failed() <==> FailedAtAll(r)
      ensures FailedCurably(r) <==> r.Failed() && IsRetryable(r.Failure().err) {
      FailedExactly(r);
    }
    TerminalNone(reply, first);
    var failures := first.error.value.failures;
    var positions := SelectedPositions(first.sent, RetryableKeys(failures));
    if WantsRetry(first) {
      var n := positions[0];
      assert n in positions && KeyOf(first.sent[n]) in RetryableKeys(failures);
      assert FailedRetryably(first, KeyOf(first.sent[n]));
    }
    if (forall r :: r in first.results && FailedAtAll(r) ==> FailedCurably(r)) && SomeFailedBatch(first.sent, first.results) {
      var n, r :| 0 <= n < |first.sent| && r in first.results && FailedAtAll(r)
                  && r.partitionID == first.sent[n].partitionID && r.bucketID == first.sent[n].bucketID;
      assert r.Key() == KeyOf(first.sent[n]);
      assert FailedRetryably(first, KeyOf(first.sent[n]));
      assert KeyOf(first.sent[n]) in RetryableKeys(failures);
      assert n in positions;
    }
  }

  lemma TerminalNone(reply: Reply, first: Attempt)
    requires Performed(reply, first) && first.error.Some? && first.error.value.Partial?
    ensures Terminal(first.error.value.failures) == []
       <==> forall r :: r in first.results && r.Failed() ==> IsRetryable(r.Failure().err)
  {
    hide IsRetryable, Terminal, Collect;
    var raw, failures := Outcome(reply).0, first.error.value.failures;
    SameMembers(raw, first.results);
    CollectedErrors(reply.replies, []);
    forall f ensures f in failures <==> exists r :: r in raw && r.Failed() && r.Failure() == f {
      FailuresComplete(raw, f);
    }
    hide Failures;
    if Terminal(failures) != [] {
      var f := Terminal(failures)[0];
      TerminalComplete(failures, f);
    }
    forall r | r in first.results && r.Failed() && !IsRetryable(r.Failure().err) ensures Terminal(failures) != [] {
      TerminalComplete(failures, r.Failure());
    }
  }

  /**
   There is a second attempt if and only if the metadata refresh works and the first attempt failed curably: without
   any answer, by an error that a fresh route may cure; or by buckets all of which failed with such errors, at least one
   of them with a batch to send again. An unanswered attempt is repeated whole.
   */
  lemma SecondSendExactly(server: Server, refreshed: bool, buckets: seq<BucketRecordBatch>, attempts: seq<Attempt>)
    requires IsWrite(server, refreshed, buckets, attempts)
    ensures
      var first := attempts[0];
      && (first.error == None ==> |attempts| == 1)
      && (first.error.Some? && first.error.value.Other? ==>
            (|attempts| == 2 <==> refreshed && Curable(first.error.value.err)))
      && (first.error.Some? && first.error.value.Partial? ==>
            (|attempts| == 2
             <==> && refreshed
                  && (forall r :: r in first.results && FailedAtAll(r) ==> FailedCurably(r))
                  && SomeFailedBatch(buckets, first.results)))
    ensures |attempts| == 2 && attempts[0].error.value.Other? ==> attempts[1].sent == buckets
    ensures |attempts| in {1, 2}
  {
    hide Outcome, IsRetryable, Curable, FailedCurably, FailedAtAll, RetryableKeys, Terminal, Selected, SomeFailedBatch;
    var first := attempts[0];
    assert Performed(server(0, first.sent), first);
    if first.error.Some? {
      if first.error.value.Other? {
        CurableExactly(first.error.value.err);
      } else {
        AnsweredWantsRetry(server(0, buckets), first);
      }
    }
  }

  // ---------- what an attempt comes to ----------

  /** The items of all answers, one leader after the other. */
  function AllItems(replies: seq<LeaderReply>): seq<ResponseItem> {
    if replies == [] then []
    else (if replies[0].Answer? then replies[0].items else []) + AllItems(replies[1..])
  }

  /** Results item by item: what is absent on the wire is bucket 0, offset 0, no error. */
  ghost predicate ResultsOf(items: seq<ResponseItem>, results: seq<BucketResult>) {
    && |results| == |items|
    && forall i :: 0 <= i < |items| ==>
         && results[i].partitionID == items[i].partitionID
         && results[i].bucketID == (if items[i].bucketID.Some? then items[i].bucketID.value else 0)
         && results[i].offset == (if items[i].offset.Some? then items[i].offset.value else 0)
         && results[i].errorCode == items[i].errorCode && results[i].errorMessage == items[i].errorMessage
  }

  /** `failures` are the errors of the failed results, in their order; `positions` are their places. */
  ghost predicate FailuresAt(results: seq<BucketResult>, failures: seq<BucketWriteError>, positions: seq<nat>) {
    && |positions| == |failures| && Increasing(positions)
    && (forall n :: 0 <= n < |results| ==> (FailedAtAll(results[n]) <==> n in positions))
    && (forall i :: 0 <= i < |positions| ==> positions[i] < |results| && FailureOf(results[positions[i]], failures[i]))
  }

  predicate FailureOf(r: BucketResult, f: BucketWriteError) {
    && FailedAtAll(r) && f.partitionID == r.partitionID && f.bucketID == r.bucketID
    && f.err == APIError(r.errorCode.value, if r.errorMessage.Some? then r.errorMessage.value else "")
  }

  lemma FailureLast(results: seq<BucketResult>, failures: seq<BucketWriteError>, positions: seq<nat>, r: BucketResult,
                    f: BucketWriteError)
    requires FailuresAt(results, failures, positions) && FailureOf(r, f)
    ensures FailuresAt(results + [r], failures + [f], positions + [|results|])
  {
    hide FailedAtAll;
    var more, later, all := positions + [|results|], failures + [f], results + [r];
    assert FailedAtAll(r);
    hide FailureOf;
    forall i | 0 <= i < |more| ensures more[i] < |all| && FailureOf(all[more[i]], later[i]) {
      if i < |positions| {
        assert more[i] == positions[i];
      }
    }
    assert more[|positions|] == |results|;
    forall n | 0 <= n < |results| ensures n in more <==> n in positions {
    }
  }

  lemma NoFailureLast(results: seq<BucketResult>, failures: seq<BucketWriteError>, positions: seq<nat>, r: BucketResult)
    requires FailuresAt(results, failures, positions) && !FailedAtAll(r)
    ensures FailuresAt(results + [r], failures, positions)
  {
    hide FailedAtAll, FailureOf;
    assert |results| !in positions;
  }

  lemma {:induction false} FailuresInOrder(results: seq<BucketResult>) returns (positions: seq<nat>)
    ensures FailuresAt(results, Failures(results), positions)
  {
    if results == [] {
      positions := [];
    } else {
      var n := |results| - 1;
      var r := results[n];
      assert results == results[..n] + [r];
      positions := FailuresInOrder(results[..n]);
      FailedExactly(r);
      hide FailuresAt, FailedCurably, IsRetryable;
      if r.Failed() {
        assert FailureOf(r, r.Failure());
        FailureLast(results[..n], Failures(results[..n]), positions, r, r.Failure());
        positions := positions + [n];
      } else {
        NoFailureLast(results[..n], Failures(results[..n]), positions, r);
      }
    }
  }

  lemma {:induction false} CollectAnswers(replies: seq<LeaderReply>, items: seq<ResponseItem>, sofar: seq<BucketResult>)
    requires (forall i :: 0 <= i < |replies| ==> replies[i].Answer?) && ResultsOf(items, sofar)
    ensures
      var (results, error) := Collect(replies, sofar);
      && ResultsOf(items + AllItems(replies), results)
      && error == (if Failures(results) == [] then None else Some(Partial(Failures(results))))
  {
    hide Failures;
    if replies == [] {
      assert items + [] == items;
    } else {
      hide ResultsOf;
      ResultsAppended(items, sofar, replies[0].items);
      CollectAnswers(replies[1..], items + replies[0].items, sofar + Parsed(replies[0].items));
      assert items + AllItems(replies) == items + replies[0].items + AllItems(replies[1..]);
    }
  }

  lemma ResultsAppended(items: seq<ResponseItem>, sofar: seq<BucketResult>, more: seq<ResponseItem>)
    requires ResultsOf(items, sofar)
    ensures ResultsOf(items + more, sofar + Parsed(more))
  {
  }

  /** Every leader answers: results for all items in order, and an error if and only if one of them has a code. */
  lemma AnsweredOutcome(replies: seq<LeaderReply>) returns (positions: seq<nat>)
    requires forall i :: 0 <= i < |replies| ==> replies[i].Answer?
    ensures
      var (results, error) := Outcome(Sent(replies));
      && ResultsOf(AllItems(replies), results)
      && (positions == [] <==> error == None)
      && (error.Some? ==> error.value.Partial? && FailuresAt(results, error.value.failures, positions))
      && (error.None? ==> FailuresAt(results, [], positions))
  {
    hide Failures, ResultsOf, FailuresAt, Collect;
    NoResults();
    CollectAnswers(replies, [], []);
    assert [] + AllItems(replies) == AllItems(replies);
    positions := FailuresInOrder(Outcome(Sent(replies)).0);
    SameNumber(Outcome(Sent(replies)).0, Failures(Outcome(Sent(replies)).0), positions);
  }

  lemma NoResults()
    ensures ResultsOf([], [])
  {
  }

  lemma SameNumber(results: seq<BucketResult>, failures: seq<BucketWriteError>, positions: seq<nat>)
    requires FailuresAt(results, failures, positions)
    ensures positions == [] <==> failures == []
  {
  }

  /** A leader that cannot be reached: its error, and no results whatever the others said. */
  lemma {:induction false} UnreachedOutcome(replies: seq<LeaderReply>, at: nat, sofar: seq<BucketResult>)
    requires at < |replies| && replies[at].CallFailed? && forall i :: 0 <= i < at ==> replies[i].Answer?
    ensures Collect(replies, sofar) == ([], Some(Other(replies[at].err)))
  {
    hide Failures;
    if at > 0 {
      UnreachedOutcome(replies[1..], at - 1, sofar + Parsed(replies[0].items));
    }
  }

  /** The error of an attempt, for everything the network may do. */
  lemma OutcomeExactly(reply: Reply)
    ensures reply.Unsent? ==> Outcome(reply) == ([], Some(Other(reply.err)))
    ensures reply.Sent? ==>
              forall at :: 0 <= at < |reply.replies| && reply.replies[at].CallFailed?
                           && (forall i :: 0 <= i < at ==> reply.replies[i].Answer?) ==>
                Outcome(reply) == ([], Some(Other(reply.replies[at].err)))
  {
    hide Collect;
    if reply.Sent? {
      forall at | 0 <= at < |reply.replies| && reply.replies[at].CallFailed?
                  && (forall i :: 0 <= i < at ==> reply.replies[i].Answer?)
        ensures Outcome(reply) == ([], Some(Other(reply.replies[at].err)))
      {
        UnreachedOutcome(reply.replies, at, []);
      }
    }
  }

  // ---------- what the caller gets ----------

  /** The failures that no fresh route cures, in their order. */
  ghost predicate LeftOver(failures: seq<BucketWriteError>, kept: seq<BucketWriteError>, positions: seq<nat>) {
    && |positions| == |kept| && Increasing(positions)
    && (forall n :: 0 <= n < |failures| ==> (!Curable(failures[n].err) <==> n in positions))
    && (forall i :: 0 <= i < |positions| ==> positions[i] < |failures| && kept[i] == failures[positions[i]])
  }

  lemma LeftOverLast(failures: seq<BucketWriteError>, kept: seq<BucketWriteError>, positions: seq<nat>,
                     f: BucketWriteError)
    requires LeftOver(failures, kept, positions)
    ensures if Curable(f.err) then LeftOver(failures + [f], kept, positions)
            else LeftOver(failures + [f], kept + [f], positions + [|failures|])
  {
    hide Curable;
    var more := positions + [|failures|];
    assert more[|positions|] == |failures|;
    assert |failures| !in positions;
    forall n | 0 <= n < |failures| ensures n in more <==> n in positions {
    }
  }

  lemma {:induction false} TerminalInOrder(failures: seq<BucketWriteError>) returns (positions: seq<nat>)
    ensures LeftOver(failures, Terminal(failures), positions)
  {
    hide IsRetryable, Curable;
    if failures == [] {
      positions := [];
    } else {
      var n := |failures| - 1;
      var f := failures[n];
      assert failures == failures[..n] + [f];
      positions := TerminalInOrder(failures[..n]);
      CurableExactly(f.err);
      LeftOverLast(failures[..n], Terminal(failures[..n]), positions, f);
      if !Curable(f.err) {
        positions := positions + [n];
      }
    }
  }

  /**
   The error of a write is that of its last attempt; of failed buckets it names those that no fresh route cures, in
   their order, and it is nil if there are none.
   */
  lemma FinalErrorExactly(attempts: seq<Attempt>) returns (positions: seq<nat>)
    requires attempts != []
    ensures
      var last, error := attempts[|attempts| - 1].error, FinalError(attempts);
      if last.None? || last.value.Other? then error == last
      else
        && (error == None <==> forall f :: f in last.value.failures ==> Curable(f.err))
        && (error != None ==> error.value.Partial? && LeftOver(last.value.failures, error.value.failures, positions))
  {
    hide Curable, IsRetryable, Terminal;
    var last := attempts[|attempts| - 1].error;
    positions := [];
    if last.Some? && last.value.Partial? {
      positions := TerminalInOrder(last.value.failures);
      forall f ensures f in Terminal(last.value.failures) <==> f in last.value.failures && !Curable(f.err) {
        TerminalComplete(last.value.failures, f);
        CurableExactly(f.err);
      }
      if Terminal(last.value.failures) != [] {
        assert Terminal(last.value.failures)[0] in Terminal(last.value.failures);
      }
    }
  }

  /** Of several answers about one bucket the last one counts. */
  lemma {:induction false} ByBucketLast(results: seq<BucketResult>, i: nat)
    requires i < |results|
    requires forall j :: i < j < |results| ==>
               results[j].partitionID != results[i].partitionID || results[j].bucketID != results[i].bucketID
    ensures
      var k := BucketKey(results[i].partitionID, results[i].bucketID);
      k in ByBucket(results) && ByBucket(results)[k] == results[i]
  {
    var n := |results| - 1;
    if i < n {
      ByBucketLast(results[..n], i);
    }
  }
}

/**
 What a server says about the buckets of one write: parsing its answer into results and failures, telling retryable
 failures from terminal ones, and merging the answers of several attempts. Produce and put requests are answered in
 the same shape, so ProduceResult and PutResult are one type here.
 */
module BucketResults {
  import opened Batches
  import opened Bytes
  import opened Decimals
  import opened Results

  datatype BucketKey = BucketKey(partitionID: Option<int64>, bucketID: int32)

  datatype BucketResult = BucketResult(partitionID: Option<int64>, bucketID: int32, offset: int64,
                                       errorCode: Option<int32>, errorMessage: Option<string>)
  {
    function Key(): BucketKey {
      BucketKey(partitionID, bucketID)
    }

    function Code(): int32 {
      if errorCode.Some? then errorCode.value else 0
    }

    predicate Failed() {
      Code() != 0
    }

    function Failure(): BucketWriteError
      requires Failed()
    {
      BucketWriteError(partitionID, bucketID, APIError(Code(), if errorMessage.Some? then errorMessage.value else ""))
    }
  }

  /** `leaderNotAvailable` says whether ErrLeaderNotAvailable is in the chain of a wrapped error. */
  datatype GoError = APIError(code: int32, message: string) | OtherError(text: string, leaderNotAvailable: bool)

  datatype BucketWriteError = BucketWriteError(partitionID: Option<int64>, bucketID: int32, err: GoError) {
    function Key(): BucketKey {
      BucketKey(partitionID, bucketID)
    }
  }

  // ---------- bucketFailureKey ----------

  function BucketFailureKey(partitionID: Option<int64>, bucketID: int32): string {
    (if partitionID.None? then "nil" else Itoa(partitionID.value)) + "/" + Itoa(bucketID)
  }

  lemma SplitAtSlash(a: string, b: string, c: string, d: string)
    requires '/' !in a && '/' !in c && a + "/" + b == c + "/" + d
    ensures a == c && b == d
  {
    var left, right := a + "/" + b, c + "/" + d;
    assert left[|a|] == '/' && right[|c|] == '/';
    assert left[..|a|] == a && right[..|c|] == c;
    assert left[|a| + 1..] == b && right[|c| + 1..] == d;
  }

  lemma BucketFailureKeyInjective(p: Option<int64>, b: int32, q: Option<int64>, c: int32)
    ensures BucketFailureKey(p, b) == BucketFailureKey(q, c) <==> p == q && b == c
  {
    hide Itoa;
    if BucketFailureKey(p, b) == BucketFailureKey(q, c) {
      var left, right := if p.None? then "nil" else Itoa(p.value), if q.None? then "nil" else Itoa(q.value);
      SplitAtSlash(left, Itoa(b), right, Itoa(c));
      ItoaInjective(b, c);
      if p.Some? && q.Some? {
        ItoaInjective(p.value, q.value);
      }
    }
  }

  function KeyText(k: BucketKey): string {
    BucketFailureKey(k.partitionID, k.bucketID)
  }

  // ---------- retryable failures ----------

  function ErrorText(e: GoError): string {
    match e
    case APIError(code, "") => "fluss API error code=" + Itoa(code)
    case APIError(code, message) => "fluss API error code=" + Itoa(code) + ": " + message
    case OtherError(text, _) => text
  }

  predicate Contains(s: string, part: string) {
    |part| <= |s| && (part <= s || (s != [] && Contains(s[1..], part)))
  }

  const LEADER_NOT_AVAILABLE_CODE: int32 := 44

  predicate IsRetryable(e: GoError) {
    || (e.APIError? && e.code == LEADER_NOT_AVAILABLE_CODE)
    || (e.OtherError? && e.leaderNotAvailable)
    || Contains(ErrorText(e), "fluss: no route for table=")
    || Contains(ErrorText(e), "fluss: leader ")
  }

  /** The failures that are not retryable, in order. */
  function Terminal(failures: seq<BucketWriteError>): seq<BucketWriteError> {
    if failures == [] then []
    else
      var rest, last := Terminal(failures[..|failures| - 1]), failures[|failures| - 1];
      if IsRetryable(last.err) then rest else rest + [last]
  }

  function RetryableKeys(failures: seq<BucketWriteError>): set<BucketKey> {
    set f | f in failures && IsRetryable(f.err) :: f.Key()
  }

  /** The batches for the buckets in `keys`, in their original order. */
  function Selected(batches: seq<BucketRecordBatch>, keys: set<BucketKey>): seq<BucketRecordBatch> {
    if batches == [] then []
    else
      var rest, last := Selected(batches[..|batches| - 1], keys), batches[|batches| - 1];
      if BucketKey(last.partitionID, last.bucketID) in keys then rest + [last] else rest
  }

  /** The last retryable failure of each bucket. */
  function RetryableByKey(failures: seq<BucketWriteError>): map<BucketKey, BucketWriteError> {
    if failures == [] then map[]
    else
      var rest, last := RetryableByKey(failures[..|failures| - 1]), failures[|failures| - 1];
      if IsRetryable(last.err) then rest[last.Key() := last] else rest
  }

  lemma {:induction false} RetryableByKeyKeys(failures: seq<BucketWriteError>)
    ensures RetryableByKey(failures).Keys == RetryableKeys(failures)
  {
    hide IsRetryable;
    if failures != [] {
      var n := |failures| - 1;
      assert failures == failures[..n] + [failures[n]];
      RetryableByKeyKeys(failures[..n]);
    }
  }

  /** `byText` is `byKey`, with the texts of the keys for the keys. */
  ghost predicate KeyedByText<T>(byText: map<string, T>, byKey: map<BucketKey, T>) {
    && (forall k :: k in byKey ==> KeyText(k) in byText && byText[KeyText(k)] == byKey[k])
    && (forall text :: text in byText ==> exists k :: k in byKey && KeyText(k) == text)
  }

  lemma PutText<T>(byText: map<string, T>, byKey: map<BucketKey, T>, k: BucketKey, x: T)
    requires KeyedByText(byText, byKey)
    ensures KeyedByText(byText[KeyText(k) := x], byKey[k := x])
  {
    hide BucketFailureKey;
    forall j | j in byKey && j != k ensures KeyText(j) != KeyText(k) {
      BucketFailureKeyInjective(j.partitionID, j.bucketID, k.partitionID, k.bucketID);
    }
    var more, moreKeys := byText[KeyText(k) := x], byKey[k := x];
    forall text | text in more ensures exists j :: j in moreKeys && KeyText(j) == text {
      if text == KeyText(k) {
        assert k in moreKeys;
      } else {
        var j :| j in byKey && KeyText(j) == text;
        assert j in moreKeys;
      }
    }
  }

  lemma TextIsKey<T>(byText: map<string, T>, byKey: map<BucketKey, T>)
    requires KeyedByText(byText, byKey)
    ensures forall k :: KeyText(k) in byText <==> k in byKey
    ensures byText == map[] <==> byKey == map[]
  {
    hide BucketFailureKey;
    forall k | KeyText(k) in byText ensures k in byKey {
      var j :| j in byKey && KeyText(j) == KeyText(k);
      BucketFailureKeyInjective(j.partitionID, j.bucketID, k.partitionID, k.bucketID);
    }
    if byKey != map[] {
      var k :| k in byKey;
      assert KeyText(k) in byText;
    }
    if byText != map[] {
      var text :| text in byText;
      var k :| k in byKey && KeyText(k) == text;
      assert byKey != map[];
    }
  }

  method SplitBucketWriteFailures(failures: seq<BucketWriteError>)
    returns (retryable: map<string, BucketWriteError>, terminal: seq<BucketWriteError>)
    ensures terminal == Terminal(failures)
    ensures KeyedByText(retryable, RetryableByKey(failures))
    ensures forall k :: KeyText(k) in retryable <==> k in RetryableKeys(failures)
    ensures retryable == map[] <==> RetryableKeys(failures) == {}
    ensures |retryable| + |terminal| <= |failures|
  {
    hide IsRetryable, BucketFailureKey, KeyedByText;
    retryable, terminal := map[], [];
    assert KeyedByText(retryable, RetryableByKey(failures[..0])) by {
      NoTexts<BucketWriteError>();
    }
    for i := 0 to |failures|
      invariant terminal == Terminal(failures[..i]) && |retryable| + |terminal| <= i
      invariant KeyedByText(retryable, RetryableByKey(failures[..i]))
    {
      var failure := failures[i];
      assert failures[..i + 1][..i] == failures[..i];
      if IsRetryable(failure.err) {
        PutText(retryable, RetryableByKey(failures[..i]), failure.Key(), failure);
        retryable := retryable[BucketFailureKey(failure.partitionID, failure.bucketID) := failure];
      } else {
        terminal := terminal + [failure];
      }
    }
    assert failures[..|failures|] == failures;
    RetryableByKeyKeys(failures);
    TextIsKey(retryable, RetryableByKey(failures));
  }

  lemma NoTexts<T>()
    ensures KeyedByText<T>(map[], map[])
  {
  }

  method FilterBatchesByFailure(batches: seq<BucketRecordBatch>, failures: map<string, BucketWriteError>,
                                ghost keys: set<BucketKey>)
    returns (filtered: seq<BucketRecordBatch>)
    requires forall k :: KeyText(k) in failures <==> k in keys
    ensures filtered == Selected(batches, keys)
  {
    hide BucketFailureKey;
    filtered := [];
    for i := 0 to |batches|
      invariant filtered == Selected(batches[..i], keys)
    {
      var batch := batches[i];
      assert batches[..i + 1] == batches[..i] + [batch];
      assert KeyText(BucketKey(batch.partitionID, batch.bucketID)) in failures
        <==> BucketKey(batch.partitionID, batch.bucketID) in keys;
      if BucketFailureKey(batch.partitionID, batch.bucketID) in failures {
        filtered := filtered + [batch];
      }
    }
    assert batches[..|batches|] == batches;
  }

  // ---------- parsing an answer ----------

  /** One bucket of a response as received: every field is optional on the wire. */
  datatype ResponseItem = ResponseItem(partitionID: Option<int64>, bucketID: Option<int32>, offset: Option<int64>,
                                       errorCode: Option<int32>, errorMessage: Option<string>)

  function ParsedItem(item: ResponseItem): BucketResult {
    BucketResult(item.partitionID, if item.bucketID.Some? then item.bucketID.value else 0,
                 if item.offset.Some? then item.offset.value else 0, item.errorCode, item.errorMessage)
  }

  function Parsed(items: seq<ResponseItem>): seq<BucketResult> {
    seq(|items|, i requires 0 <= i < |items| => ParsedItem(items[i]))
  }

  /** One failure for each result that carries an error code, in order. */
  function Failures(results: seq<BucketResult>): seq<BucketWriteError> {
    if results == [] then []
    else
      var rest, last := Failures(results[..|results| - 1]), results[|results| - 1];
      if last.Failed() then rest + [last.Failure()] else rest
  }

  method ParseResults(items: seq<ResponseItem>)
    returns (out: seq<BucketResult>, failures: seq<BucketWriteError>)
    ensures out == Parsed(items) && failures == Failures(out)
  {
    out, failures := [], [];
    for i := 0 to |items|
      invariant out == Parsed(items)[..i] && failures == Failures(out)
    {
      var item := items[i];
      var result := BucketResult(item.partitionID, 0, 0, None, None);
      if item.bucketID.Some? {
        result := result.(bucketID := item.bucketID.value);
      }
      if item.offset.Some? {
        result := result.(offset := item.offset.value);
      }
      if item.errorCode.Some? {
        result := result.(errorCode := item.errorCode);
      }
      if item.errorMessage.Some? {
        result := result.(errorMessage := item.errorMessage);
      }
      var code := if item.errorCode.Some? then item.errorCode.value else 0;
      var message := if item.errorMessage.Some? then item.errorMessage.value else "";
      if code != 0 {
        failures := failures + [BucketWriteError(result.partitionID, result.bucketID, APIError(code, message))];
      }
      assert (out + [result])[..|out|] == out;
      out := out + [result];
    }
  }

  lemma {:induction false} FailuresOfConcat(a: seq<BucketResult>, b: seq<BucketResult>)
    ensures Failures(a + b) == Failures(a) + Failures(b)
  {
    if b == [] {
      assert a + b == a;
    } else {
      assert (a + b)[..|a + b| - 1] == a + b[..|b| - 1];
      FailuresOfConcat(a, b[..|b| - 1]);
    }
  }

  /** Every failed result, and nothing else, is reported as a failure. */
  lemma {:induction false} FailuresComplete(results: seq<BucketResult>, f: BucketWriteError)
    ensures f in Failures(results) <==> exists r :: r in results && r.Failed() && r.Failure() == f
  {
    if results != [] {
      FailuresComplete(results[..|results| - 1], f);
      var last := results[|results| - 1];
      assert results == results[..|results| - 1] + [last];
      if exists r :: r in results && r.Failed() && r.Failure() == f {
        var r :| r in results && r.Failed() && r.Failure() == f;
        assert r in results[..|results| - 1] || r == last;
      }
      if last.Failed() && last.Failure() == f {
        assert last in results;
      }
    }
  }

  lemma {:induction false} TerminalComplete(failures: seq<BucketWriteError>, f: BucketWriteError)
    ensures f in Terminal(failures) <==> f in failures && !IsRetryable(f.err)
  {
    hide IsRetryable;
    if failures != [] {
      TerminalComplete(failures[..|failures| - 1], f);
      assert failures == failures[..|failures| - 1] + [failures[|failures| - 1]];
    }
  }

  // ---------- merging ----------

  /** The last response of each bucket. */
  function ByBucket(results: seq<BucketResult>): map<BucketKey, BucketResult> {
    if results == [] then map[]
    else
      var last := results[|results| - 1];
      ByBucket(results[..|results| - 1])[last.Key() := last]
  }

  ghost predicate UniqueBuckets(results: seq<BucketResult>) {
    forall i, j :: 0 <= i < j < |results| ==> results[i].Key() != results[j].Key()
  }

  ghost predicate SortedByBucket(results: seq<BucketResult>) {
    forall i, j :: 0 <= i < j < |results| ==> results[i].bucketID <= results[j].bucketID
  }

  lemma {:induction false} ByBucketMembers(results: seq<BucketResult>, k: BucketKey)
    ensures k in ByBucket(results) ==> ByBucket(results)[k] in results && ByBucket(results)[k].Key() == k
    ensures (exists r :: r in results && r.Key() == k) ==> k in ByBucket(results)
  {
    if results != [] {
      var rest, last := results[..|results| - 1], results[|results| - 1];
      ByBucketMembers(rest, k);
      assert results == rest + [last];
    }
  }

  /** With one response a bucket, the list and the map say the same. */
  lemma {:induction false} UniqueByBucket(results: seq<BucketResult>, r: BucketResult)
    requires UniqueBuckets(results)
    ensures r in results <==> r.Key() in ByBucket(results) && ByBucket(results)[r.Key()] == r
  {
    ByBucketMembers(results, r.Key());
    if results != [] {
      var rest, last := results[..|results| - 1], results[|results| - 1];
      UniqueByBucket(rest, r);
      assert results == rest + [last];
    }
  }

  lemma CountAtTwo<T>(s: seq<T>, i: nat, j: nat)
    requires i < j < |s| && s[i] == s[j]
    ensures multiset(s)[s[i]] >= 2
  {
    assert s == s[..j] + [s[j]] + s[j + 1..];
    assert s[..j][i] == s[i];
  }

  lemma UniqueCountsOnce(s: seq<BucketResult>, i: nat)
    requires UniqueBuckets(s) && i < |s|
    ensures multiset(s)[s[i]] == 1
  {
    assert s == s[..i] + [s[i]] + s[i + 1..];
    assert s[i] !in s[..i];
    forall k | i < k < |s| ensures s[k] != s[i] {
      assert s[i].Key() != s[k].Key();
    }
    assert s[i] !in s[i + 1..];
  }

  /** Reordering a list with one response a bucket changes nothing but the order. */
  lemma ReorderingKeepsBuckets(a: seq<BucketResult>, b: seq<BucketResult>)
    requires UniqueBuckets(a) && multiset(a) == multiset(b)
    ensures UniqueBuckets(b) && ByBucket(a) == ByBucket(b)
  {
    hide ByBucket;
    assert forall r :: r in a <==> r in multiset(a);
    assert forall r :: r in b <==> r in multiset(b);
    forall i, j | 0 <= i < j < |b| ensures b[i].Key() != b[j].Key() {
      if b[i].Key() == b[j].Key() {
        assert b[i] in a && b[j] in a;
        var m, n :| 0 <= m < |a| && 0 <= n < |a| && a[m] == b[i] && a[n] == b[j];
        assert m == n;
        CountAtTwo(b, i, j);
        UniqueCountsOnce(a, m);
      }
    }
    forall k ensures k in ByBucket(a) <==> k in ByBucket(b) {
      ByBucketMembers(a, k);
      ByBucketMembers(b, k);
    }
    forall k | k in ByBucket(a) ensures ByBucket(a)[k] == ByBucket(b)[k] {
      ByBucketMembers(a, k);
      UniqueByBucket(b, ByBucket(a)[k]);
    }
  }

  /** `x` belongs at position `at` of the sorted list `s`. */
  lemma InsertAt(s: seq<BucketResult>, x: BucketResult, at: nat)
    requires SortedByBucket(s) && at <= |s|
    requires forall k :: 0 <= k < at ==> s[k].bucketID <= x.bucketID
    requires at < |s| ==> x.bucketID < s[at].bucketID
    ensures SortedByBucket(s[..at] + [x] + s[at..])
    ensures multiset(s[..at] + [x] + s[at..]) == multiset(s) + multiset{x}
  {
    assert s == s[..at] + s[at..];
    var t := s[..at] + [x] + s[at..];
    forall i, j | 0 <= i < j < |t| ensures t[i].bucketID <= t[j].bucketID {
      assert at < j ==> s[at].bucketID <= s[j - 1].bucketID;
    }
  }

  method PositionOf(sorted: seq<BucketResult>, x: BucketResult) returns (at: nat)
    ensures at <= |sorted|
    ensures forall k :: 0 <= k < at ==> sorted[k].bucketID <= x.bucketID
    ensures at < |sorted| ==> x.bucketID < sorted[at].bucketID
  {
    at := 0;
    while at < |sorted| && sorted[at].bucketID <= x.bucketID
      invariant at <= |sorted|
      invariant forall k :: 0 <= k < at ==> sorted[k].bucketID <= x.bucketID
    {
      at := at + 1;
    }
  }

  /** Any sort by bucket: like sort.Slice, the contract leaves the order of equal buckets open. */
  method SortByBucket(results: seq<BucketResult>) returns (sorted: seq<BucketResult>)
    ensures multiset(sorted) == multiset(results) && SortedByBucket(sorted)
  {
    sorted := [];
    for i := 0 to |results|
      invariant multiset(sorted) == multiset(results[..i]) && SortedByBucket(sorted)
    {
      var at := PositionOf(sorted, results[i]);
      InsertAt(sorted, results[i], at);
      hide SortedByBucket;
      assert results[..i + 1] == results[..i] + [results[i]];
      sorted := sorted[..at] + [results[i]] + sorted[at..];
    }
    assert results[..|results|] == results;
  }

  /** Where each bucket stands in `out`, by the text of its key. */
  ghost predicate Indexes(index: map<string, int>, out: seq<BucketResult>) {
    && (forall text :: text in index ==> 0 <= index[text] < |out| && KeyText(out[index[text]].Key()) == text)
    && (forall i :: 0 <= i < |out| ==> KeyText(out[i].Key()) in index)
  }

  lemma {:induction false} OverwriteBucket(out: seq<BucketResult>, i: nat, r: BucketResult)
    requires UniqueBuckets(out) && i < |out| && out[i].Key() == r.Key()
    ensures UniqueBuckets(out[i := r]) && ByBucket(out[i := r]) == ByBucket(out)[r.Key() := r]
  {
    var rest, last := out[..|out| - 1], out[|out| - 1];
    if i == |out| - 1 {
      assert out[i := r][..i] == rest;
    } else {
      OverwriteBucket(rest, i, r);
      assert out[i := r][..|out| - 1] == rest[i := r];
      assert last.Key() != r.Key();
    }
  }

  lemma KnownIndex(index: map<string, int>, out: seq<BucketResult>, r: BucketResult)
    requires Indexes(index, out) && KeyText(r.Key()) in index
    ensures
      var i := index[KeyText(r.Key())];
      0 <= i < |out| && Indexes(index, out[i := r])
  {
    hide BucketFailureKey;
  }

  lemma KnownBucket(index: map<string, int>, out: seq<BucketResult>, r: BucketResult)
    requires UniqueBuckets(out) && Indexes(index, out) && KeyText(r.Key()) in index
    ensures
      var i := index[KeyText(r.Key())];
      && 0 <= i < |out|
      && UniqueBuckets(out[i := r])
      && ByBucket(out[i := r]) == ByBucket(out)[r.Key() := r]
  {
    hide BucketFailureKey, ByBucket;
    var i := index[KeyText(r.Key())];
    BucketFailureKeyInjective(out[i].partitionID, out[i].bucketID, r.partitionID, r.bucketID);
    OverwriteBucket(out, i, r);
  }

  lemma NewBucketUnique(index: map<string, int>, out: seq<BucketResult>, r: BucketResult)
    requires UniqueBuckets(out) && Indexes(index, out) && KeyText(r.Key()) !in index
    ensures UniqueBuckets(out + [r])
  {
    hide BucketFailureKey;
    forall i | 0 <= i < |out| ensures out[i].Key() != r.Key() {
      assert KeyText(out[i].Key()) in index;
    }
  }

  lemma NewBucketIndexed(index: map<string, int>, out: seq<BucketResult>, r: BucketResult)
    requires Indexes(index, out) && KeyText(r.Key()) !in index
    ensures Indexes(index[KeyText(r.Key()) := |out|], out + [r])
  {
    hide BucketFailureKey;
  }

  lemma ByBucketAppended(out: seq<BucketResult>, r: BucketResult)
    ensures ByBucket(out + [r]) == ByBucket(out)[r.Key() := r]
  {
    assert (out + [r])[..|out|] == out;
  }

  lemma IndexStep(index: map<string, int>, out: seq<BucketResult>, i: nat)
    requires i < |out| && Indexes(index, out[..i])
    ensures Indexes(index[KeyText(out[i].Key()) := i], out[..i + 1])
  {
    hide BucketFailureKey;
  }

  method IndexBuckets(out: seq<BucketResult>) returns (index: map<string, int>)
    ensures Indexes(index, out)
  {
    index := map[];
    assert Indexes(index, out[..0]);
    hide BucketFailureKey, Indexes;
    for i := 0 to |out|
      invariant Indexes(index, out[..i])
    {
      IndexStep(index, out, i);
      index := index[BucketFailureKey(out[i].partitionID, out[i].bucketID) := i];
    }
    assert out[..|out|] == out;
  }

  lemma ByBucketStep(results: seq<BucketResult>, n: nat)
    requires n < |results|
    ensures ByBucket(results[..n + 1]) == ByBucket(results[..n])[results[n].Key() := results[n]]
  {
    assert results[..n + 1][..n] == results[..n];
  }

  lemma OverrideStep<K, V>(a: map<K, V>, b: map<K, V>, k: K, v: V)
    ensures (a + b)[k := v] == a + b[k := v]
  {
  }

  lemma OverrideNothing<K, V>(a: map<K, V>)
    ensures a + map[] == a
  {
  }

  /** Every caller passes an empty list or the outcome of an earlier merge, hence one result a bucket. */
  method MergeResults(existing: seq<BucketResult>, current: seq<BucketResult>) returns (out: seq<BucketResult>)
    ensures SortedByBucket(out)
    ensures UniqueBuckets(existing) ==> UniqueBuckets(out) && ByBucket(out) == ByBucket(existing) + ByBucket(current)
  {
    out := existing;
    var index := IndexBuckets(out);
    assert ByBucket(current[..0]) == map[];
    hide BucketFailureKey, Indexes, ByBucket, UniqueBuckets, SortedByBucket;
    OverrideNothing(ByBucket(existing));
    for n := 0 to |current|
      invariant Indexes(index, out)
      invariant UniqueBuckets(existing) ==>
                  UniqueBuckets(out) && ByBucket(out) == ByBucket(existing) + ByBucket(current[..n])
    {
      var result := current[n];
      ByBucketStep(current, n);
      OverrideStep(ByBucket(existing), ByBucket(current[..n]), result.Key(), result);
      var key := BucketFailureKey(result.partitionID, result.bucketID);
      if key in index {
        KnownIndex(index, out, result);
        if UniqueBuckets(out) {
          KnownBucket(index, out, result);
        }
        out := out[index[key] := result];
      } else {
        if UniqueBuckets(out) {
          NewBucketUnique(index, out, result);
        }
        NewBucketIndexed(index, out, result);
        ByBucketAppended(out, result);
        index := index[key := |out|];
        out := out + [result];
      }
    }
    assert current[..|current|] == current;
    var sorted := SortByBucket(out);
    if UniqueBuckets(out) {
      ReorderingKeepsBuckets(out, sorted);
    }
    out := sorted;
  }
}

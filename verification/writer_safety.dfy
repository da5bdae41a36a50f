/**
 What every execution of a buffered writer keeps, whatever the interleaving and however many flushes fail.
 */
module WriterSafety {
  import opened Batches
  import opened Results
  import opened WriterBuffer
  import opened WriterSystem

  // ---------- conservation ----------

  function InFlight(s: System): seq<BucketRecordBatch> {
    if s.flight.Some? then s.flight.value.batches else []
  }

  ghost predicate Conserved(s: System) {
    && s.accepted == s.delivered + InFlight(s) + s.buffer.pending + s.dropped
    && (!s.buffer.closed ==> s.dropped == [])
    && (s.flight.Some? <==> s.buffer.flushInFlight)
    && (s.flight.Some? ==> s.flight.value.upTo == |s.delivered| + |s.flight.value.batches|)
  }

  lemma ConservedByStep(opts: Options, s: System, step: Step)
    requires Conserved(s) && Enabled(s, step)
    ensures Conserved(Apply(opts, s, step))
  {
    hide TotalBytes, Fits, WakeAll, AfterTry, AfterBegin, AfterFlight, AfterClose;
    match step {
      case Write(w, request) => ConservedByTry(opts, s, w, request);
      case Retry(w) => ConservedByTry(opts, s, w, s.blocked[w].request);
      case Begin(flusher) => ConservedByBegin(s, flusher);
      case FlushSucceeds => ConservedByFlight(opts, s, true);
      case FlushFails => ConservedByFlight(opts, s, false);
      case CloseNow => ConservedByClose(s);
      case CloserCloses(_) => ConservedByClose(s);
      case _ =>
    }
  }

  lemma ConservedByTry(opts: Options, s: System, w: nat, request: seq<BucketRecordBatch>)
    requires Conserved(s)
    ensures Conserved(AfterTry(opts, s, w, request))
  {
    hide TotalBytes, Fits;
  }

  lemma ConservedByBegin(s: System, flusher: Flusher)
    requires Conserved(s)
    ensures Conserved(AfterBegin(s, flusher))
  {
  }

  lemma ConservedByFlight(opts: Options, s: System, succeeded: bool)
    requires Conserved(s) && s.flight.Some?
    ensures Conserved(AfterFlight(opts, s, succeeded))
  {
    hide TotalBytes, WakeAll;
  }

  lemma ConservedByClose(s: System)
    requires Conserved(s)
    ensures Conserved(AfterClose(s))
  {
    hide WakeAll;
  }

  // ---------- byte counts ----------

  ghost predicate BytesCounted(s: System) {
    && s.buffer.pendingBytes == TotalBytes(s.buffer.pending)
    && (s.flight.Some? ==> s.flight.value.bytes == TotalBytes(s.flight.value.batches))
  }

  lemma BytesCountedByStep(opts: Options, s: System, step: Step)
    requires BytesCounted(s) && Enabled(s, step)
    ensures BytesCounted(Apply(opts, s, step))
  {
    hide Fits, WakeAll;
    match step {
      case Write(_, request) => TotalBytesOfConcat(s.buffer.pending, request);
      case Retry(w) => TotalBytesOfConcat(s.buffer.pending, s.blocked[w].request);
      case FlushFails => TotalBytesOfConcat(s.flight.value.batches, s.buffer.pending);
      case _ =>
    }
  }

  // ---------- the bound on the buffer ----------

  /** `batches` with `bytes` record bytes stay within `share` times the limits. */
  ghost predicate Within(opts: Options, share: nat, batches: seq<BucketRecordBatch>, bytes: int) {
    && |batches| <= share * opts.MaxBatches()
    && (opts.maxBufferedBytes > 0 ==> bytes <= share * opts.maxBufferedBytes)
  }

  ghost predicate Bounded(opts: Options, s: System) {
    if s.flight.Some? then
      && Within(opts, s.failures + 1, s.flight.value.batches, s.flight.value.bytes)
      && Within(opts, 1, s.buffer.pending, s.buffer.pendingBytes)
    else
      Within(opts, s.failures + 1, s.buffer.pending, s.buffer.pendingBytes)
  }

  lemma WithinSum(opts: Options, a: nat, b: nat, xs: seq<BucketRecordBatch>, ys: seq<BucketRecordBatch>, m: int, n: int)
    requires Within(opts, a, xs, m) && Within(opts, b, ys, n)
    ensures Within(opts, a + b, xs + ys, m + n)
  {
    assert (a + b) * opts.MaxBatches() == a * opts.MaxBatches() + b * opts.MaxBatches();
    assert (a + b) * opts.maxBufferedBytes == a * opts.maxBufferedBytes + b * opts.maxBufferedBytes;
  }

  lemma WithinMore(opts: Options, a: nat, b: nat, xs: seq<BucketRecordBatch>, m: int)
    requires Within(opts, a, xs, m) && a <= b
    ensures Within(opts, b, xs, m)
  {
    assert a * opts.MaxBatches() <= b * opts.MaxBatches();
    if opts.maxBufferedBytes > 0 {
      assert a * opts.maxBufferedBytes <= b * opts.maxBufferedBytes;
    }
  }

  lemma WithinOfFits(opts: Options, b: Buffer, request: seq<BucketRecordBatch>)
    requires Fits(opts, b, request)
    ensures Within(opts, 1, b.pending + request, b.pendingBytes + TotalBytes(request))
  {
  }

  lemma BoundedByTry(opts: Options, s: System, w: nat, request: seq<BucketRecordBatch>)
    requires Bounded(opts, s) && Conserved(s)
    ensures Bounded(opts, AfterTry(opts, s, w, request))
  {
    if TryWriteOutcome(opts, s.buffer, request) == Accepted {
      WithinOfFits(opts, s.buffer, request);
      hide Within, Fits, TotalBytes;
      WithinMore(opts, 1, s.failures + 1, s.buffer.pending + request, s.buffer.pendingBytes + TotalBytes(request));
    }
  }

  lemma BoundedByStep(opts: Options, s: System, step: Step)
    requires Bounded(opts, s) && Conserved(s) && Enabled(s, step)
    ensures Bounded(opts, Apply(opts, s, step))
  {
    hide Within, Fits, TotalBytes, WakeAll, TryWrite, TryWriteOutcome;
    match step {
      case Write(w, request) => BoundedByTry(opts, s, w, request);
      case Retry(w) => BoundedByTry(opts, s, w, s.blocked[w].request);
      case Begin(_) => NothingWithin(opts);
      case FlushFails =>
        var flight := s.flight.value;
        WithinSum(opts, s.failures + 1, 1, flight.batches, s.buffer.pending, flight.bytes, s.buffer.pendingBytes);
        assert s.buffer.pendingBytes + flight.bytes == flight.bytes + s.buffer.pendingBytes;
      case CloseNow =>
        NothingWithin(opts);
        WithinMore(opts, 1, s.failures + 1, [], 0);
      case CloserCloses(_) =>
        NothingWithin(opts);
        WithinMore(opts, 1, s.failures + 1, [], 0);
      case _ =>
    }
  }

  lemma NothingWithin(opts: Options)
    ensures Within(opts, 1, [], 0)
  {
  }

  // ---------- the linger timer ----------

  ghost predicate TimerSound(opts: Options, s: System) {
    && (s.flight.Some? || s.buffer.closed ==> s.buffer.timer != Armed)
    && (opts.linger > 0 && !s.buffer.closed && s.flight.None? && s.buffer.pending != [] ==>
          s.buffer.timer == Armed || s.firedCallbacks > 0)
    && (opts.linger <= 0 ==> s.buffer.timer == NoTimer && s.firedCallbacks == 0)
  }

  lemma TimerSoundByStep(opts: Options, s: System, step: Step)
    requires TimerSound(opts, s) && Conserved(s) && Enabled(s, step)
    ensures TimerSound(opts, Apply(opts, s, step))
  {
    hide TotalBytes, Fits, WakeAll;
  }

  // ---------- sleepers ----------

  ghost predicate SleepersHaveReason(opts: Options, s: System) {
    forall w :: w in s.blocked && s.blocked[w].asleep ==>
                  && !s.buffer.closed
                  && (s.flight.Some? || !Fits(opts, s.buffer, s.blocked[w].request))
  }

  lemma SleepersByTry(opts: Options, s: System, w: nat, request: seq<BucketRecordBatch>)
    requires SleepersHaveReason(opts, s)
    ensures SleepersHaveReason(opts, AfterTry(opts, s, w, request))
  {
    hide TotalBytes;
  }

  lemma SleepersByStep(opts: Options, s: System, step: Step)
    requires SleepersHaveReason(opts, s) && Conserved(s) && Enabled(s, step)
    ensures SleepersHaveReason(opts, Apply(opts, s, step))
  {
    hide TotalBytes;
    match step {
      case Write(w, request) => SleepersByTry(opts, s, w, request);
      case Retry(w) => SleepersByTry(opts, s, w, s.blocked[w].request);
      case _ =>
    }
  }

  // ---------- closing ----------

  ghost predicate ClosersSound(s: System) {
    && (s.flight.Some? && s.flight.value.flusher.Closer? ==>
          var id := s.flight.value.flusher.id;
          id in s.closers && s.closers[id] == Flushing(s.flight.value.upTo))
    && forall id :: id in s.closers ==> CloserSound(s, s.closers[id])
  }

  ghost predicate CloserSound(s: System, phase: CloserPhase) {
    match phase
    case Flushed(upTo) => upTo <= |s.delivered|
    case Returned(None) => s.buffer.closed
    case Returned(Some(upTo)) => s.buffer.closed && upTo <= |s.delivered|
    case _ => true
  }

  lemma ClosersSoundByStep(opts: Options, s: System, step: Step)
    requires ClosersSound(s) && Conserved(s) && Enabled(s, step)
    ensures ClosersSound(Apply(opts, s, step))
  {
    hide TotalBytes, Fits, WakeAll;
  }
}

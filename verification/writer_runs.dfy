/**
 The promises of the buffered writer over whole executions.
 */
module WriterRuns {
  import opened Batches
  import opened Results
  import opened WriterBuffer
  import opened WriterSafety
  import opened WriterSystem

  ghost predicate Sound(opts: Options, s: System) {
    && Conserved(s)
    && BytesCounted(s)
    && Bounded(opts, s)
    && TimerSound(opts, s)
    && SleepersHaveReason(opts, s)
    && ClosersSound(s)
  }

  lemma SoundAtStart(opts: Options)
    ensures Sound(opts, START)
  {
  }

  lemma SoundByStep(opts: Options, s: System, t: System)
    requires Sound(opts, s) && Next(opts, s, t)
    ensures Sound(opts, t)
  {
    hide Conserved, BytesCounted, Bounded, TimerSound, SleepersHaveReason, ClosersSound, Apply, Enabled;
    var step :| Enabled(s, step) && t == Apply(opts, s, step);
    ConservedByStep(opts, s, step);
    BytesCountedByStep(opts, s, step);
    BoundedByStep(opts, s, step);
    TimerSoundByStep(opts, s, step);
    SleepersByStep(opts, s, step);
    ClosersSoundByStep(opts, s, step);
  }

  lemma {:induction false} AlwaysSound(opts: Options, run: seq<System>, i: nat)
    requires Execution(opts, run) && i < |run|
    ensures Sound(opts, run[i])
  {
    hide Sound, Next;
    if i == 0 {
      SoundAtStart(opts);
    } else {
      AlwaysSound(opts, run, i - 1);
      SoundByStep(opts, run[i - 1], run[i]);
    }
  }

  /** Nothing is lost, duplicated or reordered: until Close, and over the whole run. */
  lemma FifoConservation(opts: Options, run: seq<System>, i: nat)
    requires Execution(opts, run) && i < |run|
    ensures
      var s := run[i];
      && (!s.buffer.closed ==> s.delivered + InFlight(s) + s.buffer.pending == s.accepted)
      && s.delivered + InFlight(s) <= s.accepted
      && multiset(s.accepted)
         == multiset(s.delivered) + multiset(InFlight(s)) + multiset(s.buffer.pending) + multiset(s.dropped)
  {
    AlwaysSound(opts, run, i);
  }

  /** The counter is exact, and k consecutive failures let the buffer hold at most k + 1 times its limits. */
  lemma BufferBound(opts: Options, run: seq<System>, i: nat)
    requires Execution(opts, run) && i < |run|
    ensures
      var s := run[i];
      && s.buffer.pendingBytes == TotalBytes(s.buffer.pending)
      && |s.buffer.pending| <= (s.failures + 1) * opts.MaxBatches()
      && (opts.maxBufferedBytes > 0 ==> s.buffer.pendingBytes <= (s.failures + 1) * opts.maxBufferedBytes)
      && (s.flight.Some? || s.failures == 0 ==>
            && |s.buffer.pending| <= opts.MaxBatches()
            && (opts.maxBufferedBytes > 0 ==> s.buffer.pendingBytes <= opts.maxBufferedBytes))
  {
    AlwaysSound(opts, run, i);
    var s := run[i];
    if s.flight.Some? {
      WithinMore(opts, 1, s.failures + 1, s.buffer.pending, s.buffer.pendingBytes);
    }
  }

  ghost predicate Reachable(opts: Options, s: System) {
    exists run :: Execution(opts, run) && run[|run| - 1] == s
  }

  lemma ReachableByStep(opts: Options, s: System, step: Step)
    requires Reachable(opts, s) && Enabled(s, step)
    ensures Reachable(opts, Apply(opts, s, step))
  {
    hide Apply, Enabled;
    var run :| Execution(opts, run) && run[|run| - 1] == s;
    var longer := run + [Apply(opts, s, step)];
    assert Execution(opts, longer) && longer[|longer| - 1] == Apply(opts, s, step);
  }

  /** Nobody is at work and the buffer holds `share` times its limit of empty batches. */
  ghost predicate IdleWith(opts: Options, s: System, share: nat) {
    && |s.buffer.pending| == share * opts.MaxBatches()
    && s.buffer.pendingBytes == TotalBytes(s.buffer.pending) == 0
    && !s.buffer.closed && !s.buffer.flushInFlight && s.flight.None? && s.blocked == map[]
  }

  /** A flush begins, a writer fills the buffer meanwhile, and the flush fails. */
  lemma FailureGrowsBuffer(opts: Options, s: System, request: seq<BucketRecordBatch>, share: nat)
    returns (began: System, written: System, failed: System)
    requires IdleWith(opts, s, share) && share > 0
    requires !opts.WritesThrough() && |request| == opts.MaxBatches() && TotalBytes(request) == 0
    ensures Enabled(s, Begin(User)) && began == Apply(opts, s, Begin(User))
    ensures Enabled(began, Write(0, request)) && written == Apply(opts, began, Write(0, request))
    ensures Enabled(written, FlushFails) && failed == Apply(opts, written, FlushFails)
    ensures IdleWith(opts, failed, share + 1) && failed.failures == s.failures + 1
  {
    hide TotalBytes;
    assert s.buffer.pending != [] by {
      assert share * opts.MaxBatches() >= opts.MaxBatches();
    }
    TotalBytesOfConcat(s.buffer.pending, request);
    assert (share + 1) * opts.MaxBatches() == share * opts.MaxBatches() + opts.MaxBatches();
    hide Apply;
    began := FlushBegins(opts, s);
    written := WriterFills(opts, began, request);
    failed := FlushReturns(opts, written);
  }

  lemma FlushBegins(opts: Options, s: System) returns (began: System)
    requires !s.buffer.flushInFlight && !s.buffer.closed && s.buffer.pending != [] && s.flight.None? && s.blocked == map[]
    ensures Enabled(s, Begin(User)) && began == Apply(opts, s, Begin(User))
    ensures began.buffer == Buffer([], 0, false, NoTimer, true) && began.failures == s.failures && began.blocked == map[]
    ensures began.flight == Some(Flight(User, s.buffer.pending, s.buffer.pendingBytes, |s.accepted|))
  {
    began := Apply(opts, s, Begin(User));
  }

  lemma WriterFills(opts: Options, s: System, request: seq<BucketRecordBatch>) returns (written: System)
    requires s.buffer == Buffer([], 0, false, NoTimer, true) && s.blocked == map[]
    requires !opts.WritesThrough() && |request| == opts.MaxBatches() && TotalBytes(request) == 0
    ensures Enabled(s, Write(0, request)) && written == Apply(opts, s, Write(0, request))
    ensures !written.buffer.closed && written.buffer.flushInFlight
    ensures written.buffer.pending == request && written.buffer.pendingBytes == 0
    ensures written.flight == s.flight && written.failures == s.failures && written.blocked == map[]
  {
    hide TotalBytes;
    written := Apply(opts, s, Write(0, request));
  }

  lemma FlushReturns(opts: Options, s: System) returns (failed: System)
    requires s.flight.Some? && s.flight.value.batches != [] && s.blocked == map[] && !s.buffer.closed
    ensures Enabled(s, FlushFails) && failed == Apply(opts, s, FlushFails)
    ensures failed.buffer.pending == s.flight.value.batches + s.buffer.pending
    ensures failed.buffer.pendingBytes == s.flight.value.bytes + s.buffer.pendingBytes
    ensures !failed.buffer.closed && !failed.buffer.flushInFlight && failed.flight.None? && failed.blocked == map[]
    ensures failed.failures == s.failures + 1
  {
    failed := Apply(opts, s, FlushFails);
  }

  lemma FirstWriteFillsBuffer(opts: Options, request: seq<BucketRecordBatch>) returns (s: System)
    requires !opts.WritesThrough() && |request| == opts.MaxBatches() && TotalBytes(request) == 0
    ensures Reachable(opts, s) && IdleWith(opts, s, 1) && s.failures == 0
  {
    assert Execution(opts, [START]) && [START][|[START]| - 1] == START;
    hide Execution, TotalBytes;
    ReachableByStep(opts, START, Write(0, request));
    s := Apply(opts, START, Write(0, request));
    assert s.buffer.pending == request;
  }

  /** The bound cannot be improved: every number of failures reaches it, unless writes bypass the buffer. */
  lemma {:induction false} BoundReached(opts: Options, failures: nat) returns (s: System)
    requires !opts.WritesThrough()
    ensures Reachable(opts, s) && s.failures == failures && |s.buffer.pending| == (failures + 1) * opts.MaxBatches()
    ensures IdleWith(opts, s, failures + 1)
  {
    var request := seq(opts.MaxBatches(), _ => BucketRecordBatch(None, 0, []));
    NoBytes(request);
    if failures == 0 {
      s := FirstWriteFillsBuffer(opts, request);
    } else {
      var before := BoundReached(opts, failures - 1);
      hide Reachable, Apply, Enabled;
      var began, written, failed := FailureGrowsBuffer(opts, before, request, failures);
      ReachableByStep(opts, before, Begin(User));
      ReachableByStep(opts, began, Write(0, request));
      ReachableByStep(opts, written, FlushFails);
      s := failed;
    }
  }

  lemma {:induction false} NoBytes(batches: seq<BucketRecordBatch>)
    requires forall b :: b in batches ==> b.records == []
    ensures TotalBytes(batches) == 0
  {
    if batches != [] {
      NoBytes(batches[1..]);
    }
  }

  lemma LingerNeverStrands(opts: Options, run: seq<System>, i: nat)
    requires Execution(opts, run) && i < |run|
    ensures
      var s := run[i];
      && (opts.linger > 0 && !s.buffer.closed && s.buffer.pending != [] && s.flight.None? ==>
            s.buffer.timer == Armed || s.firedCallbacks > 0)
      && (s.flight.Some? ==> s.buffer.timer != Armed)
  {
    AlwaysSound(opts, run, i);
  }

  /** A sleeper has something to wait for: its request does not fit, or a flush will end and wake it. */
  lemma NoLostWakeup(opts: Options, run: seq<System>, i: nat, w: nat)
    requires Execution(opts, run) && i < |run|
    requires w in run[i].blocked && run[i].blocked[w].asleep
    ensures !run[i].buffer.closed
    ensures Fits(opts, run[i].buffer, run[i].blocked[w].request) ==> run[i].flight.Some?
    ensures run[i].flight.Some? ==>
              && Enabled(run[i], FlushSucceeds)
              && !Apply(opts, run[i], FlushSucceeds).blocked[w].asleep
              && (Enabled(run[i], FlushFails) ==> !Apply(opts, run[i], FlushFails).blocked[w].asleep)
  {
    AlwaysSound(opts, run, i);
    hide Fits;
  }

  /** A flush that ends well has delivered exactly what was accepted before it began. */
  lemma FlushDeliversAllBefore(opts: Options, run: seq<System>, i: nat)
    requires Execution(opts, run) && i < |run| && run[i].flight.Some?
    ensures
      var upTo := run[i].flight.value.upTo;
      upTo <= |run[i].accepted| && Apply(opts, run[i], FlushSucceeds).delivered == run[i].accepted[..upTo]
  {
    AlwaysSound(opts, run, i);
  }

  // ---------- closing ----------

  /** How `now` can follow `before` in the life of one call of CloseWithContext. */
  predicate Follows(before: CloserPhase, now: CloserPhase) {
    match before
    case Flushing(n) => now in {Flushing(n), Flushed(n), Returned(Some(n)), ReturnedError}
    case Flushed(n) => now in {Flushed(n), Returned(Some(n))}
    case Returned(_) => now == before
    case ReturnedError => now == before
    case Checked(_) => true
  }

  lemma FollowsByStep(opts: Options, s: System, step: Step, id: nat)
    requires Sound(opts, s) && Enabled(s, step) && id in s.closers
    ensures
      var t := Apply(opts, s, step);
      id in t.closers && Follows(s.closers[id], t.closers[id]) && s.accepted <= t.accepted
  {
    hide TotalBytes, Fits, WakeAll, CloserSound, Conserved, Bounded, SleepersHaveReason, TimerSound, BytesCounted;
  }

  lemma StepAt(opts: Options, run: seq<System>, i: nat) returns (step: Step)
    requires Execution(opts, run) && 0 < i < |run|
    ensures Enabled(run[i - 1], step) && run[i] == Apply(opts, run[i - 1], step)
  {
    hide Enabled, Apply;
    assert Next(opts, run[i - 1], run[i]);
    step :| Enabled(run[i - 1], step) && run[i] == Apply(opts, run[i - 1], step);
  }

  lemma {:induction false} CloserHistory(opts: Options, run: seq<System>, i: nat, j: nat, id: nat)
    requires Execution(opts, run) && i <= j < |run| && id in run[i].closers
    requires run[i].closers[id].Flushing?
    ensures id in run[j].closers && Follows(run[i].closers[id], run[j].closers[id])
    ensures run[i].accepted <= run[j].accepted
  {
    if i < j {
      CloserHistory(opts, run, i, j - 1, id);
      AlwaysSound(opts, run, j - 1);
      hide Execution, Apply, Enabled, Sound;
      var step := StepAt(opts, run, j);
      FollowsByStep(opts, run[j - 1], step, id);
      FollowsTwice(run[i].closers[id], run[j - 1].closers[id], run[j].closers[id]);
    }
  }

  lemma FollowsTwice(a: CloserPhase, b: CloserPhase, c: CloserPhase)
    requires a.Flushing? && Follows(a, b) && Follows(b, c)
    ensures Follows(a, c)
  {
  }

  /**
   A call of CloseWithContext that begins its flush between states i and i + 1 and has returned nil by state j: every
   batch accepted before that flush was delivered, in order, and only later ones were dropped.
   */
  lemma CloseLosesNothingFlushed(opts: Options, run: seq<System>, i: nat, j: nat, id: nat)
    requires Execution(opts, run) && i < j < |run|
    requires id in run[i].closers && run[i].closers[id] == Checked(true)
    requires id in run[i + 1].closers && run[i + 1].closers[id].Flushing?
    requires id in run[j].closers && run[j].closers[id].Returned?
    ensures run[i].accepted <= run[j].delivered
    ensures run[j].buffer.closed
    ensures run[i].accepted <= run[j].accepted
    ensures multiset(run[j].dropped) <= multiset(run[j].accepted[|run[i].accepted|..])
  {
    hide Execution, Fits, TotalBytes, WakeAll;
    assert run[i + 1].closers[id] == Flushing(|run[i].accepted|) && run[i + 1].accepted == run[i].accepted by {
      AlwaysSound(opts, run, i);
      hide Bounded, SleepersHaveReason, TimerSound, BytesCounted;
      var step := StepAt(opts, run, i + 1);
    }
    CloserHistory(opts, run, i + 1, j, id);
    AlwaysSound(opts, run, j);
    hide Bounded, SleepersHaveReason, TimerSound, BytesCounted;
    var n, s := |run[i].accepted|, run[j];
    assert CloserSound(s, s.closers[id]);
    PrefixOfSum(s.accepted, s.delivered, InFlight(s), s.buffer.pending, s.dropped, n);
  }

  lemma PrefixOfSum<T>(all: seq<T>, a: seq<T>, b: seq<T>, c: seq<T>, d: seq<T>, n: nat)
    requires all == a + b + c + d && n <= |a|
    ensures all[..n] == a[..n]
    ensures multiset(d) <= multiset(all[n..])
  {
    assert all[n..] == (a[n..] + b + c) + d;
  }
}

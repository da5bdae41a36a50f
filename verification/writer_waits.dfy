/** What a full buffer does to writers, and when a closing writer flushes first, over whole executions. */
module WriterWaits {
  import opened Batches
  import opened Results
  import opened WriterBuffer
  import opened WriterSystem

  lemma OutcomeExactly(opts: Options, b: Buffer, request: seq<BucketRecordBatch>)
    ensures TryWriteOutcome(opts, b, request)
         == if b.closed then RefusedClosed
            else if Unbuffered(opts) then WrittenThrough
            else if !TooMuch(opts, b, request) then Accepted
            else if opts.blockOnBufferFull then Waits
            else RefusedFull
  {
    hide TotalBytes;
  }

  // ---------- a full buffer ----------

  /** The step is one look of writer `w` at the buffer, with `request` to be written. */
  predicate Looks(s: System, step: Step, w: nat, request: seq<BucketRecordBatch>) {
    step == Write(w, request) || (step == Step.Retry(w) && w in s.blocked && s.blocked[w].request == request)
  }

  /** Where blocking is asked for, a writer that finds no room goes to sleep with its request; nothing else changes. */
  lemma FullBufferWaits(opts: Options, s: System, step: Step, w: nat, request: seq<BucketRecordBatch>)
    requires Enabled(s, step) && Looks(s, step, w, request)
    requires opts.blockOnBufferFull && !s.buffer.closed && !Unbuffered(opts) && TooMuch(opts, s.buffer, request)
    ensures Apply(opts, s, step) == s.(blocked := s.blocked[w := BlockedWrite(request, true)])
  {
    hide TotalBytes, TooMuch, Unbuffered, TryWriteOutcome;
    OutcomeExactly(opts, s.buffer, request);
  }

  /** Where it is not, the writer is refused and nothing changes but that it no longer waits. */
  lemma FullBufferRefuses(opts: Options, s: System, step: Step, w: nat, request: seq<BucketRecordBatch>)
    requires Enabled(s, step) && Looks(s, step, w, request)
    requires !opts.blockOnBufferFull && !s.buffer.closed && !Unbuffered(opts) && TooMuch(opts, s.buffer, request)
    ensures Apply(opts, s, step) == s.(blocked := s.blocked - {w})
  {
    hide TotalBytes, TooMuch, Unbuffered, TryWriteOutcome;
    OutcomeExactly(opts, s.buffer, request);
  }

  /** A closed writer takes nothing, whatever its options; a sleeper that looks again is sent away. */
  lemma ClosedRefuses(opts: Options, s: System, step: Step, w: nat, request: seq<BucketRecordBatch>)
    requires Enabled(s, step) && Looks(s, step, w, request) && s.buffer.closed
    ensures Apply(opts, s, step) == s.(blocked := s.blocked - {w})
  {
    hide TotalBytes;
  }

  /** A writer that finds room has its batches put behind all others. */
  lemma RoomAccepts(opts: Options, s: System, step: Step, w: nat, request: seq<BucketRecordBatch>)
    requires Enabled(s, step) && Looks(s, step, w, request)
    requires !s.buffer.closed && !Unbuffered(opts) && !TooMuch(opts, s.buffer, request)
    ensures
      var t := Apply(opts, s, step);
      && t.buffer.pending == s.buffer.pending + request && t.accepted == s.accepted + request
      && t.buffer.pendingBytes == s.buffer.pendingBytes + TotalBytes(request)
      && t.blocked == s.blocked - {w}
      && !t.buffer.closed && t.flight == s.flight && t.closers == s.closers
  {
    hide TotalBytes, TooMuch, Unbuffered, TryWriteOutcome;
    OutcomeExactly(opts, s.buffer, request);
  }

  lemma NobodyWaitsByStep(opts: Options, s: System, step: Step)
    requires !opts.blockOnBufferFull && s.blocked == map[] && Enabled(s, step)
    ensures Apply(opts, s, step).blocked == map[]
  {
    hide TotalBytes, TooMuch, Unbuffered, Fits;
  }

  /** Without blocking, nobody ever waits. */
  lemma {:induction false} NobodyWaits(opts: Options, run: seq<System>, i: nat)
    requires !opts.blockOnBufferFull && Execution(opts, run) && i < |run|
    ensures run[i].blocked == map[]
  {
    hide Apply, Enabled;
    if i > 0 {
      NobodyWaits(opts, run, i - 1);
      assert Next(opts, run[i - 1], run[i]);
      var step :| Enabled(run[i - 1], step) && run[i] == Apply(opts, run[i - 1], step);
      NobodyWaitsByStep(opts, run[i - 1], step);
    }
  }

  // ---------- closing ----------

  /** A closer is told to flush first unless the option says no. */
  ghost predicate ToldToFlush(opts: Options, s: System) {
    forall id :: id in s.closers && s.closers[id].Checked? ==> s.closers[id].flushes == (opts.flushOnClose != Some(false))
  }

  lemma ToldToFlushByStep(opts: Options, s: System, step: Step)
    requires ToldToFlush(opts, s) && Enabled(s, step)
    ensures ToldToFlush(opts, Apply(opts, s, step))
  {
    hide TotalBytes, Fits;
  }

  lemma {:induction false} AlwaysToldToFlush(opts: Options, run: seq<System>, i: nat)
    requires Execution(opts, run) && i < |run|
    ensures ToldToFlush(opts, run[i])
  {
    hide Apply, Enabled;
    if i > 0 {
      AlwaysToldToFlush(opts, run, i - 1);
      assert Next(opts, run[i - 1], run[i]);
      var step :| Enabled(run[i - 1], step) && run[i] == Apply(opts, run[i - 1], step);
      ToldToFlushByStep(opts, run[i - 1], step);
    }
  }

  /**
   Unless the option FlushOnClose is set to false, a call of CloseWithContext that returns nil without having flushed
   found the writer closed by somebody else.
   */
  lemma UnflushedFoundClosed(opts: Options, run: seq<System>, i: nat, id: nat)
    requires Execution(opts, run) && i + 1 < |run| && opts.flushOnClose != Some(false)
    requires id !in run[i].closers || run[i].closers[id] != Returned(None)
    requires id in run[i + 1].closers && run[i + 1].closers[id] == Returned(None)
    ensures id !in run[i].closers && run[i].buffer.closed
  {
    hide Apply, Enabled, ToldToFlush;
    AlwaysToldToFlush(opts, run, i);
    assert Next(opts, run[i], run[i + 1]);
    var step :| Enabled(run[i], step) && run[i + 1] == Apply(opts, run[i], step);
    UnflushedByStep(opts, run[i], step, id);
  }

  lemma TryKeepsClosers(opts: Options, s: System, w: nat, request: seq<BucketRecordBatch>)
    ensures AfterTry(opts, s, w, request).closers == s.closers
  {
    hide TryWrite, TryWriteOutcome;
  }

  lemma UnflushedByStep(opts: Options, s: System, step: Step, id: nat)
    requires ToldToFlush(opts, s) && Enabled(s, step) && opts.flushOnClose != Some(false)
    requires id !in s.closers || s.closers[id] != Returned(None)
    requires
      var t := Apply(opts, s, step);
      id in t.closers && t.closers[id] == Returned(None)
    ensures id !in s.closers && s.buffer.closed
  {
    hide AfterTry, WakeAll, BeginFlush, Close, FinishFlush, RestorePending;
    match step {
      case Write(w, request) => TryKeepsClosers(opts, s, w, request);
      case Retry(w) => TryKeepsClosers(opts, s, w, s.blocked[w].request);
      case _ =>
    }
  }
}

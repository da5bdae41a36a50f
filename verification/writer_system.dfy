/**
 A buffered writer together with everyone who uses it: writers, flushers, the linger timer and its callbacks, and
 callers of CloseWithContext, interleaved in any order. One step is one critical section of the source or one event
 of its environment. `accepted`, `delivered`, `dropped` and `failures` only observe; no step looks at them.
 */
module WriterSystem {
  import opened Batches
  import opened Results
  import opened WriterBuffer

  datatype Flusher = User | Callback | Closer(id: nat)

  /** A flush between beginFlush and finishFlush or restorePending. `upTo` is how many batches were accepted before. */
  datatype Flight = Flight(flusher: Flusher, batches: seq<BucketRecordBatch>, bytes: int, upTo: nat)

  /** A writer inside the loop of Write, asleep on the condition variable or woken up and about to look again. */
  datatype BlockedWrite = BlockedWrite(request: seq<BucketRecordBatch>, asleep: bool)

  /** Where a call of CloseWithContext is. `Returned` is a nil error; `upTo` dates its own beginFlush, if it had one. */
  datatype CloserPhase =
    | Checked(flushes: bool)
    | Flushing(upTo: nat)
    | Flushed(upTo: nat)
    | Returned(flushedUpTo: Option<nat>)
    | ReturnedError

  datatype System = System(
    buffer: Buffer,
    flight: Option<Flight>,
    firedCallbacks: nat,
    blocked: map<nat, BlockedWrite>,
    closers: map<nat, CloserPhase>,
    accepted: seq<BucketRecordBatch>,
    delivered: seq<BucketRecordBatch>,
    dropped: seq<BucketRecordBatch>,
    failures: nat)

  const START := System(EMPTY_BUFFER, None, 0, map[], map[], [], [], [], 0)

  datatype Step =
    | Write(writer: nat, request: seq<BucketRecordBatch>)
    | Retry(writer: nat)
    | Abandon(writer: nat)
    | ContextBroadcast
    | Begin(flusher: Flusher)
    | FlushSucceeds
    | FlushFails
    | TimerFires
    | CloseNow
    | CloserEnters(id: nat)
    | CloserCancelled(id: nat)
    | CloserCloses(id: nat)

  function WakeAll(blocked: map<nat, BlockedWrite>): map<nat, BlockedWrite> {
    map w | w in blocked :: blocked[w].(asleep := false)
  }

  predicate Enabled(s: System, step: Step) {
    match step
    case Write(w, request) => w !in s.blocked && request != []
    case Retry(w) => w in s.blocked && !s.blocked[w].asleep
    case Abandon(w) => w in s.blocked && !s.blocked[w].asleep
    case ContextBroadcast => true
    case Begin(User) => true
    case Begin(Callback) => s.firedCallbacks > 0
    case Begin(Closer(id)) => id in s.closers && s.closers[id] == Checked(true)
    case FlushSucceeds => s.flight.Some?
    case FlushFails => s.flight.Some? && s.flight.value.batches != []
    case TimerFires => s.buffer.timer == Armed
    case CloseNow => true
    case CloserEnters(id) => id !in s.closers
    case CloserCancelled(id) => id in s.closers && s.closers[id] == Checked(true)
    case CloserCloses(id) => id in s.closers && (s.closers[id] == Checked(false) || s.closers[id].Flushed?)
  }

  /** One pass of the loop of Write by `w`. */
  function AfterTry(opts: Options, s: System, w: nat, request: seq<BucketRecordBatch>): System {
    var outcome := TryWriteOutcome(opts, s.buffer, request);
    s.(buffer := TryWrite(opts, s.buffer, request),
       accepted := if outcome == Accepted then s.accepted + request else s.accepted,
       blocked := if outcome == Waits then s.blocked[w := BlockedWrite(request, true)] else s.blocked - {w})
  }

  function AfterBegin(s: System, flusher: Flusher): System {
    var outcome := BeginFlushOutcome(s.buffer);
    s.(buffer := BeginFlush(s.buffer),
       firedCallbacks := if flusher == Callback && s.firedCallbacks > 0 then s.firedCallbacks - 1 else s.firedCallbacks,
       flight := if outcome.Begun? then Some(Flight(flusher, outcome.batches, outcome.bytes, |s.accepted|))
                 else s.flight,
       closers := if flusher.Closer?
                  then s.closers[flusher.id := if outcome.Begun? then Flushing(|s.accepted|) else ReturnedError]
                  else s.closers)
  }

  function AfterFlight(opts: Options, s: System, succeeded: bool): System
    requires s.flight.Some?
  {
    var flight := s.flight.value;
    s.(buffer := if succeeded then FinishFlush(opts, s.buffer)
                 else RestorePending(opts, s.buffer, flight.batches, flight.bytes),
       flight := None,
       delivered := if succeeded then s.delivered + flight.batches else s.delivered,
       failures := if succeeded then 0 else s.failures + 1,
       closers := if flight.flusher.Closer?
                  then s.closers[flight.flusher.id := if succeeded then Flushed(flight.upTo) else ReturnedError]
                  else s.closers,
       blocked := WakeAll(s.blocked))
  }

  function AfterClose(s: System): System {
    s.(buffer := Close(s.buffer), dropped := s.buffer.pending + s.dropped, blocked := WakeAll(s.blocked))
  }

  function Apply(opts: Options, s: System, step: Step): System
    requires Enabled(s, step)
  {
    match step
    case Write(w, request) => AfterTry(opts, s, w, request)
    case Retry(w) => AfterTry(opts, s, w, s.blocked[w].request)
    case Abandon(w) => s.(blocked := s.blocked - {w})
    case ContextBroadcast => s.(blocked := WakeAll(s.blocked))
    case Begin(flusher) => AfterBegin(s, flusher)
    case FlushSucceeds => AfterFlight(opts, s, true)
    case FlushFails => AfterFlight(opts, s, false)
    case TimerFires => s.(buffer := s.buffer.(timer := Expired), firedCallbacks := s.firedCallbacks + 1)
    case CloseNow => AfterClose(s)
    case CloserEnters(id) =>
      s.(closers := s.closers[id := if s.buffer.closed then Returned(None) else Checked(opts.FlushesOnClose())])
    case CloserCancelled(id) => s.(closers := s.closers[id := ReturnedError])
    case CloserCloses(id) =>
      var upTo := if s.closers[id].Flushed? then Some(s.closers[id].upTo) else None;
      AfterClose(s).(closers := s.closers[id := Returned(upTo)])
  }

  ghost predicate Next(opts: Options, s: System, t: System) {
    exists step :: Enabled(s, step) && t == Apply(opts, s, step)
  }

  ghost predicate Execution(opts: Options, run: seq<System>) {
    && run != []
    && run[0] == START
    && forall i :: 0 < i < |run| ==> Next(opts, run[i - 1], run[i])
  }
}

/**
 The state shared by every user of a buffered writer, and its critical sections. AppendWriter and UpsertWriter are
 the same machine and differ only in what they hand to the network. Each critical section is a function on Buffer;
 WriterState is the mutable object of the source, whose methods compute those functions in place.
 */
module WriterBuffer {
  import opened Batches
  import opened Bytes
  import opened Results

  datatype Options = Options(maxBufferedBatches: int, maxBufferedBytes: int, linger: int, blockOnBufferFull: bool,
                             flushOnClose: Option<bool>)
  {
    /** The limit on batches that holds once withDefaults has run. */
    function MaxBatches(): (limit: nat)
      ensures limit >= 1
    {
      if maxBufferedBatches <= 0 then 1 else maxBufferedBatches
    }

    predicate FlushesOnClose() {
      flushOnClose.None? || flushOnClose.value
    }

    /** Options under which a write never touches the buffer. */
    predicate WritesThrough() {
      MaxBatches() <= 1 && maxBufferedBytes <= 0 && linger <= 0
    }
  }

  /** `Expired` is a timer whose callback has started: the field still holds it, but it will not fire again. */
  datatype Timer = NoTimer | Armed | Expired

  datatype Buffer = Buffer(pending: seq<BucketRecordBatch>, pendingBytes: int, closed: bool, timer: Timer,
                           flushInFlight: bool)

  const EMPTY_BUFFER := Buffer([], 0, false, NoTimer, false)

  datatype WriteOutcome = RefusedClosed | WrittenThrough | Accepted | RefusedFull | Waits

  datatype BeginOutcome = BeginClosed | BeginBusy | Begun(batches: seq<BucketRecordBatch>, bytes: int)

  predicate HasCapacity(opts: Options, b: Buffer, batchCount: nat, bytesAdded: nat) {
    && |b.pending| + batchCount <= opts.MaxBatches()
    && (opts.maxBufferedBytes > 0 ==> b.pendingBytes + bytesAdded <= opts.maxBufferedBytes)
  }

  /** Options that leave nothing to be buffered, limit by limit; a limit of no batches counts as one. */
  predicate Unbuffered(opts: Options) {
    opts.maxBufferedBatches <= 1 && opts.maxBufferedBytes <= 0 && opts.linger <= 0
  }

  /** The request does not fit behind what is pending: too many batches, or too many bytes where bytes are limited. */
  predicate TooMuch(opts: Options, b: Buffer, request: seq<BucketRecordBatch>) {
    || |b.pending| + |request| > (if opts.maxBufferedBatches > 0 then opts.maxBufferedBatches else 1)
    || (opts.maxBufferedBytes > 0 && b.pendingBytes + TotalBytes(request) > opts.maxBufferedBytes)
  }

  predicate Fits(opts: Options, b: Buffer, request: seq<BucketRecordBatch>) {
    HasCapacity(opts, b, |request|, TotalBytes(request))
  }

  /** What one pass of the loop of Write decides. */
  function TryWriteOutcome(opts: Options, b: Buffer, request: seq<BucketRecordBatch>): WriteOutcome {
    if b.closed then RefusedClosed
    else if opts.WritesThrough() then WrittenThrough
    else if Fits(opts, b, request) then Accepted
    else if opts.blockOnBufferFull then Waits
    else RefusedFull
  }

  function TryWrite(opts: Options, b: Buffer, request: seq<BucketRecordBatch>): Buffer {
    if TryWriteOutcome(opts, b, request) != Accepted then b
    else
      b.(pending := b.pending + request,
         pendingBytes := b.pendingBytes + TotalBytes(request),
         timer := if opts.linger > 0 && !b.flushInFlight then Armed else b.timer)
  }

  function BeginFlushOutcome(b: Buffer): BeginOutcome {
    if b.closed then BeginClosed
    else if b.flushInFlight then BeginBusy
    else Begun(b.pending, b.pendingBytes)
  }

  /** The timer is stopped even when another flush is under way. */
  function BeginFlush(b: Buffer): Buffer {
    if b.closed then b
    else if b.flushInFlight then b.(timer := NoTimer)
    else Buffer([], 0, false, NoTimer, true)
  }

  function RestorePending(opts: Options, b: Buffer, batches: seq<BucketRecordBatch>, bytes: int): Buffer {
    b.(pending := batches + b.pending,
       pendingBytes := b.pendingBytes + bytes,
       flushInFlight := false,
       timer := if opts.linger > 0 && !b.closed then Armed else b.timer)
  }

  function FinishFlush(opts: Options, b: Buffer): Buffer {
    b.(flushInFlight := false,
       timer := if opts.linger > 0 && |b.pending| > 0 && !b.closed then Armed else b.timer)
  }

  function Close(b: Buffer): Buffer {
    b.(closed := true, timer := NoTimer, pending := [], pendingBytes := 0)
  }

  /** A flush that fails with nobody else at work leaves the buffered batches as they were. */
  lemma FailedFlushRestores(opts: Options, b: Buffer)
    requires BeginFlushOutcome(b).Begun?
    ensures
      var after := RestorePending(opts, BeginFlush(b), BeginFlushOutcome(b).batches, BeginFlushOutcome(b).bytes);
      && after.pending == b.pending
      && after.pendingBytes == b.pendingBytes
      && !after.flushInFlight && !after.closed
  {
    assert b.pending + [] == b.pending;
  }

  class WriterState {
    const opts: Options
    var pending: seq<BucketRecordBatch>
    var pendingBytes: int
    var closed: bool
    var timer: Timer
    var flushInFlight: bool

    constructor (opts: Options)
      ensures this.opts == opts && View() == EMPTY_BUFFER
    {
      this.opts := opts;
      pending, pendingBytes, closed, timer, flushInFlight := [], 0, false, NoTimer, false;
    }

    ghost function View(): Buffer
      reads this
    {
      Buffer(pending, pendingBytes, closed, timer, flushInFlight)
    }

    method StopTimer()
      modifies `timer
      ensures timer == NoTimer
    {
      if timer != NoTimer {
        timer := NoTimer;
      }
    }

    method ResetTimer()
      modifies `timer
      ensures timer == if opts.linger > 0 then Armed else NoTimer
    {
      StopTimer();
      if opts.linger <= 0 {
        return;
      }
      timer := Armed;
    }

    method HasCapacityLocked(batchCount: nat, bytesAdded: nat) returns (fits: bool)
      ensures fits == HasCapacity(opts, View(), batchCount, bytesAdded)
      ensures fits <==>
                && |pending| + batchCount <= (if opts.maxBufferedBatches > 0 then opts.maxBufferedBatches else 1)
                && (opts.maxBufferedBytes <= 0 || pendingBytes + bytesAdded <= opts.maxBufferedBytes)
    {
      if |pending| + batchCount > opts.MaxBatches() {
        return false;
      }
      if opts.maxBufferedBytes > 0 && pendingBytes + bytesAdded > opts.maxBufferedBytes {
        return false;
      }
      return true;
    }

    method TryWriteLocked(request: seq<BucketRecordBatch>) returns (outcome: WriteOutcome)
      modifies this
      ensures View() == TryWrite(opts, old(View()), request)
      ensures outcome == TryWriteOutcome(opts, old(View()), request)
      ensures old(closed) ==> outcome == RefusedClosed
      ensures old(!closed) && Unbuffered(opts) ==> outcome == WrittenThrough
      ensures old(!closed) && !Unbuffered(opts) && TooMuch(opts, old(View()), request) ==>
                outcome == if opts.blockOnBufferFull then Waits else RefusedFull
      ensures old(!closed) && !Unbuffered(opts) && !TooMuch(opts, old(View()), request) ==>
                && outcome == Accepted && pending == old(pending) + request && !closed
                && pendingBytes == old(pendingBytes) + TotalBytes(request)
                && timer == if opts.linger > 0 && !old(flushInFlight) then Armed else old(timer)
      ensures outcome != Accepted ==> View() == old(View())
    {
      var bytesAdded := BucketRecordBatchBytes(request);
      if closed {
        return RefusedClosed;
      }
      if opts.WritesThrough() {
        return WrittenThrough;
      }
      var fits := HasCapacityLocked(|request|, bytesAdded);
      if fits {
        pending := pending + request;
        pendingBytes := pendingBytes + bytesAdded;
        if opts.linger > 0 && !flushInFlight {
          ResetTimer();
        }
        return Accepted;
      }
      return if opts.blockOnBufferFull then Waits else RefusedFull;
    }

    method BeginFlushLocked() returns (outcome: BeginOutcome)
      modifies this
      ensures View() == BeginFlush(old(View()))
      ensures outcome == BeginFlushOutcome(old(View()))
      ensures old(closed) ==> outcome == BeginClosed && View() == old(View())
      ensures old(!closed) ==> timer == NoTimer && flushInFlight && !closed
      ensures old(!closed && flushInFlight) ==>
                outcome == BeginBusy && pending == old(pending) && pendingBytes == old(pendingBytes)
      ensures old(!closed && !flushInFlight) ==>
                outcome == Begun(old(pending), old(pendingBytes)) && pending == [] && pendingBytes == 0
    {
      if closed {
        return BeginClosed;
      }
      StopTimer();
      if flushInFlight {
        return BeginBusy;
      }
      outcome := Begun(pending, pendingBytes);
      pending := [];
      pendingBytes := 0;
      flushInFlight := true;
    }

    method RestorePendingLocked(batches: seq<BucketRecordBatch>, bytes: int)
      modifies this
      ensures View() == RestorePending(opts, old(View()), batches, bytes)
      ensures pending == batches + old(pending) && pendingBytes == old(pendingBytes) + bytes
      ensures !flushInFlight && closed == old(closed)
      ensures timer == if opts.linger > 0 && !closed then Armed else old(timer)
    {
      pending := batches + pending;
      pendingBytes := pendingBytes + bytes;
      flushInFlight := false;
      if opts.linger > 0 && !closed {
        ResetTimer();
      }
    }

    method FinishFlushLocked()
      modifies this
      ensures View() == FinishFlush(opts, old(View()))
      ensures pending == old(pending) && pendingBytes == old(pendingBytes) && !flushInFlight && closed == old(closed)
      ensures timer == if opts.linger > 0 && pending != [] && !closed then Armed else old(timer)
    {
      flushInFlight := false;
      if opts.linger > 0 && |pending| > 0 && !closed {
        ResetTimer();
      }
    }

    method CloseLocked()
      modifies this
      ensures View() == Close(old(View()))
      ensures closed && timer == NoTimer && pending == [] && pendingBytes == 0 && flushInFlight == old(flushInFlight)
    {
      closed := true;
      StopTimer();
      pending := [];
      pendingBytes := 0;
    }

    /** Flush with no other thread at work: `send` says whether the network call succeeds. */
    method Flush(send: seq<BucketRecordBatch> -> bool) returns (sent: seq<BucketRecordBatch>, error: bool)
      modifies this
      ensures error == (old(closed || flushInFlight) || (old(pending) != [] && !send(old(pending))))
      ensures sent == if error then [] else old(pending)
      ensures closed == old(closed)
      ensures old(pending) == sent + pending
      ensures old(!closed && !flushInFlight) && !error ==> pendingBytes == 0
      ensures error ==> pendingBytes == old(pendingBytes)
      ensures flushInFlight == old(flushInFlight)
    {
      var outcome := BeginFlushLocked();
      match outcome {
        case BeginClosed => return [], true;
        case BeginBusy => return [], true;
        case Begun(batches, bytes) =>
          if |batches| == 0 {
            FinishFlushLocked();
            return [], false;
          }
          if !send(batches) {
            RestorePendingLocked(batches, bytes);
            return [], true;
          }
          FinishFlushLocked();
          return batches, false;
      }
    }

    /** CloseWithContext with no other thread at work: an error leaves the writer open and its batches buffered. */
    method CloseWithContext(send: seq<BucketRecordBatch> -> bool)
      returns (sent: seq<BucketRecordBatch>, error: bool)
      modifies this
      ensures closed == (old(closed) || !error)
      ensures error <==> old(!closed && opts.flushOnClose != Some(false)
                             && (flushInFlight || (pending != [] && !send(pending))))
      ensures error ==> sent == [] && pending == old(pending)
      ensures !error && !old(closed) ==>
                pending == [] && sent == if opts.flushOnClose != Some(false) then old(pending) else []
      ensures old(closed) ==> sent == [] && View() == old(View())
    {
      sent, error := [], false;
      if closed {
        return;
      }
      if opts.FlushesOnClose() {
        sent, error := Flush(send);
        if error {
          return;
        }
      }
      CloseLocked();
    }
  }
}

/** `BoundedAuditQueue` and `AsyncAuditPipeline` with their own fields and loops.

    The ghost fields `m` and `trace` name the state of the step machine and the events that
    led there; `Valid()` says the fields are that state. Each stretch of code between two
    awaits is proved to be one step of `AuditMachine`, so what `AuditTheorems` says of runs
    holds of these objects.
 */
module AuditPipeline {
  import opened Wrappers
  import opened AuditMachine
  import AuditInvariants
  import AuditTheorems

  class BoundedAuditQueue {
    const capacity: nat
    var items: seq<Entry>
    var accepting: bool

    constructor (capacity: nat)
      ensures this.capacity == capacity && items == [] && accepting
    {
      this.capacity := capacity;
      items, accepting := [], true;
    }

    method Offer(item: Entry) returns (taken: bool)
      modifies this
      ensures taken <==> old(accepting) && |old(items)| < capacity
      ensures items == old(items) + if taken then [item] else []
      ensures accepting == old(accepting)
    {
      if !accepting || |items| >= capacity {
        return false;
      }
      items := items + [item];
      return true;
    }

    method Drain(maximum: nat) returns (drained: seq<Entry>)
      modifies this
      ensures drained + items == old(items) && |drained| == Min(maximum, |old(items)|)
      ensures accepting == old(accepting)
    {
      var n := Min(maximum, |items|);
      drained := items[..n];
      items := items[n..];
    }

    method DropAll() returns (droppedItems: seq<Entry>)
      modifies this
      ensures droppedItems == old(items) && items == []
      ensures accepting == old(accepting)
    {
      droppedItems := Drain(|items|);
    }

    method StopAccepting()
      modifies this
      ensures !accepting && items == old(items)
    {
      accepting := false;
    }
  }

  datatype SinkOutcome = Stored | Rejected(retryable: bool)

  lemma TraceGrows(s0: State, trace: seq<Event>, e: Event)
    requires ValidRun(s0, trace) && Enabled(Run(s0, trace), e)
    ensures ValidRun(s0, trace + [e]) && Run(s0, trace + [e]) == Apply(Run(s0, trace), e)
  {
    assert (trace + [e])[..|trace|] == trace;
  }

  /** The trace grew, and the writer took a step. */
  predicate Progress(earlier: seq<Event>, later: seq<Event>) {
    earlier <= later && AuditTheorems.WriterSteps(earlier) < AuditTheorems.WriterSteps(later)
  }

  lemma WriterStepIsProgress(earlier: seq<Event>, e: Event, later: seq<Event>)
    requires IsWriterEvent(e) && earlier + [e] <= later
    ensures Progress(earlier, later)
  {
    assert (earlier + [e])[..|earlier|] == earlier;
    AuditTheorems.WriterStepsGrow(earlier + [e], later);
  }

  lemma ProgressExtends(earlier: seq<Event>, middle: seq<Event>, later: seq<Event>)
    requires earlier <= middle && (Progress(earlier, middle) || Progress(middle, later)) && middle <= later
    ensures Progress(earlier, later)
  {
    AuditTheorems.WriterStepsGrow(earlier, middle);
    AuditTheorems.WriterStepsGrow(middle, later);
  }

  class AsyncAuditPipeline {
    const queue: BoundedAuditQueue
    const cfg: Config
    var writerState: WriterState
    var enqueuedSnapshots: nat
    var persistedSnapshots: nat
    var droppedSnapshots: nat
    var writerFailureCount: nat
    var queueFullCount: nat
    var forcedStop: bool
    var inFlightBatch: seq<Entry>
    var abandonedInFlight: bool
    var closeResult: Close
    ghost var m: State
    ghost var trace: seq<Event>

    /** `m` is the state that `trace` leads to. */
    ghost predicate Linked()
      reads this
    {
      cfg.Valid() && ValidRun(Init(cfg), trace) && m == Run(Init(cfg), trace)
    }

    /** Every field but `writerState` is that of `s`. */
    ghost predicate Agrees(s: State)
      reads this, queue
    {
      && queue.capacity == cfg.capacity && s.cfg == cfg
      && queue.items == s.queue && queue.accepting == s.accepting
      && enqueuedSnapshots == s.enqueued && persistedSnapshots == s.persisted && droppedSnapshots == s.dropped
      && writerFailureCount == s.failures && queueFullCount == s.queueFull
      && forcedStop == s.forcedStop && inFlightBatch == s.inFlight && abandonedInFlight == s.abandoned
      && closeResult == s.close
    }

    /** Everything is up to date but, perhaps, `writerState`. */
    ghost predicate InStep()
      reads this, queue
    {
      Linked() && Agrees(m)
    }

    ghost predicate Valid()
      reads this, queue
    {
      InStep() && writerState == m.writerState
    }

    constructor (cfg: Config)
      requires cfg.Valid()
      ensures Valid() && fresh(queue) && this.cfg == cfg && m == Init(cfg)
    {
      this.cfg := cfg;
      queue := new BoundedAuditQueue(cfg.capacity);
      writerState := IDLE;
      enqueuedSnapshots, persistedSnapshots, droppedSnapshots := 0, 0, 0;
      writerFailureCount, queueFullCount := 0, 0;
      forcedStop, inFlightBatch, abandonedInFlight, closeResult := false, [], false, NotRequested;
      m, trace := Init(cfg), [];
    }

    /** Records that the stretch just executed was the step `e`. */
    ghost method Advance(e: Event)
      requires Linked() && Enabled(m, e) && Agrees(Apply(m, e))
      modifies this`m, this`trace
      ensures InStep() && m == Apply(old(m), e) && trace == old(trace) + [e]
    {
      TraceGrows(Init(cfg), trace, e);
      trace := trace + [e];
      m := Apply(m, e);
    }

    method RecordDrop(snapshotCount: nat)
      modifies this`droppedSnapshots, this`writerFailureCount
      ensures droppedSnapshots == old(droppedSnapshots) + snapshotCount
      ensures writerFailureCount == old(writerFailureCount) + 1
    {
      droppedSnapshots := droppedSnapshots + snapshotCount;
      RecordFailure();
    }

    method RecordFailure()
      modifies this`writerFailureCount
      ensures writerFailureCount == old(writerFailureCount) + 1
    {
      writerFailureCount := writerFailureCount + 1;
    }

    /** A failed write whose entries are given up: a failure and a drop. */
    method RecordRejection(snapshotCount: nat)
      modifies this`droppedSnapshots, this`writerFailureCount
      ensures droppedSnapshots == old(droppedSnapshots) + snapshotCount
      ensures writerFailureCount == old(writerFailureCount) + 2
    {
      RecordFailure();
      RecordDrop(snapshotCount);
    }

    method OfferSnapshot(payload: string) returns (offered: bool)
      requires Valid() && !m.writer.AtTop?
      modifies this, queue
      ensures Valid() && m == Apply(old(m), Offer(Snapshot(payload)))
          && trace == old(trace) + [Offer(Snapshot(payload))]
      ensures offered <==> enqueuedSnapshots == old(enqueuedSnapshots) + 1
    {
      offered := queue.Offer(Snapshot(payload));
      if offered {
        enqueuedSnapshots := enqueuedSnapshots + 1;
      } else {
        RecordDrop(1);
        if queue.accepting {
          queueFullCount := queueFullCount + 1;
        }
      }
      Advance(Offer(Snapshot(payload)));
    }

    method OfferLegacy(payload: string) returns (offered: bool)
      requires Valid() && !m.writer.AtTop?
      modifies this, queue
      ensures Valid() && m == Apply(old(m), Offer(LegacyRuntime(payload)))
      ensures trace == old(trace) + [Offer(LegacyRuntime(payload))]
      ensures offered <==> |queue.items| == |old(queue.items)| + 1
    {
      offered := queue.Offer(LegacyRuntime(payload));
      if !offered {
        if queue.accepting {
          queueFullCount := queueFullCount + 1;
        }
        RecordFailure();
      }
      Advance(Offer(LegacyRuntime(payload)));
    }

    /** `closeOnce` up to its await of the worker. */
    method BeginClose()
      requires Valid() && Enabled(m, CloseStart)
      modifies this, queue
      ensures Valid() && m == Apply(old(m), CloseStart) && trace == old(trace) + [CloseStart]
    {
      writerState := STOPPING;
      queue.StopAccepting();
      closeResult := AwaitingWorker;
      Advance(CloseStart);
    }

    /** `closeOnce` after its await: the worker completed in time, or the timer fired. */
    method FinishClose(completed: bool)
      requires Valid() && Enabled(m, if completed then CloseFlushed else CloseTimeout)
      modifies this, queue
      ensures Valid() && m == Apply(old(m), if completed then CloseFlushed else CloseTimeout)
      ensures trace == old(trace) + [if completed then CloseFlushed else CloseTimeout]
      ensures closeResult == if completed then Closed(true, 0)
                             else Closed(false, |old(queue.items)| + |old(inFlightBatch)|)
    {
      if completed {
        closeResult := Closed(true, 0);
        Advance(CloseFlushed);
      } else {
        AbandonRemaining();
      }
    }

    /** The timer fired first: what is queued is dropped and the batch in flight is abandoned. */
    method AbandonRemaining()
      requires Valid() && Enabled(m, CloseTimeout)
      modifies this, queue
      ensures Valid() && m == Apply(old(m), CloseTimeout) && trace == old(trace) + [CloseTimeout]
      ensures closeResult == Closed(false, |old(queue.items)| + |old(inFlightBatch)|)
    {
      DropRemaining();
      Advance(CloseTimeout);
    }

    method DropRemaining()
      modifies this`forcedStop, this`abandonedInFlight, this`droppedSnapshots, this`writerFailureCount,
          this`closeResult, queue
      ensures forcedStop && queue.items == [] && queue.accepting == old(queue.accepting)
      ensures abandonedInFlight <==> |inFlightBatch| > 0
      ensures droppedSnapshots == old(droppedSnapshots) + CountSnapshots(old(queue.items))
          + CountSnapshots(inFlightBatch)
      ensures writerFailureCount == old(writerFailureCount) + 1
      ensures closeResult == Closed(false, |old(queue.items)| + |inFlightBatch|)
    {
      forcedStop := true;
      var droppedEntries := queue.DropAll();
      var snapshotCount := CountSnapshots(droppedEntries) + CountSnapshots(inFlightBatch);
      var droppedTotal := |droppedEntries| + |inFlightBatch|;
      abandonedInFlight := |inFlightBatch| > 0;
      RecordDrop(snapshotCount);
      closeResult := Closed(false, droppedTotal);
    }

    /** An await of the writer: any producers and the shutdown may run before it resumes. */
    method Await()
      requires Valid() && Suspended(m.writer) && !m.writer.Stopped?
      modifies this, queue
      ensures Valid() && m.writer == old(m.writer) && old(trace) <= trace
    {
      var n: nat := *;
      while n > 0
        invariant Valid() && m.writer == old(m.writer) && old(trace) <= trace
        decreases n
      {
        n := n - 1;
        var choice: nat, payload: string := *, *;
        if choice == 0 {
          var _ := OfferSnapshot(payload);
        } else if choice == 1 {
          var _ := OfferLegacy(payload);
        } else if closeResult.NotRequested? {
          BeginClose();
        } else if closeResult.AwaitingWorker? {
          FinishClose(false);
        }
      }
    }

    method AwaitSink() returns (outcome: SinkOutcome)
      requires Valid() && Suspended(m.writer) && !m.writer.Stopped?
      modifies this, queue
      ensures Valid() && m.writer == old(m.writer) && old(trace) <= trace
    {
      Await();
      outcome := *;
    }

    /** Takes the next batch in flight, within the step `e`. */
    method TakeBatch(ghost e: Event) returns (batch: seq<Entry>)
      requires Valid() && Enabled(m, e) && Apply(m, e) == Drain(m)
      modifies this, queue
      ensures trace == old(trace) + [e]
      ensures batch == [] ==> Valid() && m.writer.AtTop?
      ensures batch != [] ==> Writes(Writing(batch, 0))
    {
      batch := queue.Drain(cfg.batchSize);
      assert batch == m.queue[..Min(cfg.batchSize, |m.queue|)] && queue.items == m.queue[|batch|..];
      if |batch| > 0 {
        inFlightBatch := batch;
        abandonedInFlight := false;
      }
      Advance(e);
    }

    lemma StoppedBooks()
      requires Valid() && m.writer.Stopped?
      ensures queue.items == [] && inFlightBatch == [] && writerState == STOPPED
      ensures persistedSnapshots + droppedSnapshots == m.h.offered + CountSnapshots(m.h.overlapped)
    {
      AuditTheorems.InvOfReachable(cfg, trace);
    }

    method WaitForWork()
      requires Valid() && m.writer.AtTop? && !forcedStop && queue.accepting && queue.items == []
      modifies this, queue
      ensures Valid() && m.writer.AtTop? && Progress(old(trace), trace)
    {
      writerState := if queue.accepting then IDLE else STOPPING;
      Advance(Turn);
      Await();
      Advance(WaitDone);
      WriterStepIsProgress(old(trace), Turn, trace);
    }

    method ClearInFlight()
      requires Valid() && m.writer.Returned?
      modifies this
      ensures Valid() && m.writer.AtTop? && trace == old(trace) + [Resume]
    {
      inFlightBatch := [];
      Advance(Resume);
    }

    method StopWriter()
      requires Valid() && m.writer.AtTop? && (forcedStop || !(queue.accepting || |queue.items| > 0))
      modifies this
      ensures Valid() && m.writer.Stopped? && trace == old(trace) + [Turn]
      ensures writerState == STOPPED && queue.items == [] && inFlightBatch == []
      ensures persistedSnapshots + droppedSnapshots == m.h.offered + CountSnapshots(m.h.overlapped)
    {
      writerState := STOPPED;
      Advance(Turn);
      StoppedBooks();
    }

    /** The next batch, after the flush delay when the queue holds less than a batch. */
    method NextBatch() returns (batch: seq<Entry>)
      requires Valid() && m.writer.AtTop? && !forcedStop && |queue.items| > 0
      modifies this, queue
      ensures Progress(old(trace), trace)
      ensures batch == [] ==> Valid() && m.writer.AtTop?
      ensures batch != [] ==> Writes(Writing(batch, 0))
    {
      ghost var e := Turn;
      if |queue.items| < cfg.batchSize && queue.accepting && cfg.flushIntervalMs > 0 {
        Advance(Turn);
        Await();
        e := FlushDone;
      }
      ghost var before := trace;
      batch := TakeBatch(e);
      WriterStepIsProgress(before, e, trace);
      ProgressExtends(old(trace), before, trace);
    }

    /** One turn of the writer loop. */
    method WriterTurn()
      requires Valid() && m.writer.AtTop? && !forcedStop && (queue.accepting || |queue.items| > 0)
      modifies this, queue
      ensures Valid() && m.writer.AtTop? && Progress(old(trace), trace)
    {
      if |queue.items| == 0 {
        WaitForWork();
        return;
      }
      var batch := NextBatch();
      if |batch| == 0 {
        return;
      }
      ghost var before := trace;
      PersistWithPolicy(batch);
      ClearInFlight();
      ProgressExtends(old(trace), before, trace);
    }

    /** `turns` bounds the number of loop iterations: the original loops for as long as it is
        accepting. Once the queue is closed, `StepsLeft` turns are enough to stop. */
    method RunWriter(turns: nat)
      requires Valid() && m.writer.AtTop?
      modifies this, queue
      ensures Valid() && old(trace) <= trace
      ensures m.writer.Stopped? || m.writer.AtTop?
      ensures m.writer.Stopped? ==>
                && writerState == STOPPED && queue.items == [] && inFlightBatch == []
                && persistedSnapshots + droppedSnapshots == m.h.offered + CountSnapshots(m.h.overlapped)
      ensures !old(queue.accepting) && turns >= AuditInvariants.StepsLeft(old(m)) ==> m.writer.Stopped?
    {
      var left := turns;
      ghost var start := trace;
      while left > 0 && !forcedStop && (queue.accepting || |queue.items| > 0)
        invariant Valid() && m.writer.AtTop? && start <= trace
        invariant AuditTheorems.WriterSteps(trace) >= AuditTheorems.WriterSteps(start) + (turns - left)
        decreases left
      {
        left := left - 1;
        WriterTurn();
      }
      EnoughTurns(start, turns - left);
      if forcedStop || !(queue.accepting || |queue.items| > 0) {
        StopWriter();
      }
    }

    /** From a closed queue the writer cannot take as many steps as it has left and still be at
        the top of its loop with work to do. */
    lemma EnoughTurns(start: seq<Event>, steps: nat)
      requires Valid() && m.writer.AtTop? && start <= trace && ValidRun(Init(cfg), start)
      requires AuditTheorems.WriterSteps(trace) >= AuditTheorems.WriterSteps(start) + steps
      ensures !Run(Init(cfg), start).accepting ==>
                !queue.accepting && steps < AuditInvariants.StepsLeft(Run(Init(cfg), start))
    {
      if !Run(Init(cfg), start).accepting {
        AuditTheorems.WriterEndsBetween(cfg, start, trace);
        AuditInvariants.StepsLeftAtTop(m);
      }
    }

    /** The writer is about to await the sink at `w`. */
    ghost predicate Writes(w: Writer)
      reads this, queue
    {
      InStep() && m.writer == w && m.writerState == WRITING
    }

    method BatchStored(batch: seq<Entry>)
      requires Valid() && m.writer.Writing? && m.writer.batch == batch
      modifies this
      ensures Valid() && m.writer.Returned? && trace == old(trace) + [WriteOk]
    {
      if !abandonedInFlight {
        persistedSnapshots := persistedSnapshots + CountSnapshots(batch);
      }
      Advance(WriteOk);
    }

    method PersistWithPolicy(batch: seq<Entry>)
      requires Writes(Writing(batch, 0)) && batch != []
      modifies this, queue
      ensures Valid() && m.writer.Returned? && old(trace) <= trace
    {
      var attempt := 0;
      while attempt <= cfg.retryAttempts
        invariant attempt <= cfg.retryAttempts && old(trace) <= trace
        invariant Writes(Writing(batch, attempt))
        decreases cfg.retryAttempts - attempt
      {
        writerState := WRITING;
        var outcome := AwaitSink();
        if outcome.Stored? {
          BatchStored(batch);
          return;
        }
        var again := BatchRejected(batch, attempt, outcome.retryable);
        if !again {
          return;
        }
        attempt := attempt + 1;
      }
    }

    /** The catch block of the retry loop: `again` asks for another attempt. */
    method BatchRejected(batch: seq<Entry>, attempt: nat, retryable: bool) returns (again: bool)
      requires Valid() && m.writer == Writing(batch, attempt) && batch != []
      modifies this, queue
      ensures old(trace) <= trace
      ensures !again ==> Valid() && m.writer.Returned?
      ensures again ==> Writes(Writing(batch, attempt + 1)) && attempt < cfg.retryAttempts
    {
      if forcedStop {
        RecordFailure();
        Advance(WriteFail(retryable));
        return false;
      }
      if !retryable {
        IsolatePoisonEntries(batch);
        return false;
      }
      if attempt >= cfg.retryAttempts {
        ExhaustRetries(batch, attempt);
        return false;
      }
      BackOff(batch, attempt);
      Await();
      Advance(BackoffDone);
      return true;
    }

    method ExhaustRetries(batch: seq<Entry>, attempt: nat)
      requires Valid() && m.writer == Writing(batch, attempt) && !forcedStop && attempt >= cfg.retryAttempts
      modifies this
      ensures Valid() && m.writer.Returned? && trace == old(trace) + [WriteFail(true)]
    {
      RecordRejection(CountSnapshots(batch));
      Advance(WriteFail(true));
    }

    method BackOff(batch: seq<Entry>, attempt: nat)
      requires Valid() && m.writer == Writing(batch, attempt) && !forcedStop && attempt < cfg.retryAttempts
      modifies this
      ensures Valid() && m.writer == BackingOff(batch, attempt) && trace == old(trace) + [WriteFail(true)]
    {
      RecordFailure();
      writerState := BACKOFF;
      Advance(WriteFail(true));
    }

    /** The refused batch is a single entry: it is dropped, nothing is left to isolate. */
    method DropPoisonEntry(batch: seq<Entry>)
      requires Valid() && m.writer.Writing? && m.writer.batch == batch && |batch| == 1 && !forcedStop
      modifies this
      ensures Valid() && m.writer.Returned? && trace == old(trace) + [WriteFail(false)]
    {
      RecordRejection(CountSnapshots(batch));
      Advance(WriteFail(false));
    }

    method BeginIsolation(batch: seq<Entry>)
      requires Valid() && m.writer.Writing? && m.writer.batch == batch && |batch| > 1 && !forcedStop
      modifies this
      ensures Writes(Isolating(batch, 0)) && trace == old(trace) + [WriteFail(false)]
    {
      RecordFailure();
      Advance(WriteFail(false));
    }

    method IsolatePoisonEntries(batch: seq<Entry>)
      requires Valid() && m.writer.Writing? && m.writer.batch == batch && batch != [] && !forcedStop
      modifies this, queue
      ensures Valid() && m.writer.Returned? && old(trace) <= trace
    {
      if |batch| == 1 {
        DropPoisonEntry(batch);
        return;
      }
      BeginIsolation(batch);
      var next := 0;
      while next < |batch|
        invariant next <= |batch| && old(trace) <= trace
        invariant next < |batch| ==> Writes(Isolating(batch, next))
        invariant next == |batch| ==> Valid() && m.writer.Returned?
      {
        WriteEntry(batch, next);
        next := next + 1;
      }
    }

    method WriteEntry(batch: seq<Entry>, next: nat)
      requires next < |batch| && Writes(Isolating(batch, next))
      modifies this, queue
      ensures old(trace) <= trace
      ensures next + 1 < |batch| ==> Writes(Isolating(batch, next + 1))
      ensures next + 1 == |batch| ==> Valid() && m.writer.Returned?
    {
      writerState := WRITING;
      var outcome := AwaitSink();
      if outcome.Stored? {
        EntryStored(batch, next);
      } else {
        EntryRejected(batch, next);
      }
    }

    method EntryStored(batch: seq<Entry>, next: nat)
      requires Valid() && m.writer == Isolating(batch, next) && next < |batch|
      modifies this
      ensures trace == old(trace) + [EntryOk]
      ensures next + 1 < |batch| ==> Writes(Isolating(batch, next + 1))
      ensures next + 1 == |batch| ==> Valid() && m.writer.Returned?
    {
      persistedSnapshots := persistedSnapshots + CountSnapshots([batch[next]]);
      Advance(EntryOk);
    }

    method EntryRejected(batch: seq<Entry>, next: nat)
      requires Valid() && m.writer == Isolating(batch, next) && next < |batch|
      modifies this
      ensures trace == old(trace) + [EntryFail]
      ensures next + 1 < |batch| ==> Writes(Isolating(batch, next + 1))
      ensures next + 1 == |batch| ==> Valid() && m.writer.Returned?
    {
      RecordRejection(CountSnapshots([batch[next]]));
      Advance(EntryFail);
    }
  }
}

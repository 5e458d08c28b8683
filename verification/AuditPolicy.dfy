/** The policies of the pipeline in terms of what happens: when the writer takes a batch and
    which one, when it waits, what an offer does, and what becomes of a batch the sink refuses.
    Each statement compares the states before and after one event; `BatchesOverRuns` carries
    the batching policy over whole runs. */
module AuditPolicy {
  import opened AuditMachine
  import opened AuditInvariants
  import opened AuditTheorems

  // ----- which batch is taken, and when

  /** A full batch, or all there is. */
  function Due(s: State): nat {
    if |s.queue| < s.cfg.batchSize then |s.queue| else s.cfg.batchSize
  }

  /** Less than a batch is queued, more may come, and the writer is to wait for it. */
  predicate WorthWaiting(s: State) {
    |s.queue| < s.cfg.batchSize && s.accepting && s.cfg.flushIntervalMs > 0
  }

  /** `batch` is taken from the front of the queue in one step. */
  predicate Takes(s: State, s': State, batch: seq<Entry>) {
    && batch == s.queue[..Due(s)] && batch != []
    && s'.queue == s.queue[Due(s)..]
    && s'.inFlight == batch && s'.writer == Writing(batch, 0) && s'.writerState == WRITING
    && s'.h.batches == s.h.batches + [batch]
    && s'.h.batchWrites == 1 && s'.h.singleWrites == 0 && s'.h.backoffMs == 0
  }

  /** What no writer step touches but the answer of the sink. */
  predicate SameBooks(s: State, s': State) {
    && s'.persisted == s.persisted && s'.dropped == s.dropped && s'.failures == s.failures
    && s'.enqueued == s.enqueued && s'.queueFull == s.queueFull
    && s'.h.log == s.h.log && s'.h.accepted == s.h.accepted && s'.h.offered == s.h.offered
    && s'.accepting == s.accepting && s'.forcedStop == s.forcedStop && s'.close == s.close
  }

  /** Only the writer at the top of its loop and the end of the flush delay take a batch, and
      it is the front of the queue; a batch that is not full is taken at the top only if waiting
      for more is pointless. */
  lemma BatchTaken(s: State, e: Event)
    requires Enabled(s, e) && s.cfg.Valid() && Apply(s, e).h.batches != s.h.batches
    ensures e.Turn? || e.FlushDone?
    ensures Takes(s, Apply(s, e), s.queue[..Due(s)]) && SameBooks(s, Apply(s, e))
    ensures WorthWaiting(s) ==> e.FlushDone?
  {
    BatchTakenBy(s, e);
  }

  lemma BatchTakenBy(s: State, e: Event)
    requires Enabled(s, e) && Apply(s, e).h.batches != s.h.batches
    ensures e.Turn? || e.FlushDone?
  {
  }

  /** What the writer does at the top of its loop: it stops, waits for work, lets the queue
      fill up for the flush interval, or takes a batch, each in exactly one situation. */
  lemma TurnExactly(s: State)
    requires Enabled(s, Turn) && s.cfg.Valid()
    ensures var s' := Apply(s, Turn);
      && (s'.writer.Stopped? <==> s.forcedStop || (!s.accepting && s.queue == []))
      && (s'.writer.WaitingForWork? <==> !s.forcedStop && s.accepting && s.queue == [])
      && (s'.writer.FlushDelay? <==> !s.forcedStop && s.queue != [] && WorthWaiting(s))
      && (s'.writer.Writing? <==> !s.forcedStop && s.queue != [] && !WorthWaiting(s))
      && (s'.writer.Writing? ==> Takes(s, s', s.queue[..Due(s)]))
      && (!s'.writer.Writing? ==> s'.queue == s.queue && s'.inFlight == s.inFlight && s'.h.batches == s.h.batches)
      && (s'.writerState == (if s'.writer.Stopped? then STOPPED
                             else if s'.writer.Writing? then WRITING
                             else if s'.writer.WaitingForWork? then IDLE else s.writerState))
      && SameBooks(s, s')
  {
  }

  /** After the flush delay the writer takes what is there, full batch or not; only a queue
      that the shutdown emptied sends it back to its loop. */
  lemma FlushDelayEnds(s: State)
    requires Enabled(s, FlushDone) && s.cfg.Valid()
    ensures var s' := Apply(s, FlushDone);
      && SameBooks(s, s')
      && (s.queue != [] ==> Takes(s, s', s.queue[..Due(s)]))
      && (s.queue == [] ==> s' == s.(writer := AtTop))
  {
  }

  /** Where in the run the `k`-th batch was taken: as the front of the queue of that moment, and
      short only after the flush delay, or when no entry could join it, or with no delay set. */
  predicate TakenAt(cfg: Config, events: seq<Event>, j: nat, k: nat)
    requires ValidRun(Init(cfg), events) && j < |events| && k < |Run(Init(cfg), events).h.batches|
    requires ValidRun(Init(cfg), events[..j])
  {
    var before, batch := Run(Init(cfg), events[..j]), Run(Init(cfg), events).h.batches[k];
    && |before.h.batches| == k
    && batch == before.queue[..Due(before)] && 0 < |batch| <= cfg.batchSize
    && (events[j].Turn? || events[j].FlushDone?)
    && (|batch| < cfg.batchSize ==>
        (events[j].FlushDone? || !before.accepting || cfg.flushIntervalMs == 0) && batch == before.queue)
  }

  lemma {:induction false} PrefixValid(s: State, events: seq<Event>, j: nat)
    requires ValidRun(s, events) && j <= |events|
    ensures ValidRun(s, events[..j])
  {
    if j < |events| {
      var k := |events| - 1;
      PrefixValid(s, events[..k], j);
      assert events[..k][..j] == events[..j];
    } else {
      assert events[..j] == events;
    }
  }

  /** Every batch of a run was taken at some event of the run by the policy. */
  lemma {:induction false} BatchesOverRuns(cfg: Config, events: seq<Event>, k: nat) returns (j: nat)
    requires cfg.Valid() && ValidRun(Init(cfg), events) && k < |Run(Init(cfg), events).h.batches|
    ensures j < |events| && ValidRun(Init(cfg), events[..j]) && TakenAt(cfg, events, j, k)
  {
    j := |events| - 1;
    var s := Run(Init(cfg), events[..j]);
    ConfigStays(cfg, events[..j]);
    BatchesGrow(s, events[j]);
    if k < |s.h.batches| {
      var i := BatchesOverRuns(cfg, events[..j], k);
      assert events[..j][..i] == events[..i];
      j := i;
    } else {
      BatchTaken(s, events[j]);
    }
  }

  lemma ConfigStays(cfg: Config, events: seq<Event>)
    requires cfg.Valid() && ValidRun(Init(cfg), events)
    ensures Run(Init(cfg), events).cfg == cfg
  {
    OverlapWithinBatch(cfg, events);
  }

  lemma BatchesGrow(s: State, e: Event)
    requires Enabled(s, e) && s.cfg.Valid()
    ensures s.h.batches <= Apply(s, e).h.batches
  {
    if Apply(s, e).h.batches != s.h.batches {
      BatchTaken(s, e);
    }
  }

  // ----- what an offer does

  /** An offer is taken exactly by a queue that accepts and has room, at its end; a refusal is
      a failure and a loss, and counts as a full queue while the pipeline is open. */
  lemma OfferMeaning(s: State, entry: Entry)
    requires Enabled(s, Offer(entry))
    ensures var s' := Apply(s, Offer(entry)); var room := s.accepting && |s.queue| < s.cfg.capacity;
      var snapshots := if entry.Snapshot? then 1 else 0;
      && s'.queue == (if room then s.queue + [entry] else s.queue)
      && s'.h.accepted == (if room then s.h.accepted + [entry] else s.h.accepted)
      && s'.enqueued - s.enqueued == (if room then snapshots else 0)
      && s'.dropped - s.dropped == (if room then 0 else snapshots)
      && s'.failures - s.failures == (if room then 0 else 1)
      && s'.queueFull - s.queueFull == (if s.accepting && |s.queue| >= s.cfg.capacity then 1 else 0)
      && s'.h.offered - s.h.offered == snapshots
      && s'.persisted == s.persisted && s'.writer == s.writer && s'.h.log == s.h.log && s'.inFlight == s.inFlight
      && s'.accepting == s.accepting && s'.close == s.close && s'.h.batches == s.h.batches
  {
  }

  // ----- what becomes of a batch

  /** The whole batch is stored by one answer; an abandoned one is no longer counted. */
  lemma WriteOkMeaning(s: State)
    requires Enabled(s, WriteOk)
    ensures var s' := Apply(s, WriteOk);
      && s'.h.log == s.h.log + s.writer.batch && s'.writer == Returned
      && s'.persisted - s.persisted == (if s.abandoned then 0 else CountSnapshots(s.writer.batch))
      && s'.dropped == s.dropped && s'.failures == s.failures && s'.queue == s.queue
  {
  }

  /** What a refused batch comes to. */
  datatype Fate = LeftToShutdown | Rejected | Isolated | Exhausted | Retried

  function FateOf(s: State, retryable: bool): Fate
    requires s.writer.Writing?
  {
    if s.forcedStop then LeftToShutdown
    else if !retryable then (if |s.writer.batch| == 1 then Rejected else Isolated)
    else if s.h.batchWrites > s.cfg.retryAttempts then Exhausted
    else Retried
  }

  /** The retry policy: a refused batch is tried again until it has been written
      `retryAttempts + 1` times, after delays that double; a poisoned one is dropped if it is a
      single entry and written entry by entry otherwise; after a forced stop it is left as it
      is. A batch given up on is dropped once, with one failure beside that of the write. */
  lemma WriteFailMeaning(s: State, retryable: bool)
    requires Inv(s) && Enabled(s, WriteFail(retryable))
    ensures var s', fate := Apply(s, WriteFail(retryable)), FateOf(s, retryable);
      && (s'.writer.Isolating? <==> fate.Isolated?)
      && (s'.writer.BackingOff? <==> fate.Retried?)
      && (s'.writer.Returned? <==> fate.LeftToShutdown? || fate.Rejected? || fate.Exhausted?)
      && (fate.Isolated? ==> s'.writer == Isolating(s.writer.batch, 0) && s'.writerState == WRITING)
      && (fate.Retried? ==> s'.writer.batch == s.writer.batch && s'.writerState == BACKOFF)
      && s'.dropped - s.dropped == (if fate.Rejected? || fate.Exhausted? then CountSnapshots(s.writer.batch) else 0)
      && s'.failures - s.failures == (if fate.Rejected? || fate.Exhausted? then 2 else 1)
      && s'.h.log == s.h.log && s'.persisted == s.persisted && s'.queue == s.queue
  {
  }

  /** The n-th retry waits twice as long as the one before it. */
  lemma BackoffMeaning(s: State)
    requires Inv(s) && Enabled(s, WriteFail(true)) && FateOf(s, true).Retried?
    ensures Apply(s, WriteFail(true)).h.backoffMs == 2 * s.h.backoffMs + s.cfg.retryBaseDelayMs
    ensures Enabled(Apply(s, WriteFail(true)), BackoffDone)
    ensures var s' := Apply(Apply(s, WriteFail(true)), BackoffDone);
      && s'.writer.Writing? && s'.writer.batch == s.writer.batch && s'.h.batchWrites == s.h.batchWrites + 1
      && s'.writerState == WRITING && s'.dropped == s.dropped && s'.h.log == s.h.log
  {
    Doubling(s.cfg.retryBaseDelayMs, Pow2(s.writer.attempt));
  }

  lemma Doubling(base: nat, power: int)
    ensures base * (power - 1) + base * power == 2 * (base * (power - 1)) + base
  {
  }

  /** A poisoned batch is settled entry by entry: each entry is stored and counted, or dropped
      with two failures, and the next one is written until none is left. */
  lemma EntryMeaning(s: State, ok: bool)
    requires s.writer.Isolating? && s.writer.next < |s.writer.batch|
    ensures var s' := Apply(s, if ok then EntryOk else EntryFail);
      var entry, last := s.writer.batch[s.writer.next], s.writer.next + 1 == |s.writer.batch|;
      var snapshots := if entry.Snapshot? then 1 else 0;
      && s'.h.log == (if ok then s.h.log + [entry] else s.h.log)
      && s'.persisted - s.persisted == (if ok then snapshots else 0)
      && s'.dropped - s.dropped == (if ok then 0 else snapshots)
      && s'.failures - s.failures == (if ok then 0 else 2)
      && s'.writer == (if last then Returned else Isolating(s.writer.batch, s.writer.next + 1))
      && s'.h.singleWrites - s.h.singleWrites == (if last then 0 else 1)
      && s'.queue == s.queue && s'.inFlight == s.inFlight && s'.h.batches == s.h.batches
  {
    OneCounted(s.writer.batch[s.writer.next]);
  }

  /** The sink grows only by what it confirms. */
  lemma OnlyAnswersStore(s: State, e: Event)
    requires Enabled(s, e) && Apply(s, e).h.log != s.h.log
    ensures e.WriteOk? || e.EntryOk?
  {
  }

  // ----- the shutdown

  /** Closing refuses further offers at once and leaves the writer what is queued; a close that
      sees the writer stop in time drops nothing. */
  lemma CloseMeaning(s: State)
    ensures Enabled(s, CloseStart) ==> (var s' := Apply(s, CloseStart);
      && !s'.accepting && s'.close.AwaitingWorker? && s'.writerState == STOPPING
      && s'.queue == s.queue && s'.inFlight == s.inFlight && s'.writer == s.writer
      && s'.dropped == s.dropped && s'.failures == s.failures && s'.forcedStop == s.forcedStop)
    ensures Enabled(s, CloseFlushed) ==> s.writer.Stopped? && Apply(s, CloseFlushed) == s.(close := Closed(true, 0))
  {
  }

  /** The close timer drops what is queued and in flight, counts one failure, and reports the
      number of entries, of either kind. */
  lemma CloseTimeoutMeaning(s: State)
    requires Inv(s) && Enabled(s, CloseTimeout)
    ensures var s' := Apply(s, CloseTimeout);
      && s'.close == Closed(false, |s.queue| + |s.inFlight|) && s'.forcedStop && s'.queue == []
      && s'.dropped - s.dropped == CountSnapshots(s.queue + s.inFlight)
      && s'.failures == s.failures + 1 && s'.persisted == s.persisted
      && (s'.abandoned <==> s.inFlight != []) && s'.writer == s.writer && !s'.accepting
  {
    CountConcat(s.queue, s.inFlight);
  }
}

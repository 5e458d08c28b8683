/** The audit pipeline of `AsyncAuditPipeline` as a step machine.

    JavaScript runs every stretch of code between two awaits without interruption, so the
    pipeline is a machine whose steps are those stretches: producers offering entries, the
    writer loop resuming after an await, and the shutdown. What the sink answers, when a
    timer fires and who offers when are left open: every order of events that the event
    loop allows is a run of this machine.
 */
module AuditMachine {
  import opened Wrappers

  datatype Entry = Snapshot(payload: string) | LegacyRuntime(payload: string)

  datatype Config = Config(capacity: nat, batchSize: nat, flushIntervalMs: nat, retryAttempts: nat,
                           retryBaseDelayMs: nat)
  {
    predicate Valid() {
      capacity > 0 && batchSize > 0
    }
  }

  /** Where the writer is suspended. `AtTop` and `Returned` are points inside one
      uninterrupted stretch: no timer callback runs there. */
  datatype Writer =
    | AtTop                                      // about to test the loop condition
    | WaitingForWork
    | FlushDelay
    | Writing(batch: seq<Entry>, attempt: nat)   // awaiting the sink on the whole batch
    | BackingOff(batch: seq<Entry>, attempt: nat)
    | Isolating(batch: seq<Entry>, next: nat)    // awaiting the sink on batch[next] alone
    | Returned                                   // the persist call settled, the loop has not resumed
    | Stopped

  datatype WriterState = IDLE | WRITING | BACKOFF | STOPPING | STOPPED

  datatype Close = NotRequested | AwaitingWorker | Closed(flushed: bool, dropped: nat)

  /** What happened so far. The program keeps none of this; it is what the properties speak of. */
  datatype History = History(
    offered: nat,                 // snapshots ever offered
    accepted: seq<Entry>,         // every entry the queue took, in order
    batches: seq<seq<Entry>>,     // every batch the writer drained, in order
    timeoutDropped: seq<Entry>,   // what the shutdown timeout removed from the queue
    overlapped: seq<Entry>,       // the batch under isolation when the timeout struck, if any
    log: seq<Entry>,              // what the sink holds
    stored: seq<int>,             // for each log entry, its place in `accepted`
    batchWrites: nat,             // whole-batch writes spent on the current batch
    singleWrites: nat,            // one-entry writes spent on the current batch
    backoffMs: nat                // back-off delay spent on the current batch
  )

  datatype State = State(
    cfg: Config,
    queue: seq<Entry>,
    accepting: bool,
    writer: Writer,
    writerState: WriterState,
    enqueued: nat,
    persisted: nat,
    dropped: nat,
    failures: nat,
    queueFull: nat,
    forcedStop: bool,
    inFlight: seq<Entry>,
    abandoned: bool,
    close: Close,
    h: History
  )

  datatype Event =
    | Offer(entry: Entry)
    | CloseStart
    | CloseTimeout
    | CloseFlushed
    | Turn                        // the writer tests its loop condition
    | WaitDone
    | FlushDone
    | WriteOk
    | WriteFail(retryable: bool)
    | BackoffDone
    | EntryOk
    | EntryFail
    | Resume                      // the loop continues after the persist call

  // ----- counting and flattening

  function Weight(entry: Entry): nat {
    if entry.Snapshot? then 1 else 0
  }

  function CountSnapshots(entries: seq<Entry>): nat {
    if entries == [] then 0 else CountSnapshots(entries[..|entries| - 1]) + Weight(entries[|entries| - 1])
  }

  function Flatten(batches: seq<seq<Entry>>): seq<Entry> {
    if batches == [] then [] else Flatten(batches[..|batches| - 1]) + batches[|batches| - 1]
  }

  function Pow2(n: nat): nat {
    if n == 0 then 1 else 2 * Pow2(n - 1)
  }

  /** The positions `from`, `from + 1`, ..., `from + count - 1`. */
  function Positions(from: int, count: nat): seq<int> {
    seq(count, i => from + i)
  }

  // ----- the steps

  function Init(cfg: Config): State {
    State(cfg, [], true, AtTop, IDLE, 0, 0, 0, 0, 0, false, [], false, NotRequested,
          History(0, [], [], [], [], [], [], 0, 0, 0))
  }

  predicate Suspended(w: Writer) {
    !w.AtTop? && !w.Returned?
  }

  predicate Enabled(s: State, e: Event) {
    match e
    case Offer(_) => !s.writer.AtTop?
    case CloseStart => s.close.NotRequested? && !s.writer.AtTop?
    case CloseTimeout => s.close.AwaitingWorker? && Suspended(s.writer) && !s.writer.Stopped?
    case CloseFlushed => s.close.AwaitingWorker? && s.writer.Stopped?
    case Turn => s.writer.AtTop?
    case WaitDone => s.writer.WaitingForWork?
    case FlushDone => s.writer.FlushDelay?
    case WriteOk => s.writer.Writing?
    case WriteFail(_) => s.writer.Writing?
    case BackoffDone => s.writer.BackingOff?
    case EntryOk => s.writer.Isolating? && s.writer.next < |s.writer.batch|
    case EntryFail => s.writer.Isolating? && s.writer.next < |s.writer.batch|
    case Resume => s.writer.Returned?
  }

  predicate IsWriterEvent(e: Event) {
    !e.Offer? && !e.CloseStart? && !e.CloseTimeout? && !e.CloseFlushed?
  }

  function Apply(s: State, e: Event): State
    requires Enabled(s, e)
  {
    match e
    case Offer(entry) => ApplyOffer(s, entry)
    case CloseStart => s.(writerState := STOPPING, accepting := false, close := AwaitingWorker)
    case CloseTimeout => ApplyCloseTimeout(s)
    case CloseFlushed => s.(close := Closed(true, 0))
    case Turn => ApplyTurn(s)
    case WaitDone => s.(writer := AtTop)
    case FlushDone => Drain(s)
    case WriteOk => ApplyWriteOk(s)
    case WriteFail(retryable) => ApplyWriteFail(s, retryable)
    case BackoffDone =>
      s.(writer := Writing(s.writer.batch, s.writer.attempt + 1), writerState := WRITING,
         h := s.h.(batchWrites := s.h.batchWrites + 1))
    case EntryOk => ApplyEntryOk(s)
    case EntryFail =>
      NextEntry(s.(dropped := s.dropped + CountSnapshots([s.writer.batch[s.writer.next]]), failures := s.failures + 2))
    case Resume => s.(inFlight := [], writer := AtTop)
  }

  function ApplyOffer(s: State, entry: Entry): State {
    var taken := s.accepting && |s.queue| < s.cfg.capacity;
    var s1 := s.(h := s.h.(offered := s.h.offered + Weight(entry)));
    if taken then
      s1.(queue := s.queue + [entry], enqueued := s.enqueued + Weight(entry),
          h := s1.h.(accepted := s.h.accepted + [entry]))
    else
      s1.(dropped := s.dropped + Weight(entry), failures := s.failures + 1,
          queueFull := s.queueFull + if s.accepting then 1 else 0)
  }

  function ApplyCloseTimeout(s: State): State {
    s.(forcedStop := true, queue := [],
       dropped := s.dropped + CountSnapshots(s.queue) + CountSnapshots(s.inFlight),
       failures := s.failures + 1,
       abandoned := |s.inFlight| > 0,
       close := Closed(false, |s.queue| + |s.inFlight|),
       h := s.h.(timeoutDropped := s.queue,
                 overlapped := if s.writer.Isolating? then s.writer.batch else []))
  }

  function ApplyTurn(s: State): State {
    if s.forcedStop || !(s.accepting || |s.queue| > 0) then s.(writer := Stopped, writerState := STOPPED)
    else if |s.queue| == 0 then s.(writer := WaitingForWork, writerState := if s.accepting then IDLE else STOPPING)
    else if |s.queue| < s.cfg.batchSize && s.accepting && s.cfg.flushIntervalMs > 0 then s.(writer := FlushDelay)
    else Drain(s)
  }

  function Drain(s: State): State {
    var batch := s.queue[..Min(s.cfg.batchSize, |s.queue|)];
    if batch == [] then s.(writer := AtTop)
    else
      s.(queue := s.queue[|batch|..], inFlight := batch, abandoned := false,
         writer := Writing(batch, 0), writerState := WRITING,
         h := s.h.(batches := s.h.batches + [batch], batchWrites := 1, singleWrites := 0, backoffMs := 0))
  }

  /** The place in `accepted` of the first entry of the batch in flight. */
  function BatchStart(s: State): int {
    |Flatten(s.h.batches)| - |s.inFlight|
  }

  function ApplyWriteOk(s: State): State
    requires s.writer.Writing?
  {
    var batch := s.writer.batch;
    s.(persisted := s.persisted + (if s.abandoned then 0 else CountSnapshots(batch)), writer := Returned,
       h := s.h.(log := s.h.log + batch,
                 stored := s.h.stored + Positions(BatchStart(s), |batch|)))
  }

  function ApplyWriteFail(s: State, retryable: bool): State
    requires s.writer.Writing?
  {
    var batch, attempt := s.writer.batch, s.writer.attempt;
    var s1 := s.(failures := s.failures + 1);
    if s.forcedStop then s1.(writer := Returned)
    else if !retryable then
      if |batch| == 1 then
        s1.(dropped := s.dropped + CountSnapshots(batch), failures := s.failures + 2, writer := Returned)
      else
        s1.(writer := Isolating(batch, 0), writerState := WRITING, h := s.h.(singleWrites := s.h.singleWrites + 1))
    else if attempt >= s.cfg.retryAttempts then
      s1.(dropped := s.dropped + CountSnapshots(batch), failures := s.failures + 2, writer := Returned)
    else
      s1.(writer := BackingOff(batch, attempt), writerState := BACKOFF,
          h := s.h.(backoffMs := s.h.backoffMs + s.cfg.retryBaseDelayMs * Pow2(attempt)))
  }

  function ApplyEntryOk(s: State): State
    requires s.writer.Isolating? && s.writer.next < |s.writer.batch|
  {
    var entry := s.writer.batch[s.writer.next];
    NextEntry(s.(persisted := s.persisted + CountSnapshots([entry]),
                 h := s.h.(log := s.h.log + [entry],
                           stored := s.h.stored + [BatchStart(s) + s.writer.next])))
  }

  function NextEntry(s: State): State
    requires s.writer.Isolating? && s.writer.next < |s.writer.batch|
  {
    if s.writer.next + 1 < |s.writer.batch| then
      s.(writer := Isolating(s.writer.batch, s.writer.next + 1), writerState := WRITING,
         h := s.h.(singleWrites := s.h.singleWrites + 1))
    else s.(writer := Returned)
  }

  // ----- runs

  predicate ValidRun(s: State, events: seq<Event>)
    decreases events, 0
  {
    events == [] || (var k := |events| - 1; ValidRun(s, events[..k]) && Enabled(Run(s, events[..k]), events[k]))
  }

  function Run(s: State, events: seq<Event>): State
    requires ValidRun(s, events)
    decreases events, 1
  {
    if events == [] then s else var k := |events| - 1; Apply(Run(s, events[..k]), events[k])
  }
}

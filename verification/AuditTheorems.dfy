/** The properties of whole runs of the audit pipeline. */
module AuditTheorems {
  import opened AuditMachine
  import opened AuditInvariants

  /** `persistedSnapshots` never claims more than the sink holds. */
  predicate NeverOverstated(s: State) {
    && s.persisted <= CountSnapshots(s.h.log)
    && (!s.forcedStop ==> s.persisted == CountSnapshots(s.h.log))
  }

  lemma OneCounted(x: Entry)
    ensures CountSnapshots([x]) == Weight(x)
  {
    assert [x][..0] == [];
  }

  /** A single entry stored is a single entry counted. */
  lemma StoredEntryCounted(s: State)
    requires Enabled(s, EntryOk)
    ensures var s' := ApplyEntryOk(s);
      CountSnapshots(s'.h.log) - s'.persisted == CountSnapshots(s.h.log) - s.persisted
  {
    var entry := s.writer.batch[s.writer.next];
    CountSnoc(s.h.log, entry);
    OneCounted(entry);
  }

  lemma EntryStoredMovesOn(s: State)
    requires Enabled(s, EntryOk)
    ensures var s' := ApplyEntryOk(s);
      && s'.forcedStop == s.forcedStop && s'.h.overlapped == s.h.overlapped
      && (s'.writer.Returned? || s'.writer.Isolating?)
  {
  }

  lemma NeverOverstatedByEntry(s: State)
    requires Enabled(s, EntryOk) && NeverOverstated(s)
    ensures NeverOverstated(ApplyEntryOk(s))
  {
    StoredEntryCounted(s);
    EntryStoredMovesOn(s);
  }

  lemma NeverOverstatedKept(s: State, e: Event)
    requires Control(s) && Enabled(s, e) && NeverOverstated(s)
    ensures NeverOverstated(Apply(s, e))
  {
    if e.WriteOk? {
      CountConcat(s.h.log, s.writer.batch);
    } else if e.EntryOk? {
      NeverOverstatedByEntry(s);
    }
  }

  predicate Inv(s: State) {
    Control(s) && Batch(s) && Conserved(s) && Fifo(s) && AtMostOnce(s) && Costs(s) && NeverOverstated(s)
  }

  lemma CostsInit(cfg: Config)
    ensures Costs(Init(cfg))
  {
    Pow2Monotone(0, cfg.retryAttempts);
    MulMonotone(cfg.retryBaseDelayMs, 0, Pow2(cfg.retryAttempts) - 1);
  }

  lemma InvInit(cfg: Config)
    requires cfg.Valid()
    ensures Inv(Init(cfg))
  {
    CostsInit(cfg);
  }

  lemma InvKept(s: State, e: Event)
    requires Inv(s) && Enabled(s, e)
    ensures Inv(Apply(s, e))
  {
    ControlKept(s, e);
    BatchKept(s, e);
    ConservedKept(s, e);
    FifoKept(s, e);
    AtMostOnceKept(s, e);
    CostsKept(s, e);
    NeverOverstatedKept(s, e);
  }

  lemma {:induction false} InvOfRun(s: State, events: seq<Event>)
    requires Inv(s) && ValidRun(s, events)
    ensures Inv(Run(s, events))
  {
    if events != [] {
      var k := |events| - 1;
      InvOfRun(s, events[..k]);
      InvKept(Run(s, events[..k]), events[k]);
    }
  }

  lemma InvOfReachable(cfg: Config, events: seq<Event>)
    requires cfg.Valid() && ValidRun(Init(cfg), events)
    ensures Inv(Run(Init(cfg), events))
  {
    InvInit(cfg);
    InvOfRun(Init(cfg), events);
  }

  // ----- conservation

  function Accounted(s: State): nat {
    s.persisted + s.dropped + CountSnapshots(s.queue) + Unaccounted(s)
  }

  /** The close timer fired while poison entries were being written one by one. */
  predicate TimesOutInIsolation(s: State, events: seq<Event>)
    requires ValidRun(s, events)
  {
    events != [] &&
    (var k := |events| - 1;
     TimesOutInIsolation(s, events[..k]) || (events[k].CloseTimeout? && Run(s, events[..k]).writer.Isolating?))
  }

  lemma {:induction false} OverlapIsIsolationTimeout(cfg: Config, events: seq<Event>)
    requires cfg.Valid() && ValidRun(Init(cfg), events)
    ensures Run(Init(cfg), events).h.overlapped != [] <==> TimesOutInIsolation(Init(cfg), events)
  {
    if events != [] {
      var k := |events| - 1;
      OverlapIsIsolationTimeout(cfg, events[..k]);
      InvOfReachable(cfg, events[..k]);
      OverlapStep(Run(Init(cfg), events[..k]), events[k]);
    }
  }

  lemma OverlapStep(s: State, e: Event)
    requires Control(s) && Batch(s) && Conserved(s) && Enabled(s, e)
    ensures Apply(s, e).h.overlapped != [] <==> s.h.overlapped != [] || (e.CloseTimeout? && s.writer.Isolating?)
  {
  }

  /** Every offered snapshot is persisted, dropped, queued or in flight. The books balance
      in a reachable state exactly when no snapshot was in a batch that the close timer
      caught under isolation; otherwise they overstate by that batch's snapshots. */
  lemma ConservationOverRuns(cfg: Config, events: seq<Event>)
    requires cfg.Valid() && ValidRun(Init(cfg), events)
    ensures var s := Run(Init(cfg), events);
      && Accounted(s) == s.h.offered + CountSnapshots(s.h.overlapped)
      && (Accounted(s) == s.h.offered <==> CountSnapshots(s.h.overlapped) == 0)
      && |s.h.overlapped| <= cfg.batchSize
      && (!TimesOutInIsolation(Init(cfg), events) ==> Accounted(s) == s.h.offered)
  {
    InvOfReachable(cfg, events);
    OverlapIsIsolationTimeout(cfg, events);
    OverlapWithinBatch(cfg, events);
  }

  lemma {:induction false} OverlapWithinBatch(cfg: Config, events: seq<Event>)
    requires cfg.Valid() && ValidRun(Init(cfg), events)
    ensures Run(Init(cfg), events).cfg == cfg && |Run(Init(cfg), events).h.overlapped| <= cfg.batchSize
  {
    if events != [] {
      var k := |events| - 1;
      OverlapWithinBatch(cfg, events[..k]);
      InvOfReachable(cfg, events[..k]);
      var s := Run(Init(cfg), events[..k]);
      assert Batch(s) && |s.inFlight| <= s.cfg.batchSize;
      OverlapSize(s, events[k]);
    }
  }

  lemma OverlapSize(s: State, e: Event)
    requires Batch(s) && Enabled(s, e)
    ensures Apply(s, e).cfg == s.cfg
    ensures Apply(s, e).h.overlapped == s.h.overlapped || Apply(s, e).h.overlapped == s.inFlight
            || Apply(s, e).h.overlapped == []
  {
    if IsWriterEvent(e) {
      OverlapIsNotTheWriters(s, e);
    }
  }

  lemma OverlapIsNotTheWriters(s: State, e: Event)
    requires Enabled(s, e) && IsWriterEvent(e)
    ensures Apply(s, e).cfg == s.cfg && Apply(s, e).h.overlapped == s.h.overlapped
  {
  }

  const SMALL_CONFIG := Config(10, 10, 0, 2, 100)

  /** Two snapshots offered and drained together. */
  function TwoDrained(x: Entry, y: Entry): seq<Event> {
    [Turn, Offer(x), Offer(y), WaitDone, Turn]
  }

  lemma TwoOfferedRun(x: Entry, y: Entry)
    ensures ValidRun(Init(SMALL_CONFIG), [Turn, Offer(x), Offer(y)])
    ensures var s := Run(Init(SMALL_CONFIG), [Turn, Offer(x), Offer(y)]);
      && s.writer == WaitingForWork && s.inFlight == [] && s.queue == [x, y] && s.cfg == SMALL_CONFIG
      && s.close.NotRequested? && s.persisted == 0 && s.dropped == 0 && !s.forcedStop && s.accepting
      && s.h.offered == Weight(x) + Weight(y)
  {
    var s0 := Init(SMALL_CONFIG);
    var t1, s1 := Extend(s0, [], s0, Turn);
    var t2, s2 := Extend(s0, t1, s1, Offer(x));
    var t3, s3 := Extend(s0, t2, s2, Offer(y));
    assert t3 == [Turn, Offer(x), Offer(y)];
  }

  lemma TwoDrainedRun(x: Entry, y: Entry)
    ensures ValidRun(Init(SMALL_CONFIG), TwoDrained(x, y))
    ensures var s := Run(Init(SMALL_CONFIG), TwoDrained(x, y));
      && s.writer == Writing([x, y], 0) && s.inFlight == [x, y] && s.queue == [] && s.cfg == SMALL_CONFIG
      && s.close.NotRequested? && s.persisted == 0 && s.dropped == 0 && !s.forcedStop
      && s.h.offered == Weight(x) + Weight(y)
  {
    TwoOfferedRun(x, y);
    var s0, t3 := Init(SMALL_CONFIG), [Turn, Offer(x), Offer(y)];
    var t4, s4 := Extend(s0, t3, Run(s0, t3), WaitDone);
    assert s4.queue == [x, y] && s4.queue[..2] == [x, y];
    var t5, s5 := Extend(s0, t4, s4, Turn);
    assert t5 == TwoDrained(x, y);
  }

  function CaughtInIsolation(x: Entry, y: Entry): seq<Event> {
    TwoDrained(x, y) + [WriteFail(false), CloseStart, CloseTimeout]
  }

  lemma CaughtInIsolationRun(x: Entry, y: Entry)
    ensures ValidRun(Init(SMALL_CONFIG), CaughtInIsolation(x, y))
    ensures var s := Run(Init(SMALL_CONFIG), CaughtInIsolation(x, y));
      && s.writer == Isolating([x, y], 0) && s.forcedStop && s.queue == []
      && s.persisted == 0 && s.dropped == CountSnapshots([x, y]) && s.h.offered == Weight(x) + Weight(y)
  {
    TwoDrainedRun(x, y);
    var s0, t5 := Init(SMALL_CONFIG), TwoDrained(x, y);
    var t6, s6 := Extend(s0, t5, Run(s0, t5), WriteFail(false));
    var t7, s7 := Extend(s0, t6, s6, CloseStart);
    var t8, s8 := Extend(s0, t7, s7, CloseTimeout);
    assert CountSnapshots([]) == 0;
    assert t8 == CaughtInIsolation(x, y);
  }

  lemma BothWritten(x: Entry, y: Entry)
    requires x.Snapshot? && y.Snapshot?
    ensures var events := CaughtInIsolation(x, y) + [EntryOk, EntryOk];
      && ValidRun(Init(SMALL_CONFIG), events)
      && var s := Run(Init(SMALL_CONFIG), events);
      s.writer.Returned? && s.forcedStop && s.h.offered == 2 && s.persisted == 2 && s.dropped == 2
  {
    CaughtInIsolationRun(x, y);
    CountOfTwo(x, y);
    var s0, t8 := Init(SMALL_CONFIG), CaughtInIsolation(x, y);
    var t9, s9 := Extend(s0, t8, Run(s0, t8), EntryOk);
    var t10, s10 := Extend(s0, t9, s9, EntryOk);
    assert t10 == t8 + [EntryOk, EntryOk];
  }

  lemma CountOfTwo(x: Entry, y: Entry)
    requires x.Snapshot? && y.Snapshot?
    ensures CountSnapshots([x]) == 1 && CountSnapshots([y]) == 1 && CountSnapshots([x, y]) == 2
  {
    OneCounted(x);
    OneCounted(y);
    CountSnoc([x], y);
    assert [x] + [y] == [x, y];
  }

  /** The over-count is real: two snapshots, a poison answer, the timer during the
      isolation, and both single writes succeeding leave four accounted for two offered. */
  lemma OverCountHappens(x: Entry, y: Entry)
    requires x.Snapshot? && y.Snapshot?
    ensures var events := CaughtInIsolation(x, y) + [EntryOk, EntryOk, Resume, Turn];
      && ValidRun(Init(SMALL_CONFIG), events)
      && var s := Run(Init(SMALL_CONFIG), events);
      s.writer.Stopped? && s.h.offered == 2 && s.persisted == 2 && s.dropped == 2
  {
    BothWritten(x, y);
    var s0, t10 := Init(SMALL_CONFIG), CaughtInIsolation(x, y) + [EntryOk, EntryOk];
    var t11, s11 := Extend(s0, t10, Run(s0, t10), Resume);
    var t12, s12 := Extend(s0, t11, s11, Turn);
    assert t12 == CaughtInIsolation(x, y) + [EntryOk, EntryOk, Resume, Turn];
  }

  lemma Extend(s0: State, events: seq<Event>, s: State, e: Event) returns (events': seq<Event>, s': State)
    requires ValidRun(s0, events) && Run(s0, events) == s && Enabled(s, e)
    ensures events' == events + [e] && s' == Apply(s, e)
    ensures ValidRun(s0, events') && Run(s0, events') == s'
  {
    events', s' := events + [e], Apply(s, e);
    assert events'[..|events|] == events;
  }

  /** A close that reports `flushed: true` leaves nothing behind. */
  lemma FlushedMeansComplete(cfg: Config, events: seq<Event>)
    requires cfg.Valid() && ValidRun(Init(cfg), events)
    requires var c := Run(Init(cfg), events).close; c.Closed? && c.flushed
    ensures var s := Run(Init(cfg), events);
      && s.queue == [] && s.inFlight == [] && s.h.timeoutDropped == []
      && s.h.offered == s.persisted + s.dropped
      && s.persisted == CountSnapshots(s.h.log)
  {
    InvOfReachable(cfg, events);
  }

  // ----- order

  /** What left the queue and what is in it, put together, is what was accepted. */
  lemma FifoOverRuns(cfg: Config, events: seq<Event>)
    requires cfg.Valid() && ValidRun(Init(cfg), events)
    ensures var s := Run(Init(cfg), events);
      && s.h.accepted == Flatten(s.h.batches) + s.h.timeoutDropped + s.queue
      && |s.queue| <= cfg.capacity
      && s.enqueued == CountSnapshots(s.h.accepted)
  {
    InvOfReachable(cfg, events);
    OverlapWithinBatch(cfg, events);
  }

  /** Once offers are refused they are refused for ever. */
  lemma {:induction false} AcceptingNeverReturns(s: State, events: seq<Event>)
    requires ValidRun(s, events) && !s.accepting
    ensures var s' := Run(s, events); !s'.accepting && s'.h.accepted == s.h.accepted
  {
    if events != [] {
      var k := |events| - 1;
      AcceptingNeverReturns(s, events[..k]);
      RefusalStep(Run(s, events[..k]), events[k]);
    }
  }

  lemma RefusalStep(s: State, e: Event)
    requires Enabled(s, e) && !s.accepting
    ensures !Apply(s, e).accepting && Apply(s, e).h.accepted == s.h.accepted
  {
  }

  /** `xs` comes from `ys` by deleting entries. */
  predicate Subsequence(xs: seq<Entry>, ys: seq<Entry>)
    decreases |ys|
  {
    xs == [] ||
    (ys != [] &&
     ((xs[|xs| - 1] == ys[|ys| - 1] && Subsequence(xs[..|xs| - 1], ys[..|ys| - 1])) || Subsequence(xs, ys[..|ys| - 1])))
  }

  lemma {:induction false} PlacesMakeSubsequence(ps: seq<int>, xs: seq<Entry>, ys: seq<Entry>)
    requires Increasing(ps, |ys|) && Places(ps, xs, ys)
    ensures Subsequence(xs, ys)
    decreases |ys|
  {
    if xs != [] {
      var k, n := |xs| - 1, |ys| - 1;
      if ps[k] == n {
        PlacesMakeSubsequence(ps[..k], xs[..k], ys[..n]);
      } else {
        assert forall i :: 0 <= i < k ==> ps[i] < ps[k];
        PlacesMakeSubsequence(ps, xs, ys[..n]);
      }
    }
  }

  /** Whatever the retries, the isolation and the abandonment did, the sink holds every
      accepted entry at most once and in the order of acceptance. */
  lemma StoredInOrderAtMostOnce(cfg: Config, events: seq<Event>)
    requires cfg.Valid() && ValidRun(Init(cfg), events)
    ensures var s := Run(Init(cfg), events);
      && (forall i, j :: 0 <= i < j < |s.h.stored| ==> s.h.stored[i] < s.h.stored[j])
      && Places(s.h.stored, s.h.log, s.h.accepted)
      && Subsequence(s.h.log, s.h.accepted)
      && s.persisted <= CountSnapshots(s.h.log)
  {
    InvOfReachable(cfg, events);
    var s := Run(Init(cfg), events);
    BoundWithinAccepted(s);
    PlacesMakeSubsequence(s.h.stored, s.h.log, s.h.accepted);
  }

  lemma BoundWithinAccepted(s: State)
    requires Batch(s) && Fifo(s) && AtMostOnce(s)
    ensures Increasing(s.h.stored, |s.h.accepted|)
  {
    if InFlightWriter(s.writer) {
      BatchPlace(s);
    }
    assert StoredBound(s) <= |Flatten(s.h.batches)| <= |s.h.accepted|;
  }

  // ----- shutdown

  function WriterSteps(events: seq<Event>): nat {
    if events == [] then 0
    else WriterSteps(events[..|events| - 1]) + if IsWriterEvent(events[|events| - 1]) then 1 else 0
  }

  /** After `stopAccepting` the writer takes a bounded number of steps, whatever the sink
      answers, and it is never stuck before it has stopped. */
  lemma {:induction false} WriterEnds(s: State, events: seq<Event>)
    requires Inv(s) && !s.accepting && ValidRun(s, events)
    ensures WriterSteps(events) + StepsLeft(Run(s, events)) <= StepsLeft(s)
    ensures 0 <= StepsLeft(Run(s, events))
    ensures StepsLeft(s) <= |s.queue| * (2 * s.cfg.retryAttempts + 4) + 2 * s.cfg.retryAttempts + s.cfg.batchSize + 3
    ensures Inv(Run(s, events)) && !Run(s, events).accepting
  {
    InvOfRun(s, events);
    AcceptingNeverReturns(s, events);
    StepsLeftNonNegative(Run(s, events));
    if events != [] {
      var k := |events| - 1;
      var mid := Run(s, events[..k]);
      WriterEnds(s, events[..k]);
      if IsWriterEvent(events[k]) {
        WriterStepSpends(mid, events[k]);
      } else {
        OtherStepSpendsNothing(mid, events[k]);
      }
    }
  }

  lemma {:induction false} WriterStepsGrow(earlier: seq<Event>, later: seq<Event>)
    requires earlier <= later
    ensures WriterSteps(earlier) <= WriterSteps(later)
  {
    if earlier != later {
      WriterStepsGrow(earlier, later[..|later| - 1]);
    }
  }

  /** The same bound between two points of one run. */
  lemma {:induction false} WriterEndsBetween(cfg: Config, earlier: seq<Event>, later: seq<Event>)
    requires cfg.Valid() && ValidRun(Init(cfg), earlier) && ValidRun(Init(cfg), later) && earlier <= later
    requires !Run(Init(cfg), earlier).accepting
    ensures WriterSteps(later) - WriterSteps(earlier) + StepsLeft(Run(Init(cfg), later))
         <= StepsLeft(Run(Init(cfg), earlier))
    ensures !Run(Init(cfg), later).accepting && StepsLeft(Run(Init(cfg), later)) >= 0
  {
    InvOfReachable(cfg, later);
    StepsLeftNonNegative(Run(Init(cfg), later));
    if earlier != later {
      var k := |later| - 1;
      var mid := Run(Init(cfg), later[..k]);
      WriterEndsBetween(cfg, earlier, later[..k]);
      InvOfReachable(cfg, later[..k]);
      RefusalStep(mid, later[k]);
      if IsWriterEvent(later[k]) {
        WriterStepSpends(mid, later[k]);
      } else {
        OtherStepSpendsNothing(mid, later[k]);
      }
    }
  }

  /** While the writer has not stopped, one of its steps can be taken, whatever the sink answers. */
  lemma WriterNeverStuck(s: State)
    requires Inv(s)
    ensures s.writer.Stopped? <==> !exists e :: IsWriterEvent(e) && Enabled(s, e)
    ensures s.writer.Writing? ==> Enabled(s, WriteOk) && Enabled(s, WriteFail(true)) && Enabled(s, WriteFail(false))
    ensures s.writer.Isolating? ==> Enabled(s, EntryOk) && Enabled(s, EntryFail)
  {
    match s.writer
    case AtTop => assert Enabled(s, Turn);
    case WaitingForWork => assert Enabled(s, WaitDone);
    case FlushDelay => assert Enabled(s, FlushDone);
    case Writing(_, _) => assert Enabled(s, WriteOk);
    case BackingOff(_, _) => assert Enabled(s, BackoffDone);
    case Isolating(_, _) => assert Enabled(s, EntryOk);
    case Returned => assert Enabled(s, Resume);
    case Stopped =>
  }

  lemma CostBoundOverRuns(cfg: Config, events: seq<Event>)
    requires cfg.Valid() && ValidRun(Init(cfg), events)
    ensures CostBound(Run(Init(cfg), events))
  {
    InvOfReachable(cfg, events);
  }

  /** Per batch: at most `retryAttempts + 1` whole-batch writes, one single write per
      entry, and back-off within the geometric sum. */
  lemma BatchCostOverRuns(cfg: Config, events: seq<Event>)
    requires cfg.Valid() && ValidRun(Init(cfg), events)
    ensures var s := Run(Init(cfg), events);
      && s.h.batchWrites <= cfg.retryAttempts + 1
      && s.h.singleWrites <= (if s.h.batches == [] then 0 else |s.h.batches[|s.h.batches| - 1]|)
      && s.h.backoffMs <= cfg.retryBaseDelayMs * (Pow2(cfg.retryAttempts) - 1)
  {
    CostBoundOverRuns(cfg, events);
    OverlapWithinBatch(cfg, events);
  }
}

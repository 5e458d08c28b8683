/** What the sink holds against what the pipeline claims: a batch that a timed-out close reports
    as dropped may still be stored afterwards. */
module AuditStored {
  import opened AuditMachine
  import opened AuditInvariants
  import opened AuditTheorems

  function LastBatch(s: State): seq<Entry> {
    if s.h.batches == [] then [] else s.h.batches[|s.h.batches| - 1]
  }

  /** The sink stored a whole batch after the shutdown had abandoned it. */
  predicate StoresLate(s: State, e: Event) {
    e.WriteOk? && s.writer.Writing? && s.abandoned
  }

  predicate StoredLate(s: State, events: seq<Event>)
    requires ValidRun(s, events)
  {
    events != [] &&
    (var k := |events| - 1;
     StoredLate(s, events[..k]) || StoresLate(Run(s, events[..k]), events[k]))
  }

  /** The writer is on its way out: it will take no further batch. */
  predicate Leaving(s: State) {
    s.forcedStop && (s.writer.Returned? || s.writer.AtTop? || s.writer.Stopped?)
  }

  /** The sink holds what was counted as persisted and, if `late`, the last batch beside it. */
  predicate Claims(s: State, late: bool) {
    && CountSnapshots(s.h.log) == s.persisted + (if late then CountSnapshots(LastBatch(s)) else 0)
    && (late ==> Leaving(s) && s.h.batches != [] && s.h.overlapped == [])
    && (s.h.overlapped != [] ==> Leaving(s) || (s.forcedStop && s.writer.Isolating?))
  }

  lemma ClaimsAfterWrite(s: State)
    requires Control(s) && Batch(s) && s.writer.Writing? && Claims(s, false)
    ensures Claims(ApplyWriteOk(s), s.abandoned)
  {
    CountConcat(s.h.log, s.writer.batch);
  }

  lemma ClaimsAfterEntry(s: State)
    requires Enabled(s, EntryOk) && Claims(s, false)
    ensures Claims(ApplyEntryOk(s), false)
  {
    StoredEntryCounted(s);
    EntryStoredMovesOn(s);
  }

  lemma ClaimsAfterDrain(s: State, late: bool)
    requires Control(s) && Batch(s) && Claims(s, late) && (s.forcedStop ==> s.queue == [])
    requires s.writer.AtTop? || s.writer.FlushDelay?
    ensures Claims(Drain(s), late)
  {
  }

  lemma ClaimsAfterFailure(s: State, e: Event, late: bool)
    requires Control(s) && Batch(s) && Enabled(s, e) && Claims(s, late)
        && (e.WriteFail? || e.EntryFail? || e.BackoffDone?)
    ensures Claims(Apply(s, e), late)
  {
  }

  lemma ClaimsAfterOther(s: State, e: Event, late: bool)
    requires Control(s) && Batch(s) && Enabled(s, e) && Claims(s, late)
    requires !e.WriteOk? && !e.EntryOk? && !e.WriteFail? && !e.EntryFail? && !e.BackoffDone? && !e.Turn?
        && !e.FlushDone?
    ensures Claims(Apply(s, e), late)
  {
  }

  lemma ClaimsStep(s: State, e: Event, late: bool)
    requires Control(s) && Batch(s) && Enabled(s, e) && Claims(s, late)
    ensures Claims(Apply(s, e), late || StoresLate(s, e))
  {
    if e.WriteOk? {
      ClaimsAfterWrite(s);
    } else if e.EntryOk? {
      ClaimsAfterEntry(s);
    } else if e.Turn? || e.FlushDone? {
      ClaimsAfterDrain(s, late);
    } else if e.WriteFail? || e.EntryFail? || e.BackoffDone? {
      ClaimsAfterFailure(s, e, late);
    } else {
      ClaimsAfterOther(s, e, late);
    }
  }

  lemma {:induction false} ClaimsOverRuns(cfg: Config, events: seq<Event>)
    requires cfg.Valid() && ValidRun(Init(cfg), events)
    ensures Claims(Run(Init(cfg), events), StoredLate(Init(cfg), events))
  {
    if events != [] {
      var k := |events| - 1;
      ClaimsOverRuns(cfg, events[..k]);
      InvOfReachable(cfg, events[..k]);
      ClaimsStep(Run(Init(cfg), events[..k]), events[k], StoredLate(Init(cfg), events[..k]));
    }
  }

  /** Over any run the sink holds exactly what is counted as persisted, unless it stored a batch
      after the shutdown had abandoned it: then it holds that batch beside it, the last one, whose
      snapshots are among those reported as dropped. That never happens together with a timeout
      under isolation, nor while a batch is in flight. */
  lemma StoredExactly(cfg: Config, events: seq<Event>)
    requires cfg.Valid() && ValidRun(Init(cfg), events)
    ensures var s, late := Run(Init(cfg), events), StoredLate(Init(cfg), events);
      && CountSnapshots(s.h.log) == s.persisted + (if late then CountSnapshots(LastBatch(s)) else 0)
      && (late ==> s.close.Closed? && !s.close.flushed)
      && (late ==> !InFlightWriter(s.writer) && !TimesOutInIsolation(Init(cfg), events))
      && (late ==> CountSnapshots(s.h.log) + s.dropped == s.h.offered + CountSnapshots(LastBatch(s)))
  {
    ClaimsOverRuns(cfg, events);
    InvOfReachable(cfg, events);
    OverlapIsIsolationTimeout(cfg, events);
    ConservationOverRuns(cfg, events);
  }

  /** It happens: two snapshots, a close that times out while they are written, and the write
      succeeding after all. */
  function AbandonedThenStored(x: Entry, y: Entry): seq<Event> {
    TwoDrained(x, y) + [CloseStart, CloseTimeout, WriteOk]
  }

  lemma LateStoreHappens(x: Entry, y: Entry)
    requires x.Snapshot? && y.Snapshot?
    ensures ValidRun(Init(SMALL_CONFIG), AbandonedThenStored(x, y))
    ensures StoredLate(Init(SMALL_CONFIG), AbandonedThenStored(x, y))
    ensures var s := Run(Init(SMALL_CONFIG), AbandonedThenStored(x, y));
      s.h.log == [x, y] && s.persisted == 0 && s.dropped == 2 && s.close == Closed(false, 2)
  {
    TwoDrainedRun(x, y);
    CountOfTwo(x, y);
    EmptyLog(x, y);
    var s0, t5 := Init(SMALL_CONFIG), TwoDrained(x, y);
    var t6, s6 := Extend(s0, t5, Run(s0, t5), CloseStart);
    var t7, s7 := Extend(s0, t6, s6, CloseTimeout);
    var t8, s8 := Extend(s0, t7, s7, WriteOk);
    assert t8 == AbandonedThenStored(x, y) && t8[..|t8| - 1] == t7;
    assert CountSnapshots([]) == 0 && [] + [x, y] == [x, y];
  }

  /** Nothing is stored before the first write is answered. */
  lemma EmptyLog(x: Entry, y: Entry)
    requires x.Snapshot? && y.Snapshot? && ValidRun(Init(SMALL_CONFIG), TwoDrained(x, y))
    ensures Run(Init(SMALL_CONFIG), TwoDrained(x, y)).h.log == []
  {
    var events := TwoDrained(x, y);
    assert forall k :: 0 <= k < |events| ==> !events[k].WriteOk? && !events[k].EntryOk?;
    NothingWritten(Init(SMALL_CONFIG), events);
  }

  lemma {:induction false} NothingWritten(s: State, events: seq<Event>)
    requires ValidRun(s, events) && forall k :: 0 <= k < |events| ==> !events[k].WriteOk? && !events[k].EntryOk?
    ensures Run(s, events).h.log == s.h.log
  {
    if events != [] {
      var k := |events| - 1;
      NothingWritten(s, events[..k]);
      LogUntouched(Run(s, events[..k]), events[k]);
    }
  }

  lemma LogUntouched(s: State, e: Event)
    requires Enabled(s, e) && !e.WriteOk? && !e.EntryOk?
    ensures Apply(s, e).h.log == s.h.log
  {
  }
}

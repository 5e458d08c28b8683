/** What every step of the audit pipeline keeps, and what follows over whole runs. */
module AuditInvariants {
  import opened Wrappers
  import opened AuditMachine

  // ----- counting

  lemma {:induction false} CountConcat(a: seq<Entry>, b: seq<Entry>)
    ensures CountSnapshots(a + b) == CountSnapshots(a) + CountSnapshots(b)
  {
    if b == [] {
      assert a + b == a;
    } else {
      var k := |b| - 1;
      assert (a + b)[..|a + b| - 1] == a + b[..k];
      CountConcat(a, b[..k]);
    }
  }

  lemma CountSplit(a: seq<Entry>, k: nat)
    requires k <= |a|
    ensures CountSnapshots(a) == CountSnapshots(a[..k]) + CountSnapshots(a[k..])
  {
    assert a == a[..k] + a[k..];
    CountConcat(a[..k], a[k..]);
  }

  lemma CountSnoc(a: seq<Entry>, entry: Entry)
    ensures CountSnapshots(a + [entry]) == CountSnapshots(a) + Weight(entry)
  {
    assert (a + [entry])[..|a|] == a;
  }

  lemma CountNext(batch: seq<Entry>, next: nat)
    requires next < |batch|
    ensures CountSnapshots([batch[next]]) + CountSnapshots(batch[next + 1..]) == CountSnapshots(batch[next..])
  {
    assert batch[next..] == [batch[next]] + batch[next + 1..];
    CountConcat([batch[next]], batch[next + 1..]);
  }

  lemma FlattenSnoc(batches: seq<seq<Entry>>, batch: seq<Entry>)
    ensures Flatten(batches + [batch]) == Flatten(batches) + batch
  {
    assert (batches + [batch])[..|batches|] == batches;
  }

  // ----- control: where the writer can be, and what the flags then say

  predicate InFlightWriter(w: Writer) {
    w.Writing? || w.BackingOff? || w.Isolating?
  }

  predicate Control(s: State) {
    && s.cfg.Valid()
    && (s.accepting <==> s.close.NotRequested?)
    && (s.forcedStop <==> s.close.Closed? && !s.close.flushed)
    && (s.close.Closed? && s.close.flushed ==> s.writer.Stopped?)
    && (s.forcedStop ==> s.queue == [])
    && (s.writer.Stopped? ==> !s.accepting && s.queue == [])
    && (s.writerState == STOPPED <==> s.writer.Stopped?)
    && (s.abandoned ==> s.forcedStop)
  }

  predicate Batch(s: State) {
    && (InFlightWriter(s.writer) ==> s.inFlight == s.writer.batch && s.inFlight != [])
    && (s.writer.Returned? ==> s.inFlight != [])
    && (!InFlightWriter(s.writer) && !s.writer.Returned? ==> s.inFlight == [])
    && (s.inFlight != [] ==> s.h.batches != [] && s.h.batches[|s.h.batches| - 1] == s.inFlight)
    && (s.inFlight != [] && s.forcedStop && !s.writer.Returned? ==> s.abandoned)
    && (s.writer.Writing? ==> s.writer.attempt <= s.cfg.retryAttempts)
    && (s.writer.BackingOff? ==> s.writer.attempt < s.cfg.retryAttempts)
    && (s.writer.Isolating? ==> s.writer.next < |s.writer.batch| && |s.writer.batch| > 1)
    && |s.inFlight| <= s.cfg.batchSize
  }

  lemma ControlKept(s: State, e: Event)
    requires Control(s) && Enabled(s, e)
    ensures Control(Apply(s, e))
  {
  }

  lemma BatchKeptByProducer(s: State, e: Event)
    requires Control(s) && Batch(s) && Enabled(s, e) && !IsWriterEvent(e)
    ensures Batch(Apply(s, e))
  {
  }

  lemma BatchKeptByDrain(s: State)
    requires Control(s) && Batch(s) && s.inFlight == []
    ensures Batch(Drain(s))
  {
  }

  lemma BatchKeptByAnswer(s: State, e: Event)
    requires Control(s) && Batch(s) && Enabled(s, e) && (e.WriteOk? || e.WriteFail?)
    ensures Batch(Apply(s, e))
  {
  }

  lemma BatchKeptByEntry(s: State, e: Event)
    requires Control(s) && Batch(s) && Enabled(s, e) && (e.EntryOk? || e.EntryFail?)
    ensures Batch(Apply(s, e))
  {
  }

  lemma BatchKept(s: State, e: Event)
    requires Control(s) && Batch(s) && Enabled(s, e)
    ensures Batch(Apply(s, e))
  {
    if !IsWriterEvent(e) {
      BatchKeptByProducer(s, e);
    } else if e.Turn? || e.FlushDone? {
      BatchKeptByDrain(s);
    } else if e.WriteOk? || e.WriteFail? {
      BatchKeptByAnswer(s, e);
    } else if e.EntryOk? || e.EntryFail? {
      BatchKeptByEntry(s, e);
    }
  }

  // ----- conservation

  /** Snapshots of the batch in flight that no counter has taken up yet. */
  function Unaccounted(s: State): nat {
    match s.writer
    case Writing(batch, _) => if s.abandoned then 0 else CountSnapshots(batch)
    case BackingOff(batch, _) => if s.abandoned then 0 else CountSnapshots(batch)
    case Isolating(batch, next) => if next <= |batch| then CountSnapshots(batch[next..]) else 0
    case _ => 0
  }

  predicate Conserved(s: State) {
    && s.persisted + s.dropped + CountSnapshots(s.queue) + Unaccounted(s)
       == s.h.offered + CountSnapshots(s.h.overlapped)
    && (s.h.overlapped != [] ==> s.forcedStop)
    && s.enqueued == CountSnapshots(s.h.accepted)
  }

  /** Neither answer to an offer touches what the writer holds. */
  lemma OfferKeepsUnaccounted(s: State, entry: Entry)
    ensures Unaccounted(ApplyOffer(s, entry)) == Unaccounted(s)
    ensures ApplyOffer(s, entry).h.overlapped == s.h.overlapped && ApplyOffer(s, entry).forcedStop == s.forcedStop
  {
  }

  lemma ConservedByOffer(s: State, entry: Entry)
    requires Conserved(s)
    ensures Conserved(ApplyOffer(s, entry))
  {
    OfferKeepsUnaccounted(s, entry);
    if s.accepting && |s.queue| < s.cfg.capacity {
      CountSnoc(s.queue, entry);
      CountSnoc(s.h.accepted, entry);
    }
  }

  lemma ConservedByTimeout(s: State)
    requires Conserved(s) && Control(s) && Batch(s) && Enabled(s, CloseTimeout)
    ensures Conserved(ApplyCloseTimeout(s))
  {
    assert CountSnapshots([]) == 0;
  }

  lemma ConservedByDrain(s: State)
    requires Conserved(s) && s.inFlight == [] && Batch(s)
    ensures Conserved(Drain(s))
  {
    CountSplit(s.queue, Min(s.cfg.batchSize, |s.queue|));
    DrainMoves(s);
  }

  lemma DrainMoves(s: State)
    requires s.inFlight == [] && Batch(s)
    ensures var batch, s' := s.queue[..Min(s.cfg.batchSize, |s.queue|)], Drain(s);
      && Unaccounted(s) == 0 && Unaccounted(s') == CountSnapshots(batch)
      && s'.queue == s.queue[|batch|..]
      && s'.persisted == s.persisted && s'.dropped == s.dropped && s'.enqueued == s.enqueued
  {
    if s.queue[..Min(s.cfg.batchSize, |s.queue|)] == [] {
      assert s.queue[0..] == s.queue;
    }
  }

  lemma ConservedByWriteOk(s: State)
    requires Conserved(s) && s.writer.Writing?
    ensures Conserved(ApplyWriteOk(s))
  {
  }

  lemma ConservedByWriteFail(s: State, retryable: bool)
    requires Conserved(s) && Control(s) && Batch(s) && s.writer.Writing?
    ensures Conserved(ApplyWriteFail(s, retryable))
  {
    var batch := s.writer.batch;
    assert batch[0..] == batch;
  }

  /** Moving on from batch[next] takes exactly that entry out of the unaccounted ones. */
  lemma UnaccountedNext(s: State)
    requires s.writer.Isolating? && s.writer.next < |s.writer.batch|
    ensures Unaccounted(s) == CountSnapshots([s.writer.batch[s.writer.next]]) + Unaccounted(NextEntry(s))
  {
    CountNext(s.writer.batch, s.writer.next);
    assert CountSnapshots(s.writer.batch[|s.writer.batch|..]) == 0;
  }

  lemma EntryCounters(s: State, e: Event)
    requires Enabled(s, e) && (e.EntryOk? || e.EntryFail?)
    ensures var s' := Apply(s, e);
      && s'.persisted + s'.dropped == s.persisted + s.dropped + CountSnapshots([s.writer.batch[s.writer.next]])
      && s'.queue == s.queue && s'.enqueued == s.enqueued && s'.forcedStop == s.forcedStop
      && s'.h.offered == s.h.offered && s'.h.overlapped == s.h.overlapped && s'.h.accepted == s.h.accepted
      && s'.writer == NextEntry(s).writer
  {
  }

  lemma ConservedByEntry(s: State, e: Event)
    requires Conserved(s) && Enabled(s, e) && (e.EntryOk? || e.EntryFail?)
    ensures Conserved(Apply(s, e))
  {
    UnaccountedNext(s);
    EntryCounters(s, e);
    var s' := Apply(s, e);
    assert s'.writer.Isolating? || s'.writer.Returned?;
    assert Unaccounted(s') == Unaccounted(NextEntry(s));
  }

  lemma ConservedKept(s: State, e: Event)
    requires Control(s) && Batch(s) && Conserved(s) && Enabled(s, e)
    ensures Conserved(Apply(s, e))
  {
    match e
    case Offer(entry) => ConservedByOffer(s, entry);
    case CloseTimeout => ConservedByTimeout(s);
    case Turn => ConservedByDrain(s);
    case FlushDone => ConservedByDrain(s);
    case WriteOk => ConservedByWriteOk(s);
    case WriteFail(retryable) => ConservedByWriteFail(s, retryable);
    case EntryOk => ConservedByEntry(s, e);
    case EntryFail => ConservedByEntry(s, e);
    case _ =>
  }

  // ----- first in, first out

  predicate Fifo(s: State) {
    && s.h.accepted == Flatten(s.h.batches) + s.h.timeoutDropped + s.queue
    && (s.h.timeoutDropped != [] ==> s.forcedStop)
    && |s.queue| <= s.cfg.capacity
  }

  lemma FifoByDrain(s: State)
    requires Fifo(s) && Control(s)
    ensures Fifo(Drain(s))
  {
    var batch := s.queue[..Min(s.cfg.batchSize, |s.queue|)];
    if batch != [] {
      FlattenSnoc(s.h.batches, batch);
      assert s.queue == batch + s.queue[|batch|..];
      assert s.h.timeoutDropped == [];
      assert Flatten(s.h.batches) + [] + (batch + s.queue[|batch|..])
          == (Flatten(s.h.batches) + batch) + [] + s.queue[|batch|..];
    }
  }

  lemma FifoKept(s: State, e: Event)
    requires Control(s) && Batch(s) && Fifo(s) && Enabled(s, e)
    ensures Fifo(Apply(s, e))
  {
    match e
    case Turn => FifoByDrain(s);
    case FlushDone => FifoByDrain(s);
    case CloseTimeout =>
      assert s.h.timeoutDropped == [];
      assert Flatten(s.h.batches) + s.queue + [] == Flatten(s.h.batches) + [] + s.queue;
    case Offer(entry) =>
      assert Flatten(s.h.batches) + s.h.timeoutDropped + (s.queue + [entry])
          == Flatten(s.h.batches) + s.h.timeoutDropped + s.queue + [entry];
    case _ =>
  }

  // ----- at most once

  /** Places of `accepted` below this bound may already be in the sink; none at or above it is. */
  function StoredBound(s: State): int {
    match s.writer
    case Writing(_, _) => BatchStart(s)
    case BackingOff(_, _) => BatchStart(s)
    case Isolating(_, next) => BatchStart(s) + next
    case _ => |Flatten(s.h.batches)|
  }

  predicate Increasing(ps: seq<int>, bound: int) {
    && (forall i, j :: 0 <= i < j < |ps| ==> ps[i] < ps[j])
    && (forall i :: 0 <= i < |ps| ==> 0 <= ps[i] < bound)
  }

  predicate Places(ps: seq<int>, log: seq<Entry>, accepted: seq<Entry>) {
    && |ps| == |log|
    && forall i :: 0 <= i < |ps| ==> 0 <= ps[i] < |accepted| && log[i] == accepted[ps[i]]
  }

  predicate AtMostOnce(s: State) {
    && Increasing(s.h.stored, StoredBound(s))
    && Places(s.h.stored, s.h.log, s.h.accepted)
  }

  lemma PlacesExtend(ps: seq<int>, log: seq<Entry>, accepted: seq<Entry>, from: int, batch: seq<Entry>)
    requires Increasing(ps, from) && Places(ps, log, accepted)
    requires 0 <= from && from + |batch| <= |accepted| && accepted[from..from + |batch|] == batch
    ensures Increasing(ps + Positions(from, |batch|), from + |batch|)
    ensures Places(ps + Positions(from, |batch|), log + batch, accepted)
  {
    assert forall i :: 0 <= i < |batch| ==> batch[i] == accepted[from..from + |batch|][i] == accepted[from + i];
  }

  lemma BatchPlace(s: State)
    requires Batch(s) && Fifo(s) && s.inFlight != []
    ensures 0 <= BatchStart(s) && BatchStart(s) + |s.inFlight| == |Flatten(s.h.batches)| <= |s.h.accepted|
    ensures s.h.accepted[BatchStart(s)..BatchStart(s) + |s.inFlight|] == s.inFlight
  {
    var k := |s.h.batches| - 1;
    assert Flatten(s.h.batches) == Flatten(s.h.batches[..k]) + s.inFlight;
    var rest := s.h.timeoutDropped + s.queue;
    assert s.h.accepted == Flatten(s.h.batches[..k]) + s.inFlight + rest;
  }

  lemma AtMostOnceByWriteOk(s: State)
    requires Batch(s) && Fifo(s) && AtMostOnce(s) && s.writer.Writing?
    ensures AtMostOnce(ApplyWriteOk(s))
  {
    BatchPlace(s);
    PlacesExtend(s.h.stored, s.h.log, s.h.accepted, BatchStart(s), s.inFlight);
  }

  lemma EntryPlace(s: State)
    requires Batch(s) && Fifo(s) && s.writer.Isolating?
    ensures 0 <= BatchStart(s) + s.writer.next < |Flatten(s.h.batches)| <= |s.h.accepted|
    ensures s.h.accepted[BatchStart(s) + s.writer.next] == s.writer.batch[s.writer.next]
  {
    BatchPlace(s);
    assert s.h.accepted[BatchStart(s)..BatchStart(s) + |s.inFlight|][s.writer.next] == s.inFlight[s.writer.next];
  }

  lemma PlaceAppend(ps: seq<int>, log: seq<Entry>, accepted: seq<Entry>, place: int, entry: Entry)
    requires Increasing(ps, place) && Places(ps, log, accepted)
    requires 0 <= place < |accepted| && accepted[place] == entry
    ensures Increasing(ps + [place], place + 1) && Places(ps + [place], log + [entry], accepted)
  {
  }

  lemma AtMostOnceByEntryOk(s: State)
    requires Batch(s) && Fifo(s) && AtMostOnce(s) && s.writer.Isolating?
    ensures AtMostOnce(ApplyEntryOk(s))
  {
    EntryPlace(s);
    var place, entry := BatchStart(s) + s.writer.next, s.writer.batch[s.writer.next];
    PlaceAppend(s.h.stored, s.h.log, s.h.accepted, place, entry);
    var s' := ApplyEntryOk(s);
    assert s'.h.stored == s.h.stored + [place] && s'.h.log == s.h.log + [entry];
    assert s'.h.accepted == s.h.accepted && place + 1 <= StoredBound(s');
  }

  lemma AtMostOnceByDrain(s: State)
    requires Batch(s) && AtMostOnce(s) && s.inFlight == []
    ensures AtMostOnce(Drain(s))
  {
    var batch := s.queue[..Min(s.cfg.batchSize, |s.queue|)];
    FlattenSnoc(s.h.batches, batch);
    var s' := Drain(s);
    assert s'.h.stored == s.h.stored && s'.h.log == s.h.log && s'.h.accepted == s.h.accepted;
    assert StoredBound(s) <= StoredBound(s');
  }

  /** A failed write leaves the sink as it was and never lowers the bound. */
  lemma FailStoresNothing(s: State, e: Event)
    requires Batch(s) && Fifo(s) && Enabled(s, e) && (e.WriteFail? || e.BackoffDone? || e.EntryFail?)
    ensures var s' := Apply(s, e);
      && s'.h.stored == s.h.stored && s'.h.log == s.h.log && s'.h.accepted == s.h.accepted
      && StoredBound(s) <= StoredBound(s')
  {
    var s' := Apply(s, e);
    assert BatchStart(s') == BatchStart(s);
  }

  predicate WritesOrDrains(e: Event) {
    e.WriteOk? || e.EntryOk? || e.Turn? || e.FlushDone? || e.WriteFail? || e.BackoffDone? || e.EntryFail?
  }

  lemma OtherStepsStoreNothing(s: State, e: Event)
    requires Control(s) && Batch(s) && Enabled(s, e) && !WritesOrDrains(e)
    ensures var s' := Apply(s, e);
      && s'.h.stored == s.h.stored && s'.h.log == s.h.log && s'.h.accepted[..|s.h.accepted|] == s.h.accepted
      && |s.h.accepted| <= |s'.h.accepted| && StoredBound(s) == StoredBound(s')
  {
  }

  lemma AtMostOnceMonotone(s: State, s': State)
    requires AtMostOnce(s)
    requires s'.h.stored == s.h.stored && s'.h.log == s.h.log && StoredBound(s) <= StoredBound(s')
    requires |s.h.accepted| <= |s'.h.accepted| && s'.h.accepted[..|s.h.accepted|] == s.h.accepted
    ensures AtMostOnce(s')
  {
    forall i | 0 <= i < |s.h.stored| ensures s'.h.accepted[s.h.stored[i]] == s.h.accepted[s.h.stored[i]] {
      assert s'.h.accepted[..|s.h.accepted|][s.h.stored[i]] == s.h.accepted[s.h.stored[i]];
    }
  }

  lemma AtMostOnceKept(s: State, e: Event)
    requires Control(s) && Batch(s) && Fifo(s) && AtMostOnce(s) && Enabled(s, e)
    ensures AtMostOnce(Apply(s, e))
  {
    if e.WriteOk? {
      AtMostOnceByWriteOk(s);
    } else if e.EntryOk? {
      AtMostOnceByEntryOk(s);
    } else if e.Turn? || e.FlushDone? {
      AtMostOnceByDrain(s);
    } else {
      if WritesOrDrains(e) {
        FailStoresNothing(s, e);
      } else {
        OtherStepsStoreNothing(s, e);
      }
      AtMostOnceMonotone(s, Apply(s, e));
    }
  }

  // ----- what the sink was asked to do for one batch

  predicate CostBound(s: State) {
    && s.h.batchWrites <= s.cfg.retryAttempts + 1
    && s.h.singleWrites <= (if s.h.batches == [] then 0 else |s.h.batches[|s.h.batches| - 1]|)
    && s.h.backoffMs <= s.cfg.retryBaseDelayMs * (Pow2(s.cfg.retryAttempts) - 1)
  }

  predicate Costs(s: State) {
    && CostBound(s)
    && (s.writer.Writing? ==>
        && s.h.batchWrites == s.writer.attempt + 1 && s.h.singleWrites == 0
        && s.h.backoffMs == s.cfg.retryBaseDelayMs * (Pow2(s.writer.attempt) - 1))
    && (s.writer.BackingOff? ==>
        && s.h.batchWrites == s.writer.attempt + 1 && s.h.singleWrites == 0
        && s.h.backoffMs == s.cfg.retryBaseDelayMs * (Pow2(s.writer.attempt + 1) - 1))
    && (s.writer.Isolating? ==> s.h.singleWrites == s.writer.next + 1)
  }

  lemma {:induction false} Pow2Monotone(a: nat, b: nat)
    requires a <= b
    ensures 1 <= Pow2(a) <= Pow2(b)
    decreases b
  {
    if a < b {
      Pow2Monotone(a, b - 1);
    } else if a > 0 {
      Pow2Monotone(a - 1, a - 1);
    }
  }

  lemma BackoffStep(base: nat, attempt: nat, retries: nat)
    requires attempt < retries
    ensures base * (Pow2(attempt) - 1) + base * Pow2(attempt) == base * (Pow2(attempt + 1) - 1)
    ensures base * (Pow2(attempt + 1) - 1) <= base * (Pow2(retries) - 1)
  {
    Pow2Monotone(attempt + 1, retries);
    MulMonotone(base, Pow2(attempt + 1) - 1, Pow2(retries) - 1);
  }

  lemma MulMonotone(base: nat, a: int, b: int)
    requires a <= b
    ensures base * a <= base * b
  {
  }

  lemma CostsByFail(s: State, retryable: bool)
    requires Batch(s) && Costs(s) && s.writer.Writing?
    ensures Costs(ApplyWriteFail(s, retryable))
  {
    if s.writer.attempt < s.cfg.retryAttempts {
      BackoffStep(s.cfg.retryBaseDelayMs, s.writer.attempt, s.cfg.retryAttempts);
    }
  }

  lemma CostsByDrain(s: State)
    requires Costs(s) && !InFlightWriter(s.writer)
    ensures Costs(Drain(s))
  {
    Pow2Monotone(0, s.cfg.retryAttempts);
    MulMonotone(s.cfg.retryBaseDelayMs, 0, Pow2(s.cfg.retryAttempts) - 1);
  }

  lemma CostsByEntryOk(s: State)
    requires Batch(s) && Costs(s) && s.writer.Isolating?
    ensures Costs(ApplyEntryOk(s))
  {
  }

  lemma CostsByEntryFail(s: State)
    requires Batch(s) && Costs(s) && s.writer.Isolating?
    ensures Costs(Apply(s, EntryFail))
  {
  }

  lemma CostsKept(s: State, e: Event)
    requires Control(s) && Batch(s) && Costs(s) && Enabled(s, e)
    ensures Costs(Apply(s, e))
  {
    if e.WriteFail? {
      CostsByFail(s, e.retryable);
    } else if e.Turn? || e.FlushDone? {
      CostsByDrain(s);
    } else if e.EntryOk? {
      CostsByEntryOk(s);
    } else if e.EntryFail? {
      CostsByEntryFail(s);
    }
  }

  // ----- shutdown: how many writer steps are left once offers are refused

  /** Writer steps that one queued entry can still cost. */
  function PerEntry(cfg: Config): nat {
    2 * cfg.retryAttempts + 4
  }

  function StepsLeft(s: State): int {
    var waiting := |s.queue| * PerEntry(s.cfg);
    match s.writer
    case AtTop => waiting + 1
    case WaitingForWork => waiting + 2
    case FlushDelay => waiting + 2
    case Writing(batch, attempt) => waiting + 2 * (s.cfg.retryAttempts - attempt) + |batch| + 3
    case BackingOff(batch, attempt) => waiting + 2 * (s.cfg.retryAttempts - attempt) + |batch| + 2
    case Isolating(batch, next) => waiting + |batch| - next + 2
    case Returned => waiting + 2
    case Stopped => waiting
  }

  lemma StepsLeftNonNegative(s: State)
    requires Batch(s)
    ensures StepsLeft(s) >= 0
  {
  }

  lemma StepsLeftAtTop(s: State)
    requires s.writer.AtTop?
    ensures StepsLeft(s) >= 1
  {
    MulMonotone(PerEntry(s.cfg), 0, |s.queue|);
  }

  /** Each entry of a batch pays for the batch writes, the back-offs and its own single write. */
  lemma BatchPaid(n: nat, rest: nat, retries: nat)
    requires n >= 1
    ensures rest * (2 * retries + 4) + 2 * retries + n + 3 <= (n + rest) * (2 * retries + 4)
  {
    assert (n + rest) * (2 * retries + 4) == n * (2 * retries + 4) + rest * (2 * retries + 4);
    assert n * (2 * retries + 4) == n * (2 * retries + 3) + n;
    MulMonotone(2 * retries + 3, 1, n);
  }

  lemma DrainSpends(s: State)
    requires Control(s) && Batch(s) && s.inFlight == []
    ensures StepsLeft(Drain(s)) < |s.queue| * PerEntry(s.cfg) + (if s.queue == [] then 2 else 1)
  {
    var batch := s.queue[..Min(s.cfg.batchSize, |s.queue|)];
    if batch != [] {
      BatchPaid(|batch|, |s.queue| - |batch|, s.cfg.retryAttempts);
    }
  }

  lemma TurnSpends(s: State)
    requires Control(s) && Batch(s) && s.writer.AtTop? && !s.accepting
    ensures StepsLeft(ApplyTurn(s)) < StepsLeft(s)
  {
    if s.queue != [] {
      DrainSpends(s);
    }
  }

  lemma WriterStepSpends(s: State, e: Event)
    requires Control(s) && Batch(s) && Enabled(s, e) && IsWriterEvent(e) && !s.accepting
    ensures StepsLeft(Apply(s, e)) < StepsLeft(s)
  {
    match e
    case Turn => TurnSpends(s);
    case FlushDone => DrainSpends(s);
    case _ =>
  }

  lemma OtherStepSpendsNothing(s: State, e: Event)
    requires Control(s) && Enabled(s, e) && !IsWriterEvent(e) && !s.accepting
    ensures StepsLeft(Apply(s, e)) <= StepsLeft(s)
  {
    MulMonotone(PerEntry(s.cfg), 0, |s.queue|);
  }
}

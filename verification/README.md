# Verified models of the SFoA control plane, context and DML packages

A Dafny 4.11 project that models the parts of the repository whose behaviour is hardest to see
from one function, and proves what they promise over all inputs and all runs. `dafny verify
dfyconfig.toml` checks everything.

| part | modules |
|---|---|
| Asynchronous audit pipeline: bounded queue, writer with retries and poison isolation, timed shutdown | `AuditMachine`, `AuditInvariants`, `AuditTheorems`, `AuditPolicy`, `AuditStored`, `AuditPipeline` |
| Four-state visibility, the boolean-filter evaluator, field visibility | `Visibility`, `BooleanFilter`, `FilterTruth`, `VisibilityRules`, `Answerable`, `EffectiveFields`, `VisibilityMeaning` |
| Bounded sanitiser and UTF-8 truncation | `Utf8`, `Utf8Decoding`, `Sanitizer`, `Redaction`, `SanitizerBounds`, `SanitizerWalk` |
| Administration service over its tables | `AdminModel`, `AdminContracts`, `AdminInvariants`, `AdminRuns`, `AdminTrail`, `AdminService` |
| FlexiPage region graph and active page | `FlexiPage`, `FlexiPageProperties`, `FlexiPageChains`, `FlexiPagePlaces`, `FlexiPageSections`, `FlexiPageAcceptance`, `FlexiPageWalk`, `ActivePage`, `ActivePageMeaning`, `ActivePageApps` |
| Batch DML: duplicates, record types, outcome accounting | `FieldObjects`, `BatchRecords`, `RecordTypeFold`, `BatchDml`, `BatchMeaning` |
| Pipeline-stage chain | `StageChain` |
| Pending requests of the test client | `ClientMachine`, `McpTestClient` |
| Shared definitions | `Wrappers` |

How the models are built:

- Code that awaits is a step machine: JavaScript runs every stretch between two awaits without
  interruption, so each stretch is one event and a run is any sequence of enabled events. What the
  sink, the transport or the database answers and when a timer fires is left open. The classes
  (`AsyncAuditPipeline`, `Client`, `AdminRepositories`) hold the source's own fields, and each of
  their methods is proved to be a step of the machine, so what is proved of runs holds of them.
- Code that updates things in place (`SanitizationState`, `FilterEvaluator`, `Walker`, the loops
  over rows and stages) is a class or a method with loops, proved against a function or a property.
- What an operation answers is stated twice: as a function that follows the source, and, in the modules
  named for meaning, policy, places or contracts, as conditions on its inputs that do not mention it.
- Pattern matches, hashes and ciphers are abstract functions with the few properties that a theorem
  needs stated in its `requires`.

Where a promised property is false of the code, the model keeps the code, names an input where it
fails and proves exactly when it holds:

- *Conservation.* `isolatePoisonEntries` does not look at `abandonedInFlight`, so a shutdown that
  times out during isolation counts that batch twice (`OverCountHappens`); `ConservationOverRuns`
  gives the exact correction.
- *Dropped means not stored.* A batch that a timed-out close reports as dropped is stored when its
  write succeeds afterwards (`LateStoreHappens`); `StoredExactly` says when and how much.
- *PENDING means answerable.* An ordering of a text or date field is PENDING without a draft value
  and UNKNOWN with every one (`OrderedTextIsNeverAnswered`);
  `PendingCriterionIsAnswerableExactly` is the exact condition.
- *Sanitising twice.* Error objects become records that a second pass counts and may cut off, and
  dates, big integers, symbols and functions are written out unfiltered. `FixedPointExactly` is the
  exact condition; JSON values meet it. `NestedErrorReproducedExactly` says which errors come back
  changed.
- *Order of duplicate identities.* The comment above `duplicateBatchRecordIds`
  (packages/mcp-provider-sfoa-dml/src/schemas.ts:146) promises first-seen order; the loop yields the
  order of second occurrences. The model follows the code (`FirstSeenOrderExactly`).
- *One record type.* `createRecord` deletes one variant of the key where a batch deletes all of
  them, and the input rule compares one (`CreateSendsOneRecordTypeExactly`).
- *Distinct created records.* A CREATE reply may report one record for two rows, and nothing checks
  it (`CreatedRecordsAreDistinctExactly`).
- *No lost update.* The first write of the Diagnostic configuration inserts its row whatever version
  it was given (`NoLostUpdateExactly`).
- *Nothing pending after `disconnect`.* A request sent while the transport closes stays pending
  (`AfterDisconnect`).

## Model

| member | source | states |
|---|---|---|
| AuditTheorems.ConservationOverRuns | packages/sfoa-control-plane/src/audit-pipeline.ts:86-209 | in every reachable state persisted + dropped + queued + in flight equals what was ever offered plus the snapshots of a batch that the close timer caught under isolation; so the books balance exactly when that batch holds none, always when the timer never fires during isolation, and otherwise overstate by at most one batch |
| AuditTheorems.OverlapIsIsolationTimeout | packages/sfoa-control-plane/src/audit-pipeline.ts:132-145 | there is such a batch exactly when the timer fired while poison entries were being written one by one |
| AuditTheorems.OverCountHappens | packages/sfoa-control-plane/src/audit-pipeline.ts:193-209 | the overstatement is real: a run of two offered snapshots that ends with two persisted and two dropped |
| AuditTheorems.InvOfReachable | packages/sfoa-control-plane/src/audit-pipeline.ts:147-209 | control, batch, conservation, order, at-most-once and cost invariants together hold in every reachable state |
| AuditTheorems.FlushedMeansComplete | packages/sfoa-control-plane/src/audit-pipeline.ts:132-136 | a close that reports `flushed: true` leaves the queue and the batch in flight empty, with offered = persisted + dropped and every persisted snapshot in the sink |
| AuditTheorems.FifoOverRuns | packages/sfoa-control-plane/src/audit-pipeline.ts:147-162 | the batches drained so far, then what the timeout dropped, then the queue, are the accepted sequence; the depth never exceeds the capacity |
| AuditTheorems.AcceptingNeverReturns | packages/sfoa-control-plane/src/audit-pipeline.ts:262-265 | once the queue refuses entries it refuses them for ever and accepts nothing more |
| AuditTheorems.StoredInOrderAtMostOnce | packages/sfoa-control-plane/src/audit-pipeline.ts:167-209 | with a sink whose failures store nothing, the stored log is a subsequence of the accepted sequence that uses every accepted position at most once, whatever the retries, the isolation and the abandonment did |
| AuditStored.StoredExactly | packages/sfoa-control-plane/src/audit-pipeline.ts:132-173 | over any run the sink holds exactly the snapshots counted as persisted, unless a write succeeded after a timed-out close had abandoned its batch: then it holds that last batch too, although it was reported as dropped; never while a batch is in flight, and never together with a timeout under isolation |
| AuditStored.LateStoreHappens | packages/sfoa-control-plane/src/audit-pipeline.ts:132-173 | a run in which a close reports two entries dropped and both are stored afterwards |
| AuditTheorems.WriterEnds | packages/sfoa-control-plane/src/audit-pipeline.ts:147-165 | after `stopAccepting` the writer takes at most (queue length)·(2·retries + 4) + 2·retries + batchSize + 3 further steps, for any sink |
| AuditTheorems.WriterEndsBetween | packages/sfoa-control-plane/src/audit-pipeline.ts:147-165 | the same bound between any two points of one run |
| AuditTheorems.WriterNeverStuck | packages/sfoa-control-plane/src/audit-pipeline.ts:147-209 | until it has stopped the writer always has a step to take, and every answer of the sink is one |
| AuditTheorems.BatchCostOverRuns | packages/sfoa-control-plane/src/audit-pipeline.ts:167-209 | one batch costs at most retryAttempts + 1 whole-batch writes, one single write for each entry, and back-off of at most base·(2^retryAttempts − 1) |
| AuditPolicy.BatchesOverRuns | packages/sfoa-control-plane/src/audit-pipeline.ts:147-162 | every batch of every run was taken at some event of the run as the first min(batchSize, depth) entries of the queue of that moment; a batch that was not full was taken when the flush delay had ended, or while no entry could join it, or with no delay set |
| AuditPolicy.BatchTaken | packages/sfoa-control-plane/src/audit-pipeline.ts:154-161 | a step that adds a batch is the top of the writer loop or the end of the flush delay, takes the front of the queue and touches no counter; with less than a batch, an open queue and a delay set it is the end of the delay |
| AuditPolicy.TurnExactly | packages/sfoa-control-plane/src/audit-pipeline.ts:147-161 | at the top of its loop the writer stops, waits for work, delays or takes a batch, each in exactly one situation of stop flag, openness, depth and delay |
| AuditPolicy.FlushDelayEnds | packages/sfoa-control-plane/src/audit-pipeline.ts:154-158 | after the delay it takes what is queued, full batch or not, and goes back to its loop only when the shutdown emptied the queue |
| AuditPolicy.OfferMeaning | packages/sfoa-control-plane/src/audit-pipeline.ts:86-104 | an offer is appended iff the queue is open and has room; a refusal is one failure, a drop for a snapshot, and a full queue while open |
| AuditPolicy.WriteOkMeaning | packages/sfoa-control-plane/src/audit-pipeline.ts:170-173 | an answered write stores the whole batch and counts its snapshots unless it was abandoned |
| AuditPolicy.WriteFailMeaning | packages/sfoa-control-plane/src/audit-pipeline.ts:174-198 | in a reachable state a refused batch is left to the shutdown after a forced stop; a poisoned one is dropped when single and isolated otherwise; a retryable one is given up iff it was written retryAttempts + 1 times; each give-up drops the batch once with two failures |
| AuditPolicy.BackoffMeaning | packages/sfoa-control-plane/src/audit-pipeline.ts:188-189 | each delay is twice the one before it, starting from the base, and is followed by one more write of the same batch |
| AuditPolicy.EntryMeaning | packages/sfoa-control-plane/src/audit-pipeline.ts:198-209 | under isolation each entry is stored and counted, or dropped with two failures, and the next one is written |
| AuditPolicy.OnlyAnswersStore | packages/sfoa-control-plane/src/audit-pipeline.ts:167-209 | the sink grows only by a write it confirms |
| AuditPolicy.CloseTimeoutMeaning | packages/sfoa-control-plane/src/audit-pipeline.ts:137-145 | the close timer drops the snapshots queued and in flight, counts one failure and reports the number of entries |
| AuditPolicy.CloseMeaning | packages/sfoa-control-plane/src/audit-pipeline.ts:132-136 | closing refuses further offers and leaves queue, batch and counters; a close that sees the writer stop drops nothing |
| AuditInvariants.ConservedKept | packages/sfoa-control-plane/src/audit-pipeline.ts:86-216 | each step keeps the conservation equation with its correction term |
| AuditInvariants.FifoKept | packages/sfoa-control-plane/src/audit-pipeline.ts:147-162 | each step keeps the order equation |
| AuditInvariants.AtMostOnceKept | packages/sfoa-control-plane/src/audit-pipeline.ts:167-209 | each step keeps the stored positions strictly increasing and below what was drained |
| AuditPipeline.BoundedAuditQueue.Offer | packages/sfoa-control-plane/src/audit-pipeline.ts:247-252 | taken exactly when accepting and below the capacity; then the item is last |
| AuditPipeline.BoundedAuditQueue.Drain | packages/sfoa-control-plane/src/audit-pipeline.ts:254-256 | removes the first `maximum` items, in order |
| AuditPipeline.AsyncAuditPipeline.OfferSnapshot | packages/sfoa-control-plane/src/audit-pipeline.ts:86-95 | is the machine step `Offer`; refused snapshots are counted as dropped |
| AuditPipeline.AsyncAuditPipeline.OfferLegacy | packages/sfoa-control-plane/src/audit-pipeline.ts:97-104 | is the machine step `Offer` for an entry that is not a snapshot: a refusal is a failure but no drop |
| AuditPipeline.AsyncAuditPipeline.BeginClose | packages/sfoa-control-plane/src/audit-pipeline.ts:132-135 | is the machine step `CloseStart` |
| AuditPipeline.AsyncAuditPipeline.FinishClose | packages/sfoa-control-plane/src/audit-pipeline.ts:135-145 | is `CloseFlushed` or `CloseTimeout`; reports the queued and in-flight entries as dropped |
| AuditPipeline.AsyncAuditPipeline.RunWriter | packages/sfoa-control-plane/src/audit-pipeline.ts:147-165 | the writer loop only takes machine steps, under any interleaving of producers and shutdown, so what `AuditPolicy` says of batches and the flush delay holds of it; when it stops the queue and the batch in flight are empty and persisted + dropped is what was offered plus the overlap; once the queue is closed `StepsLeft` turns are enough |
| AuditPipeline.AsyncAuditPipeline.PersistWithPolicy | packages/sfoa-control-plane/src/audit-pipeline.ts:167-191 | the retry loop only takes machine steps and returns with the batch settled |
| AuditPipeline.AsyncAuditPipeline.BatchRejected | packages/sfoa-control-plane/src/audit-pipeline.ts:175-189 | the catch block: stop, isolate, give up or back off; it asks for another attempt only below the retry limit |
| AuditPipeline.AsyncAuditPipeline.IsolatePoisonEntries | packages/sfoa-control-plane/src/audit-pipeline.ts:193-209 | the isolation loop only takes machine steps and returns with the batch settled |
| Visibility.CombineMeaning | packages/mcp-provider-sfoa-context/src/visibility.ts:20-26 | AND is HIDDEN iff some input is, VISIBLE iff all are; OR dually; a PENDING result has a PENDING and no UNKNOWN input |
| Visibility.CombineMonotone | packages/mcp-provider-sfoa-context/src/visibility.ts:20-26 | learning more never overturns a VISIBLE or HIDDEN combination |
| Visibility.CombineSettles | packages/mcp-provider-sfoa-context/src/visibility.ts:20-26 | a PENDING combination becomes VISIBLE or HIDDEN as soon as its PENDING inputs do |
| BooleanFilter.ParseExactly | packages/mcp-provider-sfoa-context/src/visibility.ts:121-149 | the evaluator accepts a token list with a tree exactly when the list is the printed tree, with existing indices, at most 25 nested parentheses and at most 150 tokens |
| BooleanFilter.FilterMeaning | packages/mcp-provider-sfoa-context/src/visibility.ts:121-149 | the filter answers exactly on such sentences, with the meaning of the tree |
| BooleanFilter.AcceptanceIgnoresStates | packages/mcp-provider-sfoa-context/src/visibility.ts:121-149 | acceptance depends on how many states there are, never on their values |
| BooleanFilter.FilterSettles | packages/mcp-provider-sfoa-context/src/visibility.ts:121-149 | a filter keeps its decisions as more becomes known, and a PENDING filter is decided once its PENDING inputs are |
| FilterTruth.FilterIsTruth | packages/mcp-provider-sfoa-context/src/visibility.ts:121-149 | over decided criteria a sentence evaluates to its truth value with AND as conjunction and OR as disjunction |
| FilterTruth.DecisionsAreTrue | packages/mcp-provider-sfoa-context/src/visibility.ts:121-149 | a decision taken over undecided criteria is the truth value of the sentence however they turn out |
| FilterTruth.AndBindsCloser | packages/mcp-provider-sfoa-context/src/visibility.ts:136-145 | i OR j AND k and i AND j OR k, token by token: AND binds closer than OR |
| FilterTruth.ParenthesesGroup | packages/mcp-provider-sfoa-context/src/visibility.ts:128-132 | (i OR j) AND k: parentheses group |
| BooleanFilter.FilterEvaluator.TermAt | packages/mcp-provider-sfoa-context/src/visibility.ts:125-135 | the evaluator with its moving offset: answers where the grammar has a term, with its value and the offset after it |
| BooleanFilter.FilterEvaluator.ConjunctionAt | packages/mcp-provider-sfoa-context/src/visibility.ts:136-140 | the same for AND, which binds tighter |
| BooleanFilter.FilterEvaluator.ExpressionAt | packages/mcp-provider-sfoa-context/src/visibility.ts:141-145 | the same for OR |
| BooleanFilter.EvaluateFilter | packages/mcp-provider-sfoa-context/src/visibility.ts:121-149 | the whole evaluation equals the meaning of the sentence, and throws exactly on what is no sentence |
| VisibilityRules.Dedupe | packages/mcp-provider-sfoa-context/src/visibility.ts:88-89 | a list without its repetitions holds the same elements, each once |
| VisibilityRules.DecidedStaysDecided | packages/mcp-provider-sfoa-context/src/visibility.ts:29-91 | adding draft values (initial facts arbitrary) never changes a VISIBLE or HIDDEN rule |
| VisibilityRules.PendingIsAnswerable | packages/mcp-provider-sfoa-context/src/visibility.ts:47-50 | a PENDING rule is VISIBLE or HIDDEN once each PENDING criterion is |
| VisibilityRules.DraftAnswersPending | packages/mcp-provider-sfoa-context/src/visibility.ts:29-91 | in terms of the draft: values its comparisons can judge for every PENDING criterion decide the rule; `Answerable` says when there are such values |
| Answerable.JudgeableExactly | packages/mcp-provider-sfoa-context/src/visibility.ts:93-119 | some value that a draft may hold for a field of a type is judged iff the operator is a null test, or the right-hand side can be read in that type and the operator is an equality, CONTAINS on a text, or an ordering of numbers |
| Answerable.PendingCriterionIsAnswerableExactly | packages/mcp-provider-sfoa-context/src/visibility.ts:43-50 | so a PENDING criterion can be decided by a draft iff its operator suits the type of its field |
| Answerable.PendingRuleCanBeAnswered | packages/mcp-provider-sfoa-context/src/visibility.ts:70-90 | a PENDING rule with such criteria on different fields is decided by some admissible draft |
| Answerable.OrderedTextIsNeverAnswered | packages/mcp-provider-sfoa-context/src/effective-ui-resolver.ts:195-206 | a rule that orders a text field is PENDING without a draft value and decided by no draft that is let through |
| VisibilityMeaning.NumbersCompared | packages/mcp-provider-sfoa-context/src/visibility.ts:93-119 | for a supplied number and a right-hand side that reads as one: GT is VISIBLE iff left > right and HIDDEN iff left <= right, and so on for GE, LT, LE, equality and inequality; containment is UNKNOWN |
| VisibilityMeaning.TextsCompared | packages/mcp-provider-sfoa-context/src/visibility.ts:109-114 | for texts: equality is exact, CONTAINS is VISIBLE iff the right-hand side is a contiguous part, an ordering is UNKNOWN |
| VisibilityMeaning.TruthValuesCompared | packages/mcp-provider-sfoa-context/src/visibility.ts:99-112 | for truth values: equality and inequality, everything else UNKNOWN |
| VisibilityMeaning.NullsCompared | packages/mcp-provider-sfoa-context/src/visibility.ts:95-112 | null tests ask for null whatever the right-hand side; null equals itself only, and is neither ordered nor contained |
| VisibilityMeaning.UndecidedExactly | packages/mcp-provider-sfoa-context/src/visibility.ts:93-119 | a supplied value leaves a criterion UNKNOWN iff it is undefined, the operator is not supported, or the right-hand side has no reading in the type of the left that compares with it |
| VisibilityMeaning.UnsuppliedMeaning | packages/mcp-provider-sfoa-context/src/visibility.ts:31-69 | without a supplied value a criterion is undecided, and PENDING iff it asks, in a field rule, about a typed record field that no initial fact speaks of |
| VisibilityMeaning.RuleMeaning | packages/mcp-provider-sfoa-context/src/visibility.ts:29-75 | a rule without a filter is VISIBLE iff all criteria are, HIDDEN iff one is, PENDING iff none is HIDDEN or UNKNOWN and one is PENDING; an unsupported, empty or unreadable rule is UNKNOWN |
| VisibilityMeaning.DependenciesMeaning | packages/mcp-provider-sfoa-context/src/visibility.ts:31-88 | `dependsOn` holds exactly the typed record fields of the supported criteria and the missing user facts, each once |
| VisibilityRules.PendingNamesItsField | packages/mcp-provider-sfoa-context/src/visibility.ts:39-50 | a PENDING criterion asks about one record field without a draft value, and `dependsOn` holds it |
| VisibilityRules.PendingRuleAsksForAField | packages/mcp-provider-sfoa-context/src/visibility.ts:70-90 | a PENDING rule always names such a field |
| EffectiveFields.InstanceMeaning | packages/mcp-provider-sfoa-context/src/effective-ui-resolver.ts:211-214 | an instance is HIDDEN iff some rule is and VISIBLE iff all are |
| VisibilityMeaning.FieldMeaning | packages/mcp-provider-sfoa-context/src/effective-ui-resolver.ts:211-225 | a field is VISIBLE iff all rules of one of its instances are, HIDDEN iff each of its instances (perhaps none) has a HIDDEN rule, PENDING iff some instance is open and the others are open or hidden |
| EffectiveFields.FieldDecidedStaysDecided | packages/mcp-provider-sfoa-context/src/effective-ui-resolver.ts:211-225 | the decision of a field (AND over rules, OR over occurrences) is never overturned by further draft values |
| EffectiveFields.FieldPendingIsAnswerable | packages/mcp-provider-sfoa-context/src/effective-ui-resolver.ts:211-225 | a PENDING field is decided once its PENDING criteria are |
| EffectiveFields.FieldDependsOnPending | packages/mcp-provider-sfoa-context/src/effective-ui-resolver.ts:211-225 | each field behind a PENDING criterion is among the dependencies of the field's rules |
| EffectiveFields.PendingFieldAsksForAField | packages/mcp-provider-sfoa-context/src/effective-ui-resolver.ts:211-225 | a PENDING field depends on at least one field without a draft value |
| Utf8.ByteLengthIsEncodingLength | packages/sfoa-control-plane/src/audit-sanitization.ts:91-96 | the byte count that the search uses is the length of the UTF-8 encoding (section 3 of RFC 3629; pairs as in section 2 of RFC 2781; a lone surrogate is three bytes) |
| Utf8.PrefixLengthIncreases | packages/sfoa-control-plane/src/audit-sanitization.ts:160-170 | byte length is strictly increasing in the number of UTF-16 units |
| Utf8.PrefixWellFormed | packages/sfoa-control-plane/src/audit-sanitization.ts:168-169 | a prefix of well-formed text is well-formed iff it splits no pair |
| Utf8.TruncateUtf8 | packages/sfoa-control-plane/src/audit-sanitization.ts:160-170 | the binary search finds the longest fitting prefix, less a trailing high surrogate; on well-formed text no longer prefix fits without splitting a pair |
| Utf8.EncodingOfPrefix | packages/sfoa-control-plane/src/audit-sanitization.ts:160-170 | cut between characters, the bytes kept are the first bytes of the whole |
| Utf8Decoding.TextRoundTrip | packages/sfoa-control-plane/src/audit-sanitization.ts:160-170 | well-formed text comes back from its bytes under a decoder after RFC 3629 |
| Utf8Decoding.DecodeEncodeAll | packages/sfoa-control-plane/src/audit-sanitization.ts:160-170 | decoding undoes the encoding of any sequence of characters |
| Utf8Decoding.NoSurrogateEncoded | packages/sfoa-control-plane/src/audit-sanitization.ts:160-170 | no surrogate is ever encoded: half a pair becomes U+FFFD |
| Utf8Decoding.ScalarRoundTrip | packages/sfoa-control-plane/src/audit-sanitization.ts:160-170 | one character: length by the first byte, value, and the form of the bytes that follow |
| SanitizerWalk.EncodeBounded | packages/sfoa-control-plane/src/audit-sanitization.ts:63-102 | nothing is stored for an absent value or one without a serialisation; otherwise sizes are those of the encodings, the hash is that of what is stored, which fits the bound, is whole iff the whole fits, and is the longest such prefix of well-formed text |
| Sanitizer.FixedPointExactly | packages/sfoa-control-plane/src/audit-sanitization.ts:111-153 | sanitising twice equals sanitising once, node counter included, if and only if the walk meets no error object and no text left unfiltered that the filter would change |
| Sanitizer.JsonFixedPoint | packages/sfoa-control-plane/src/audit-sanitization.ts:111-153 | so it is a fixed point on all JSON values, of any depth, size, sharing or cycles |
| Sanitizer.NestedErrorReproducedExactly | packages/sfoa-control-plane/src/audit-sanitization.ts:111-139 | from the top of the walk, an error object inside k arrays is given back unchanged by a second pass iff k is not the depth limit |
| Sanitizer.BareErrorCountsTwice | packages/sfoa-control-plane/src/audit-sanitization.ts:124-126 | a bare error object is the plainest input that is no fixed point: the same value, but one node the first time and three the second |
| Sanitizer.NestWalk | packages/sfoa-control-plane/src/audit-sanitization.ts:134-139 | the walk goes down nested arrays one node at a time and rebuilds them around what it finds |
| Redaction.UntruncatedIsRedaction | packages/sfoa-control-plane/src/audit-sanitization.ts:111-158 | when `truncated` is false the result is the plain redaction without any bound |
| Redaction.RedactStable | packages/sfoa-control-plane/src/audit-sanitization.ts:111-153 | that reference definition does not depend on the nesting it is unfolded to |
| Redaction.NoSecretSurvives | packages/sfoa-control-plane/src/audit-sanitization.ts:142-149 | whatever stands under a secret key, at any depth, is the marker |
| SanitizerBounds.TruncatedExactly | packages/sfoa-control-plane/src/audit-sanitization.ts:111-158 | the result is marked truncated iff the value is nested more than eleven levels deep, as one that contains itself is, or has more than 10000 nodes, or an array of more than 500 items |
| SanitizerBounds.OutputIsCutInput | packages/sfoa-control-plane/src/audit-sanitization.ts:111-153 | whatever was cut, the output is the redaction of the input up to its markers: 500 items and a marker for a longer array, every key kept, a marker for a value cut off or met inside itself |
| SanitizerWalk.SanitizationState.SanitizeValue | packages/sfoa-control-plane/src/audit-sanitization.ts:111-153 | the mutable walk computes the specification and restores the set of open objects |
| SanitizerWalk.SanitizeWithMetadata | packages/sfoa-control-plane/src/audit-sanitization.ts:155-158 | a fresh walk: truncated iff the bounds are exceeded, untruncated means the plain redaction, truncated means the redaction up to markers, and no secret survives |
| AdminInvariants.InvariantsOverRuns | packages/sfoa-control-plane/src/admin-service.ts:61-491 | over every run of operations: the enabled Diagnostic user is no enabled route's user; each credential has its route and each route at most one active credential; enabled rules of enabled policies use only allowed operations; rule targets are distinct per policy up to case; user and object names are unique |
| AdminInvariants.PerformKeeps | packages/sfoa-control-plane/src/admin-service.ts:61-491 | each of the fifteen operations keeps those invariants |
| AdminRuns.NoLostUpdate | packages/sfoa-control-plane/src/mysql-repositories.ts:145-183 | after a success from some version of a row, no operation from the same version of that row succeeds, whatever was called in between |
| AdminRuns.NoLostUpdateExactly | packages/sfoa-control-plane/src/mysql-repositories.ts:511-541 | the one exception is exact: a second success from the same version is possible if and only if the first call inserted the Diagnostic row, which checks no version |
| AdminRuns.StaleIsRefused | packages/sfoa-control-plane/src/mysql-repositories.ts:859-867 | a version that a row has passed is refused by every operation |
| AdminRuns.RegenerateAtMostOnce | packages/sfoa-control-plane/src/admin-service.ts:215-254 | of the regenerate requests for a route that name the same credential, or none, at most one succeeds in any run, whatever versions they carry |
| AdminRuns.BatchIsSequence | packages/sfoa-control-plane/src/admin-service.ts:90-165 | a batch commits exactly when creating its rows one by one would, with the same tables; its preflight refuses only what would fail |
| AdminTrail.EveryMutationIsAudited | packages/sfoa-control-plane/src/admin-service.ts:524-558 | a call that does not commit changes nothing; one that commits appends exactly its records: operation and row, and for a batch the new routes in order |
| AdminTrail.TrailAccountsForRows | packages/sfoa-control-plane/src/admin-service.ts:61-558 | after any run from empty tables: each live route, policy, rule and Diagnostic row has as its version the number of its create, update, enable, disable and verify records; a row is gone iff a record says it was deleted; an identity has records iff it was ever used |
| AdminTrail.TrailAccountsForCredentials | packages/sfoa-control-plane/src/admin-service.ts:61-283 | after any run from empty tables a live route has exactly one active credential, and as many credentials as the trail has records of its creation and of regenerations for it |
| AdminTrail.SingleFollows | packages/sfoa-control-plane/src/mysql-repositories.ts:145-183 | a committed call writes one row, one version on, or deletes one, or neither, as its record says, and no other row |
| AdminTrail.CreateAllAudits | packages/sfoa-control-plane/src/admin-service.ts:129-153 | creating rows appends their creations with consecutive new identities |
| AdminService.AdminRepositories.CreateIdentityRoute | packages/sfoa-control-plane/src/admin-service.ts:61-88 | route inserted, then credential, then record; when a later write fails the earlier ones are undone, and tables and answer are the model step's |
| AdminService.AdminRepositories.BatchCreateIdentityRoutes | packages/sfoa-control-plane/src/admin-service.ts:98-165 | preflight with a growing `seen` set, then a write loop over the updated tables; a failure in any row undoes all rows, as in the model step |
| AdminService.AdminRepositories.CollectConflicts | packages/sfoa-control-plane/src/admin-service.ts:107-124 | the preflight reports exactly the conflicting rows, in order |
| AdminService.AdminRepositories.UpdateIdentityRoute | packages/sfoa-control-plane/src/admin-service.ts:167-187 | the Diagnostic check comes before the lookup; the old row is read before it is overwritten, so the recorded operation is that of the model step |
| AdminService.AdminRepositories.DisableIdentityRoute | packages/sfoa-control-plane/src/admin-service.ts:189-203 | keeps every other column of the row and raises its version, as the model step |
| AdminService.AdminRepositories.RegenerateIdentityCredential | packages/sfoa-control-plane/src/admin-service.ts:215-254 | the old credential is revoked before the new one is inserted, and a token conflict undoes the revocation, as in the model step |
| AdminService.AdminRepositories.RevokeCredential | packages/sfoa-control-plane/src/mysql-repositories.ts:247-259 | revokes exactly an active row at the given version and raises its version |
| AdminService.AdminRepositories.DeleteIdentityRoute | packages/sfoa-control-plane/src/admin-service.ts:256-283 | revoking, deleting the credentials and deleting the route leave the tables of the model step |
| AdminService.AdminRepositories.CreateDmlPolicy | packages/sfoa-control-plane/src/admin-service.ts:312-319 | the input is checked before the transaction; insert and record are undone together |
| AdminService.AdminRepositories.UpdateDmlPolicy | packages/sfoa-control-plane/src/admin-service.ts:321-332 | is the model step; an enabled policy must still allow its enabled rules |
| AdminService.AdminRepositories.CheckEnabledRules | packages/sfoa-control-plane/src/admin-service.ts:324-327 | the loop refuses iff some enabled rule uses an operation no longer allowed |
| AdminService.AdminRepositories.DisableDmlPolicy | packages/sfoa-control-plane/src/admin-service.ts:334-340 | keeps what the policy allows and raises its version, as the model step |
| AdminService.AdminRepositories.CreateManagedDmlFieldRule | packages/sfoa-control-plane/src/admin-service.ts:342-363 | policy lookup, rule checks, the paging loop and the insert together are the model step |
| AdminService.AdminRepositories.UpdateManagedDmlFieldRule | packages/sfoa-control-plane/src/admin-service.ts:365-392 | the same with the rule itself excluded from the paging loop |
| AdminService.AdminRepositories.DisableManagedDmlFieldRule | packages/sfoa-control-plane/src/admin-service.ts:394-418 | keeps the rule's other columns and its policy, as the model step |
| AdminService.AdminRepositories.DeleteManagedDmlFieldRule | packages/sfoa-control-plane/src/admin-service.ts:420-446 | refuses an enabled rule before it looks at the version, as the model step |
| AdminService.AdminRepositories.AssertManagedTargetIsUnique | packages/sfoa-control-plane/src/admin-service.ts:648-665 | the paging loop sees every rule: it reports a conflict iff any other rule of the policy manages the field, up to case |
| AdminService.AdminRepositories.UpdateDiagnosticConfig | packages/sfoa-control-plane/src/admin-service.ts:448-469 | the user check and the upsert together are the model step; a refused version undoes nothing because nothing was written |
| AdminService.AdminRepositories.Upsert | packages/sfoa-control-plane/src/mysql-repositories.ts:511-541 | inserts at version 1, or writes exactly from the current version |
| AdminService.AdminRepositories.RecordDiagnosticVerification | packages/sfoa-control-plane/src/admin-service.ts:471-491 | keeps the configuration, sets the verification and raises the version, as the model step |
| AdminService.AdminRepositories.Conclude | packages/sfoa-control-plane/src/store.ts:15-30 | a transaction whose last write fails leaves every table as it was |
| AdminContracts.CreateRouteMeaning | packages/sfoa-control-plane/src/admin-service.ts:61-88 | commits iff the user name is not that of the enabled Diagnostic account, the platform user has no route and the token is unused; the new route and its active credential hold the arguments at version 1 |
| AdminContracts.UpdateRouteMeaning | packages/sfoa-control-plane/src/admin-service.ts:167-187 | exactly when it commits and which error it reports otherwise; the row holds the arguments, one version on, and no other row changes |
| AdminContracts.DisableRouteMeaning | packages/sfoa-control-plane/src/admin-service.ts:189-203 | the disabled route is disabled, its other columns are kept, its version goes up by one |
| AdminContracts.DeleteRouteMeaning | packages/sfoa-control-plane/src/admin-service.ts:256-283 | only a disabled route at the given version is deleted, together with exactly its credentials |
| AdminContracts.RegenerateExactly | packages/sfoa-control-plane/src/admin-service.ts:215-254 | commits iff the route is at the given version, has at most one active credential, the request names it at its version or names none when there is none, and the token is unused; otherwise which error |
| AdminContracts.RegenerateMeaning | packages/sfoa-control-plane/src/admin-service.ts:215-254 | the new credential is the active one; the old one is kept, inactive, one version on |
| AdminContracts.CreatePolicyMeaning | packages/sfoa-control-plane/src/admin-service.ts:312-319 | an enabled policy must allow something and no policy may share its object name; the row holds the arguments at version 1 |
| AdminContracts.UpdatePolicyMeaning | packages/sfoa-control-plane/src/admin-service.ts:321-332 | the same, and an enabled policy may not break an enabled rule of its own; the row holds the arguments, one version on |
| AdminContracts.DisablePolicyMeaning | packages/sfoa-control-plane/src/admin-service.ts:334-340 | the policy is disabled and otherwise kept |
| AdminContracts.CreateRuleMeaning | packages/sfoa-control-plane/src/admin-service.ts:342-363 | commits iff the policy exists and allows what the rule applies on, the rule is well-formed for its strategy and its field is free; the row is the input at version 1 |
| AdminContracts.UpdateRuleMeaning | packages/sfoa-control-plane/src/admin-service.ts:365-392 | the same for the rule itself excluded, before its version is checked; the row is the input, one version on |
| AdminContracts.DisableRuleMeaning | packages/sfoa-control-plane/src/admin-service.ts:394-418 | the rule is disabled and otherwise kept |
| AdminContracts.DeleteRuleMeaning | packages/sfoa-control-plane/src/admin-service.ts:420-446 | only a disabled rule is deleted, and that is asked before its version |
| AdminContracts.UpdateDiagnosticMeaning | packages/sfoa-control-plane/src/admin-service.ts:448-469 | exactly when it commits; the row holds the input, unverified, one version on or at version 1 |
| AdminContracts.VerifyDiagnosticMeaning | packages/sfoa-control-plane/src/admin-service.ts:471-491 | sets the verification at the given version and keeps the configuration |
| AdminContracts.BatchRefusedExactly | packages/sfoa-control-plane/src/admin-service.ts:98-127 | a batch is answered without writing iff it is empty, repeats a platform user, or some row names a taken one or the Diagnostic account |
| AdminContracts.TransactionMeaning | packages/sfoa-control-plane/src/store.ts:15-30 | a call commits iff its operation does and its writes succeed; otherwise no table changes |
| FlexiPage.Visit | packages/mcp-provider-sfoa-context/src/flexipage-parser.ts:23-61 | one visit ends, counts at least one step and never goes beyond 3000 |
| FlexiPageProperties.ParsedPageSound | packages/mcp-provider-sfoa-context/src/flexipage-parser.ts:10-71 | on any region graph a parsed page took at most 3000 visits; each field stands at its order, on a simple path from a root Region along the references, with the container rules of that path followed by its own; with distinct field objects UNREACHABLE_FIELDS is absent iff every placed field was visited |
| FlexiPageProperties.UnmarkedPageIsComplete | packages/mcp-provider-sfoa-context/src/flexipage-parser.ts:30-42 | without that marker and the placement marker every placed field is emitted |
| FlexiPageChains.ParsedChainsAreSimple | packages/mcp-provider-sfoa-context/src/flexipage-parser.ts:23-61 | on a page walked to its end every chain of references from a root Region, through items that are not left early, is free of repetition, at most 26 regions long and names existing regions |
| FlexiPageChains.CyclicPageIsRefused | packages/mcp-provider-sfoa-context/src/flexipage-parser.ts:25 | a page with a chain that comes back to a region is refused |
| FlexiPageAcceptance.AcceptedExactly | packages/mcp-provider-sfoa-context/src/flexipage-parser.ts:10-71 | a page is accepted iff it has at most 500 regions with different names, no chain repeats a region, is longer than 26 or leads to a missing region, its visits number at most 3000, and it shows at most 1000 fields with at most 30 rules each |
| FlexiPageAcceptance.WalkedExactly | packages/mcp-provider-sfoa-context/src/flexipage-parser.ts:23-61 | the walk ends iff its chains and visits are so, takes exactly these visits, and reports a missing region only for a chain that leads to one |
| FlexiPagePlaces.EmittedExactly | packages/mcp-provider-sfoa-context/src/flexipage-parser.ts:23-61 | the emitted fields are exactly the supported fields inside a section that chains of references lead to: each is emitted for every such chain, in the section and column that the chain gives it |
| FlexiPagePlaces.SectionOfField | packages/mcp-provider-sfoa-context/src/flexipage-parser.ts:52-59 | an emitted field carries the caption of the last section on its way, or that section's number for want of one |
| FlexiPagePlaces.ColumnOfField | packages/mcp-provider-sfoa-context/src/flexipage-parser.ts:58-59 | its column is the item index of the last column component on its way, or, when a section comes later, the index of that section's reference |
| FlexiPageSections.SectionNumbersIdentify | packages/mcp-provider-sfoa-context/src/flexipage-parser.ts:52-54 | two fields with one section number were reached through the same section by the same way |
| FlexiPagePlaces.MarkersExactly | packages/mcp-provider-sfoa-context/src/flexipage-parser.ts:21-36 | each marker is set iff its cause is on the page: inheritance, page type, a reached field that is misplaced or of an unsupported form, one of unknown behaviour |
| FlexiPagePlaces.VisitedExactly | packages/mcp-provider-sfoa-context/src/flexipage-parser.ts:30 | a field object counts as visited iff some chain leads to it |
| FlexiPagePlaces.FormSourceExactly | packages/mcp-provider-sfoa-context/src/flexipage-parser.ts:68 | DYNAMIC_FORMS, MIXED, PAGE_LAYOUT or UNRESOLVED as chains lead to a supported field, to a desktop record detail, to both or to neither |
| FlexiPagePlaces.RulesExactly | packages/mcp-provider-sfoa-context/src/flexipage-parser.ts:39-58 | the rules of an emitted field are its own and those of the containers on its way, an unsupported one for an unknown container; required and read-only as its behaviour says |
| FlexiPageProperties.TrailRefers | packages/mcp-provider-sfoa-context/src/flexipage-parser.ts:58-59 | each container on a field's path refers to the next region |
| FlexiPageProperties.ContainersGovern | packages/mcp-provider-sfoa-context/src/flexipage-parser.ts:55-59 | a field below a HIDDEN container is HIDDEN, and one below an unknown container with references is HIDDEN or UNKNOWN, whatever its other rules |
| FlexiPageWalk.Walker.VisitRegion | packages/mcp-provider-sfoa-context/src/flexipage-parser.ts:23-61 | the visit that pushes and counts in place is the specified walk, errors included |
| FlexiPageWalk.ParsePage | packages/mcp-provider-sfoa-context/src/flexipage-parser.ts:10-71 | the parser returns what the walk specifies, with sound fields |
| ActivePage.WeightsAreLexicographic | packages/mcp-provider-sfoa-context/src/active-page.ts:34 | the 4/2/1/0.5 weights order rows lexicographically by app, profile, record type, form factor |
| ActivePage.TiesHaveTheSameKey | packages/mcp-provider-sfoa-context/src/active-page.ts:27-36 | matching rows tie iff their keys are equal |
| ActivePage.ChosenRows | packages/mcp-provider-sfoa-context/src/active-page.ts:32-37 | the chosen rows are exactly the matching rows of the action that none outranks |
| ActivePage.ChosenRowsShareTheirKey | packages/mcp-provider-sfoa-context/src/active-page.ts:32-37 | several chosen rows share one key |
| ActivePageMeaning.CreationDecides | packages/mcp-provider-sfoa-context/src/active-page.ts:38-47 | from the rows of the snapshot: New rows that tie make an app ambiguous, a doubtful Default row unresolved, and a row of another page CUSTOM_OVERRIDE with its reason |
| ActivePageMeaning.ViewDecides | packages/mcp-provider-sfoa-context/src/active-page.ts:48-57 | otherwise View rows that tie or doubt do the same, and no row or a standard one gives PAGE_LAYOUT, with the row's source or SALESFORCE_STANDARD |
| ActivePageMeaning.PageDecides | packages/mcp-provider-sfoa-context/src/active-page.ts:58-64 | otherwise the page named by the View row: the reason it cannot be used, or its own form source under its name, app and source |
| ActivePageMeaning.CustomOverrideExactly | packages/mcp-provider-sfoa-context/src/active-page.ts:44-47 | an app's answer is the custom override iff the sole most specific New row names a page that is neither Default nor Standard |
| ActivePageMeaning.PageLayoutExactly | packages/mcp-provider-sfoa-context/src/active-page.ts:38-57 | it is the page layout iff both actions leave the standard page |
| ActivePageMeaning.OwnPageExactly | packages/mcp-provider-sfoa-context/src/active-page.ts:58-64 | it is page p iff New leaves the standard page and the sole most specific View row names p, a Flexipage with one entry, nothing unsupported and a resolved form source |
| ActivePageMeaning.AmbiguousExactly | packages/mcp-provider-sfoa-context/src/active-page.ts:39-49 | it is ambiguous iff two most specific New rows tie, or New leaves the standard page and two View rows tie |
| ActivePageApps.ReadyExactly | packages/mcp-provider-sfoa-context/src/active-page.ts:13-18 | the request is placed iff the form factor is Large, one profile has the identifier, and the record type is the master or has one named entry |
| ActivePageApps.NotPlaced | packages/mcp-provider-sfoa-context/src/active-page.ts:13-18 | otherwise which reason, in the order in which it is looked at |
| ActivePageApps.NamedAppAnswer | packages/mcp-provider-sfoa-context/src/active-page.ts:19-26 | a named app answers for its one entry; which reason it carries when no app, or no single one, is meant |
| ActivePageApps.AllAppsAnswer | packages/mcp-provider-sfoa-context/src/active-page.ts:66-71 | without a named app the first unresolved app speaks for all, different answers require an app to be named, and a common answer of several apps carries no app and the source APPLICABLE_APPS_CONVERGED |
| ActivePage.OrderOfAssignmentsIsIrrelevant | packages/mcp-provider-sfoa-context/src/active-page.ts:5-72 | permuting the assignments never changes the answer |
| ActivePage.ResolvedMeansAgreement | packages/mcp-provider-sfoa-context/src/active-page.ts:66-71 | without a named app the answer is RESOLVED iff there are apps, each selects one entry and all resolve to the same form source, page and reason |
| ActivePage.NamingAnAppAgrees | packages/mcp-provider-sfoa-context/src/active-page.ts:21-71 | a RESOLVED answer without a named app is also the answer for any named app that selects one entry |
| BatchRecords.DuplicatesMeaning | packages/mcp-provider-sfoa-dml/src/schemas.ts:148-159 | an identity is reported iff at least two rows carry it |
| BatchRecords.DuplicatesDistinct | packages/mcp-provider-sfoa-dml/src/schemas.ts:148-159 | each identity is reported once |
| BatchRecords.Seconds | packages/mcp-provider-sfoa-dml/src/schemas.ts:148-159 | the reported positions are exactly the second occurrences, in increasing order |
| BatchRecords.DuplicateBatchRecordIds | packages/mcp-provider-sfoa-dml/src/schemas.ts:148-159 | the loop with its `seen` set returns the identities at those positions |
| BatchRecords.FirstSeenOrderExactly | packages/mcp-provider-sfoa-dml/src/schemas.ts:138-147 | the first-seen order that the comment promises holds iff no repetition encloses another |
| BatchRecords.NotFirstSeenOrder | packages/mcp-provider-sfoa-dml/src/schemas.ts:138-147 | x, y, y, x is an input where it does not: y is reported before x |
| BatchRecords.UniqueReferences | packages/mcp-provider-sfoa-dml/src/schemas.ts:126-134 | an issue for exactly the rows that repeat an earlier key, in order; none iff the keys are distinct |
| RecordTypeFold.FoldForBatch | packages/mcp-provider-sfoa-dml/src/dml-executor.ts:118-122 | a batch row is sent with its other fields as given and exactly one record type key |
| RecordTypeFold.CreateSends | packages/mcp-provider-sfoa-dml/src/dml-executor.ts:35-44 | a single CREATE sends the other fields as given, and every variant of the key but the first beside the canonical one |
| RecordTypeFold.CreateSendsOneRecordTypeExactly | packages/mcp-provider-sfoa-dml/src/dml-executor.ts:36-44 | so it sends one record type, the analysed one, iff there is at most one variant, or two with the canonical one second |
| RecordTypeFold.CreateCanSendTwoRecordTypes | packages/mcp-provider-sfoa-dml/src/schemas.ts:69-82 | the input rule compares only the first variant: fields that pass it and are sent with two record types |
| BatchDml.AccountsAlways | packages/mcp-provider-sfoa-dml/src/dml-executor.ts:132-192 | on every path total = succeeded + failed + unknown, the totals count the rows, and row i carries index i and the key of request i |
| BatchDml.StatusMeaning | packages/mcp-provider-sfoa-dml/src/dml-executor.ts:132-192 | for a parsed request: SUCCESS, FAILED and OUTCOME_UNKNOWN iff all rows say so, PARTIAL_SUCCESS iff some succeeded and some failed; never for an all-or-none request |
| BatchDml.SuccessIsProved | packages/mcp-provider-sfoa-dml/src/dml-executor.ts:132-158 | a row is reported as done iff the whole reply is verifiable and says so, with the reply's record; unknown iff the reply is unverifiable and no structured rejection |
| BatchMeaning.VerifiesMeaning | packages/mcp-provider-sfoa-dml/src/dml-executor.ts:134-144 | the reply is believed iff it has a row per request, each says whether it succeeded and lists its errors, each success names a record (for an UPDATE the one asked for), and under allOrNone all rows agree |
| BatchMeaning.AnswerMeaning | packages/mcp-provider-sfoa-dml/src/dml-executor.ts:132-192 | status, record, code, index and reference of every row for every reply: passed on from a believed reply, failed on a rejection, unknown on anything else |
| BatchMeaning.TotalsMeaning | packages/mcp-provider-sfoa-dml/src/dml-executor.ts:153-158 | the totals are the numbers of rows with each status |
| BatchDml.FailureAccounts | packages/mcp-provider-sfoa-dml/src/dml-executor.ts:180-192 | the failure output accounts for every row up to 200, for a list of any length |
| BatchDml.FailureStatus | packages/mcp-provider-sfoa-dml/src/tools/batch-records.ts:57 | its status is what its rows say iff it has rows: an input that cannot be parsed is reported FAILED without any |
| BatchDml.NoDuplicatesMeaning | packages/mcp-provider-sfoa-dml/src/dml-executor.ts:106-111 | the duplicate gate passes iff the rows name pairwise distinct records |
| BatchDml.UpdatedRecordsAreDistinct | packages/mcp-provider-sfoa-dml/src/dml-executor.ts:106-144 | rows that an UPDATE reports as done name pairwise distinct records |
| BatchDml.CreatedRecordsAreDistinctExactly | packages/mcp-provider-sfoa-dml/src/dml-executor.ts:137-144 | rows that a CREATE reports as done name pairwise distinct records iff the reply is not used or reports no record as created twice |
| BatchDml.CreatedRecordsMayRepeat | packages/mcp-provider-sfoa-dml/src/dml-executor.ts:137-144 | an input where two rows report one record |
| BatchDml.DmlExecutor.Batch | packages/mcp-provider-sfoa-dml/src/dml-executor.ts:102-159 | sent iff an UPDATE names distinct records, the policy lists the operation for the object, there is one user name and it is not empty, and the version is at least 42; each refusal code iff its condition is the first to fail; nothing is sent otherwise, one collection if so |
| BatchDml.DmlExecutor.Payloads | packages/mcp-provider-sfoa-dml/src/dml-executor.ts:117-124 | each row's payload, record type folded |
| BatchMeaning.PayloadMeaning | packages/mcp-provider-sfoa-dml/src/dml-executor.ts:117-124 | a row is sent with its record and its fields; a given record type stands last, in place of every field of that name in any case |
| BatchMeaning.ObjectKeyMeaning | packages/mcp-provider-sfoa-dml/src/allowlist.ts:83-93 | object names share an entry of the policy iff they differ in case only |
| StageChain.ComputeFirstStageId | packages/mcp-provider-devops/src/getWorkItemsMP.ts:97-101 | the first row that no row names as successor; none iff every row is a successor |
| StageChain.IndexStagesById | packages/mcp-provider-devops/src/getWorkItemsMP.ts:103-107 | holds exactly the ids of the rows, each with the last row of that id |
| StageChain.OrderStagesFromFirst | packages/mcp-provider-devops/src/getWorkItemsMP.ts:109-121 | the cursor loop ends on any graph and follows the links |
| StageChain.FollowSound | packages/mcp-provider-devops/src/getWorkItemsMP.ts:109-121 | distinct stages of the input, consecutively linked |
| StageChain.FollowMaximal | packages/mcp-provider-devops/src/getWorkItemsMP.ts:113-119 | it stops only where the next stage is missing, unknown or already listed |
| StageChain.FollowChain | packages/mcp-provider-devops/src/getWorkItemsMP.ts:109-121 | rows that form one chain, in any order, are listed as that chain |
| StageChain.FirstOfChain | packages/mcp-provider-devops/src/getWorkItemsMP.ts:97-101 | the first stage of a chain is found in any row order |
| StageChain.FindHighestReachedStageId | packages/mcp-provider-devops/src/getWorkItemsMP.ts:146-153 | the furthest completed stage of the list |
| StageChain.TargetOfChain | packages/mcp-provider-devops/src/getWorkItemsMP.ts:155-161 | the target is the successor of the furthest completed stage, or the first stage when none is completed or the last one is |
| StageChain.TargetStage | packages/mcp-provider-devops/src/getWorkItemsMP.ts:38-43 | the composition of the steps, from rows and completed stages to the target |
| ClientMachine.PendingOrSettled | packages/mcp-test-client/src/index.ts:135-171 | in every reachable state an issued request is pending with a live timer or settled, and both only if its `send` threw |
| ClientMachine.SettledForGood | packages/mcp-test-client/src/index.ts:186-224 | a settlement never changes and a released request is never pending again |
| ClientMachine.ReplyReachesItsRequest | packages/mcp-test-client/src/index.ts:186-203 | a reply settles the pending request with its id and no other: with the result iff it has no error, with the error message otherwise, or "Unknown error" when that is empty |
| ClientMachine.OutcomeCameFromItsReply | packages/mcp-test-client/src/index.ts:186-203 | every result or peer error came in a message with the request's id while it was pending, and is that message's result or error |
| ClientMachine.SettledExactly | packages/mcp-test-client/src/index.ts:87-224 | an open request ends in an event, and in one of the seven ways, iff the event is that way's cause |
| ClientMachine.OutcomeHasItsCause | packages/mcp-test-client/src/index.ts:87-224 | over runs: whatever a caller is told was caused by an event of the run |
| ClientMachine.OtherMessagesAreIgnored | packages/mcp-test-client/src/index.ts:186-190 | a message without a number for an id changes nothing |
| ClientMachine.IssuedExactly | packages/mcp-test-client/src/index.ts:105-146 | a request is issued under the next number iff something is sent over a transport, a tool call only when connected |
| ClientMachine.ConnectedExactly | packages/mcp-test-client/src/index.ts:39-103 | when the client is connected, when it has a transport and how many disconnects are under way, after any event |
| ClientMachine.NothingPendingAfter | packages/mcp-test-client/src/index.ts:205-224 | after a transport error, a close or the start of a disconnect nothing is pending and everything that was is settled |
| ClientMachine.TimersEndRequests | packages/mcp-test-client/src/index.ts:151-154 | a request whose timer fires is not pending afterwards |
| ClientMachine.AfterDisconnect | packages/mcp-test-client/src/index.ts:87-103 | after a completed disconnect exactly the requests issued while it awaited the transport, and not released in that time, are pending |
| ClientMachine.PendingExactly | packages/mcp-test-client/src/index.ts:135-224 | a request issued in a run is pending iff no later event released it |
| ClientMachine.QuietDisconnect | packages/mcp-test-client/src/index.ts:87-103 | so nothing is pending when no request was sent meanwhile |
| ClientMachine.DisconnectCanLeaveARequest | packages/mcp-test-client/src/index.ts:87-103 | a run where one is |
| McpTestClient.Client.SendRequest | packages/mcp-test-client/src/index.ts:135-171 | the id is issued, timed and tabled before `send`; a throw rejects the promise and leaves timer and entry, as in the machine |
| McpTestClient.Client.HandleMessage | packages/mcp-test-client/src/index.ts:186-203 | only a table hit is removed, its timer cleared and its promise resolved with the result iff there is no error, or rejected with the message or its default; no other promise changes |
| McpTestClient.Client.TimerFires | packages/mcp-test-client/src/index.ts:151-154 | removes its own entry and rejects its own promise as timed out |
| McpTestClient.Client.RejectAll | packages/mcp-test-client/src/index.ts:92-98 | rejecting and clearing in any order of the table gives the same state |
| McpTestClient.Client.HandleError | packages/mcp-test-client/src/index.ts:205-213 | empties the table, rejects its open requests with the transport error and keeps the connection |
| McpTestClient.Client.HandleClose | packages/mcp-test-client/src/index.ts:215-224 | empties the table, rejects its open requests as closed and marks the client disconnected, the transport staying |
| McpTestClient.Client.StartDisconnect | packages/mcp-test-client/src/index.ts:87-99 | does nothing without a connection; otherwise empties the table, rejects its open requests as disconnected and awaits the transport |
| McpTestClient.Client.FinishDisconnect | packages/mcp-test-client/src/index.ts:99-102 | drops transport and connection and leaves the table alone |
| McpTestClient.Client.CallTool | packages/mcp-test-client/src/index.ts:105-133 | sends only on an established connection with a transport |

## Left out

Whole areas:

- Salesforce connections, HTTP, MySQL statements and git: each is an outcome chosen by the environment or a table held as a map. Serialisation of transactions by the sentinel row is taken as given: a service call is one step.
- Regular expressions, input schemas, hashing, encryption, time stamps, log messages and the fallback logger.
- `bootstrapFromEnvironment`, tool controls, runtime settings, attachment staging and the read operations of the administration service.
- React UI, localisation, playbooks, provider registration, telemetry, configuration loading, row and DTO mappings.

Audit pipeline:

- `recordCollectorFailure` and `getHealth`, which only count and report.
- The promise hop between the end of `persistWithPolicy` and the loop's next test is part of the writer's stretch: no timer callback runs there, though offers may.
- AuditPipeline.AsyncAuditPipeline.RunWriter: takes the number of loop iterations as a parameter, because the original loops for as long as it accepts entries; once the queue is closed any number from `StepsLeft` on gives the whole loop.
- Accuracy of timers: only the order of events and the sums of the requested delays are modelled.

Visibility:

- The filter starts from its tokens; a text that the tokeniser does not cover is `Unreadable`. Numbers are compared as real numbers, and a text comes with its readings as a truth value and as a number.
- The `criteria`, `dependencies` and `kinds` reports of a decision.
- Of `effectiveFields`, the picklist bounds, default values and the required and editable flags.

Sanitiser:

- The text filter and the secret-key test are functions; the filter is idempotent and fixes the three markers where a theorem says `Sound`. Dates that throw when printed and keys such as `__proto__` are not modelled; JSON serialisation stands outside, and the content hash is a function.
- `encodeBoundedAuditJson`, a simple size switch.

Administration service:

- Remarks, time stamps, the last four characters and the ciphertext of a token. Unique indexes on rules and on active credentials are not assumed: the invariants rest on the service's own checks.
- Gaps between identities: here a transaction that is rolled back also puts the identity counters back, whereas MySQL leaves its auto-increment values consumed. `AdminTrail.Unused` is measured by these counters, so that an identity has records exactly when it was ever used holds of this numbering; an identity that MySQL consumed in a rolled-back transaction has no row and no records either.
- Rule listings are ordered by identity instead of target name and identity; the paging loop is proved for a fixed order of all rows.

Pages:

- Instance identifiers and the length limits of the page schema other than those on fields. A field's `node` and `trail` are witnesses that the output does not have.
- Empty names in assignment rows, which their schema excludes.

Batch DML:

- Error details of rows and messages; the mutation observer; throws of the connection lookup itself. Lower case is that of the letters A to Z.
- `update` of a single record, and the record-type lookup of the provider.

Stage chain and test client:

- Branch names of stages and the queries; the client's handshake schema and the identity of the transport, of which only the presence is kept.

/** One batch of record mutations: the gates before it is sent, and what is reported of every
    row whatever the service answers. */
module BatchDml {
  import opened Wrappers
  import opened FieldObjects
  import opened BatchRecords
  import RecordTypeFold

  const MAX_ROWS := 200

  datatype Operation = CREATE | UPDATE
  datatype Code = INPUT_INVALID | BATCH_DUPLICATE_RECORD_ID | OBJECT_NOT_ALLOWED | OPERATION_NOT_ALLOWED
      | IDENTITY_CONTEXT_INVALID
                | CONFIGURATION_INVALID | DML_FAILED | DML_OUTCOME_UNKNOWN
  datatype Input = Input(objectApiName: string, allOrNone: bool, items: seq<Item>)
  datatype Payload = Payload(fields: seq<Field<string>>, id: Option<string>)
  datatype Sent = Sent(operation: Operation, objectApiName: string, records: seq<Payload>, allOrNone: bool)

  /** One row of the service's reply; a member of an unexpected type is absent. */
  datatype SaveResult = SaveResult(success: Option<bool>, id: Option<string>, listsErrors: bool)
  /** A throw is `structured` when it carries an error body with codes and messages. */
  datatype Reply = Thrown(structured: bool) | NotAList | Rows(rows: seq<SaveResult>)

  datatype RowStatus = ROW_SUCCESS | ROW_FAILED | ROW_UNKNOWN
  datatype RowResult = RowResult(index: nat, reference: Option<string>, success: bool, status: RowStatus,
                                 recordId: Option<string>, errorCode: Option<Code>)
  datatype BatchStatus = SUCCESS | PARTIAL_SUCCESS | FAILED | OUTCOME_UNKNOWN
  datatype Output = Output(success: bool, status: BatchStatus, total: nat, succeeded: nat, failed: nat, unknown: nat,
                           allOrNone: bool, errorCode: Option<Code>, results: seq<RowResult>)
  datatype Outcome = Refused(code: Code) | Answered(output: Output)

  /** What the input schemas leave of a request. */
  predicate Parsed(operation: Operation, input: Input) {
    && 1 <= |input.items| <= MAX_ROWS
    && (forall i :: 0 <= i < |input.items| ==> ParsedItem(operation, input.items[i]))
    && forall i, j :: 0 <= i < j < |input.items| && Given(input.items[i].reference)
         ==> input.items[i].reference != input.items[j].reference
  }

  predicate ParsedItem(operation: Operation, item: Item) {
    && DistinctNames(item.fields)
    && (item.reference.Some? ==> |item.reference.value| > 0)
    && (item.recordTypeId.Some? ==> operation.CREATE? && IsRecordId(item.recordTypeId.value))
    && (item.recordId.Some? <==> operation.UPDATE?)
    && (item.recordId.Some? ==> IsRecordId(item.recordId.value))
  }

  // ----- what is sent

  function PayloadOf(item: Item): Payload {
    Payload(if Given(item.recordTypeId)
            then Others(RecordTypeFold.IsVariant, item.fields)
                   + [Field(RecordTypeFold.RECORD_TYPE_FIELD, Text(item.recordTypeId.value))]
            else item.fields,
            item.recordId)
  }

  // ----- what is reported

  predicate ReportsSuccess(row: SaveResult) {
    row.success == Some(true)
  }

  /** The envelope check: one well-formed row per request, and no mixture under `allOrNone`. */
  predicate WellFormedReply(input: Input, rows: seq<SaveResult>) {
    && |rows| == |input.items|
    && (forall i :: 0 <= i < |rows| ==>
          && rows[i].success.Some? && rows[i].listsErrors
          && (ReportsSuccess(rows[i]) ==> rows[i].id.Some? && IsRecordId(Trim(rows[i].id.value))))
    && (input.allOrNone ==> forall i, j :: 0 <= i < |rows| && 0 <= j < |rows| ==>
        ReportsSuccess(rows[i]) == ReportsSuccess(rows[j]))
  }

  /** An update must come back with the record it was sent for. */
  predicate SameRecords(operation: Operation, input: Input, rows: seq<SaveResult>)
    requires Parsed(operation, input) && WellFormedReply(input, rows)
  {
    operation.UPDATE? ==>
      forall i :: 0 <= i < |rows| && ReportsSuccess(rows[i])
        ==> Prefix15(rows[i].id.value) == Prefix15(input.items[i].recordId.value)
  }

  function CountOf(results: seq<RowResult>, status: RowStatus): nat {
    if results == [] then 0 else (if results[0].status == status then 1 else 0) + CountOf(results[1..], status)
  }

  function RowOf(items: seq<Item>, rows: seq<SaveResult>, i: nat): RowResult
    requires i < |rows| == |items|
  {
    RowResult(i, if Given(items[i].reference) then items[i].reference else None, ReportsSuccess(rows[i]),
              if ReportsSuccess(rows[i]) then ROW_SUCCESS else ROW_FAILED,
              if ReportsSuccess(rows[i]) then rows[i].id else None,
              if ReportsSuccess(rows[i]) then None else Some(DML_FAILED))
  }

  function ReplyOutput(input: Input, rows: seq<SaveResult>): Output
    requires |rows| == |input.items|
  {
    var results := seq(|rows|, i requires 0 <= i < |rows| => RowOf(input.items, rows, i));
    var succeeded := CountOf(results, ROW_SUCCESS);
    CountMeaning(results, ROW_SUCCESS);
    Output(succeeded == |results|, if succeeded == |results| then SUCCESS else if succeeded > 0 then PARTIAL_SUCCESS
        else FAILED,
           |results|, succeeded, |results| - succeeded, 0, input.allOrNone, None, results)
  }

  /** The output when nothing is known of the single rows. */
  function FailureOutput(input: Input, code: Code): Output {
    var lost := code == DML_OUTCOME_UNKNOWN;
    var n := Min(|input.items|, MAX_ROWS);
    Output(false, if lost then OUTCOME_UNKNOWN else FAILED, n, 0, if lost then 0 else n, if lost then n else 0,
           input.allOrNone, Some(code),
           seq(n, i requires 0 <= i < n =>
             RowResult(i, input.items[i].reference, false, if lost then ROW_UNKNOWN else ROW_FAILED, None, Some(code))))
  }

  /** An error raised here over a reply carries no error body, so it is an unknown outcome. */
  function Answer(operation: Operation, input: Input, reply: Reply): Output
    requires Parsed(operation, input)
  {
    match reply
    case Thrown(structured) => FailureOutput(input, if structured then DML_FAILED else DML_OUTCOME_UNKNOWN)
    case NotAList => FailureOutput(input, DML_OUTCOME_UNKNOWN)
    case Rows(rows) =>
      if WellFormedReply(input, rows) && SameRecords(operation, input, rows) then ReplyOutput(input, rows)
      else FailureOutput(input, DML_OUTCOME_UNKNOWN)
  }

  lemma {:induction false} CountMeaning(results: seq<RowResult>, status: RowStatus)
    ensures CountOf(results, status) <= |results|
    ensures CountOf(results, status) == |results| <==> forall i :: 0 <= i < |results| ==> results[i].status == status
    ensures CountOf(results, status) == 0 <==> forall i :: 0 <= i < |results| ==> results[i].status != status
  {
    if results != [] {
      CountMeaning(results[1..], status);
      assert forall i :: 0 < i < |results| ==> results[i] == results[1..][i - 1];
      assert forall i :: 0 <= i < |results[1..]| ==> results[1..][i] == results[i + 1];
    }
  }

  lemma {:induction false} CountsPartition(results: seq<RowResult>)
    ensures |results| == CountOf(results, ROW_SUCCESS) + CountOf(results, ROW_FAILED) + CountOf(results, ROW_UNKNOWN)
  {
    if results != [] {
      CountsPartition(results[1..]);
    }
  }

  /** Every row, up to the row bound, is reported once, in its place and under its own key,
      and the totals count the rows. */
  ghost predicate Accounts(input: Input, output: Output) {
    && output.total == |output.results| == Min(|input.items|, 200)
    && output.succeeded == CountOf(output.results, ROW_SUCCESS)
    && output.failed == CountOf(output.results, ROW_FAILED)
    && output.unknown == CountOf(output.results, ROW_UNKNOWN)
    && output.total == output.succeeded + output.failed + output.unknown
    && output.allOrNone == input.allOrNone
    && forall i :: 0 <= i < |output.results| ==>
         && output.results[i].index == i && output.results[i].reference == input.items[i].reference
         && (output.results[i].success <==> output.results[i].status == ROW_SUCCESS)
         && (output.results[i].success <==> output.results[i].recordId.Some?)
  }

  lemma FailureAccounts(input: Input, code: Code)
    ensures Accounts(input, FailureOutput(input, code))
  {
    var results := FailureOutput(input, code).results;
    CountMeaning(results, ROW_SUCCESS);
    CountMeaning(results, ROW_FAILED);
    CountMeaning(results, ROW_UNKNOWN);
  }

  lemma ReplyAccounts(operation: Operation, input: Input, rows: seq<SaveResult>)
    requires Parsed(operation, input) && WellFormedReply(input, rows)
    ensures Accounts(input, ReplyOutput(input, rows))
  {
    var results := ReplyOutput(input, rows).results;
    CountsPartition(results);
    CountMeaning(results, ROW_UNKNOWN);
  }

  /** The accounts balance on every path. */
  lemma AccountsAlways(operation: Operation, input: Input, reply: Reply)
    requires Parsed(operation, input)
    ensures Accounts(input, Answer(operation, input, reply))
    ensures Answer(operation, input, reply).total == |input.items|
  {
    FailureAccounts(input, DML_OUTCOME_UNKNOWN);
    FailureAccounts(input, DML_FAILED);
    if reply.Rows? && WellFormedReply(input, reply.rows) {
      ReplyAccounts(operation, input, reply.rows);
    }
  }

  ghost predicate AllRows(output: Output, status: RowStatus) {
    forall i :: 0 <= i < |output.results| ==> output.results[i].status == status
  }

  /** The batch status is what the rows say: all succeeded, all failed, all unknown, or a
      mixture of successes and failures. */
  ghost predicate StatusSays(o: Output) {
    && (o.success <==> o.status == SUCCESS) && (o.status == SUCCESS <==> AllRows(o, ROW_SUCCESS))
    && (o.status == FAILED <==> AllRows(o, ROW_FAILED))
    && (o.status == OUTCOME_UNKNOWN <==> AllRows(o, ROW_UNKNOWN))
    && (o.status == PARTIAL_SUCCESS <==>
          exists i, j :: 0 <= i < |o.results| && 0 <= j < |o.results|
            && o.results[i].status == ROW_SUCCESS && o.results[j].status == ROW_FAILED)
  }

  /** The failure output's status is what its rows say exactly when it has rows: without any it
      still reports FAILED or OUTCOME_UNKNOWN. */
  lemma FailureStatus(input: Input, code: Code)
    ensures StatusSays(FailureOutput(input, code)) <==> |input.items| > 0
    ensures !FailureOutput(input, code).success && FailureOutput(input, code).status != PARTIAL_SUCCESS
  {
    var o := FailureOutput(input, code);
    if |input.items| > 0 {
      assert o.results[0].status == if code == DML_OUTCOME_UNKNOWN then ROW_UNKNOWN else ROW_FAILED;
    } else {
      assert AllRows(o, ROW_SUCCESS);
    }
  }

  lemma ReplyStatus(input: Input, rows: seq<SaveResult>)
    requires 1 <= |rows| && WellFormedReply(input, rows)
    ensures StatusSays(ReplyOutput(input, rows))
    ensures input.allOrNone ==> ReplyOutput(input, rows).status != PARTIAL_SUCCESS
  {
    var o := ReplyOutput(input, rows);
    CountMeaning(o.results, ROW_SUCCESS);
    assert o.results[0].status == ROW_SUCCESS || o.results[0].status == ROW_FAILED;
    assert forall i :: 0 <= i < |rows| ==> (o.results[i].status == ROW_SUCCESS <==> ReportsSuccess(rows[i]));
  }

  /** On every path the status is what the rows say, and an all-or-none request never reports
      a mixture. */
  lemma StatusMeaning(operation: Operation, input: Input, reply: Reply)
    requires Parsed(operation, input)
    ensures StatusSays(Answer(operation, input, reply))
    ensures input.allOrNone ==> Answer(operation, input, reply).status != PARTIAL_SUCCESS
  {
    match reply
    case Thrown(structured) => FailureStatus(input, if structured then DML_FAILED else DML_OUTCOME_UNKNOWN);
    case NotAList => FailureStatus(input, DML_OUTCOME_UNKNOWN);
    case Rows(rows) =>
      if WellFormedReply(input, rows) && SameRecords(operation, input, rows) {
        ReplyStatus(input, rows);
      } else {
        FailureStatus(input, DML_OUTCOME_UNKNOWN);
      }
  }

  /** A row is reported as done exactly when the reply is verifiable and says so, and then with
      the reply's record; nothing is known of any row exactly when the reply cannot be verified
      and carries no rejection. */
  lemma SuccessIsProved(operation: Operation, input: Input, reply: Reply, i: nat)
    requires Parsed(operation, input) && i < |input.items|
    ensures var o, ok := Answer(operation, input, reply),
                         reply.Rows? && WellFormedReply(input, reply.rows) && SameRecords(operation, input, reply.rows);
      && |o.results| == |input.items|
      && (o.results[i].success <==> ok && ReportsSuccess(reply.rows[i]))
      && (o.results[i].success ==> o.results[i].recordId == reply.rows[i].id)
      && (o.results[i].success ==> IsRecordId(Trim(reply.rows[i].id.value)))
      && (o.status == OUTCOME_UNKNOWN <==> !ok && reply != Thrown(true))
  {
  }

  // ----- distinct records

  lemma TrimmedId(s: string)
    requires IsRecordId(s)
    ensures Trim(s) == s
  {
  }

  lemma NoDuplicatesMeaning(items: seq<Item>)
    ensures Duplicates(Identities(items), |items|) == [] <==>
      forall i, j :: 0 <= i < j < |items| && Identity(items[i]).Some? ==> Identity(items[i]) != Identity(items[j])
  {
    var ids := Identities(items);
    var d := Duplicates(ids, |items|);
    if d != [] {
      DuplicatesMeaning(ids, |ids|, d[0]);
      PairOfCount(ids, |ids|, d[0]);
    }
    forall i, j | d == [] && 0 <= i < j < |items| && Identity(items[i]).Some?
      ensures Identity(items[i]) != Identity(items[j])
    {
      var x := Identity(items[i]).value;
      assert ids[i] == Some(x) && ids[j] == Identity(items[j]);
      DuplicatesMeaning(ids, |ids|, x);
      CountGrows(ids, i, j, x);
      CountGrows(ids, j, |ids|, x);
    }
  }

  lemma {:induction false} PairOfCount<T>(ids: seq<Option<T>>, n: nat, x: T)
    requires n <= |ids| && Count(ids, n, x) >= 2
    ensures exists i, j :: 0 <= i < j < n && ids[i] == Some(x) && ids[j] == Some(x)
  {
    if ids[n - 1] == Some(x) {
      var i := FirstExists(ids, n - 1, x);
      assert ids[i] == Some(x);
    } else {
      PairOfCount(ids, n - 1, x);
    }
  }

  /** The rows an UPDATE reports as done name pairwise distinct records. */
  lemma UpdatedRecordsAreDistinct(input: Input, reply: Reply, i: nat, j: nat)
    requires Parsed(UPDATE, input) && Duplicates(Identities(input.items), |input.items|) == []
    requires i < j < |input.items|
    ensures var o := Answer(UPDATE, input, reply);
      |o.results| == |input.items|
      && (o.results[i].success && o.results[j].success ==>
            o.results[i].recordId.Some? && o.results[j].recordId.Some?
            && Prefix15(o.results[i].recordId.value) != Prefix15(o.results[j].recordId.value))
  {
    NoDuplicatesMeaning(input.items);
    assert ParsedItem(UPDATE, input.items[i]) && ParsedItem(UPDATE, input.items[j]);
    TrimmedId(input.items[i].recordId.value);
    TrimmedId(input.items[j].recordId.value);
    SuccessIsProved(UPDATE, input, reply, i);
    SuccessIsProved(UPDATE, input, reply, j);
    assert Identity(input.items[i]) != Identity(input.items[j]);
  }

  /** The record that an identifier in a reply names. */
  function RecordOf(id: string): string {
    Prefix15(Trim(id))
  }

  predicate ReportsRecord(row: SaveResult, record: string) {
    ReportsSuccess(row) && row.id.Some? && RecordOf(row.id.value) == record
  }

  ghost predicate RepliedTwice(rows: seq<SaveResult>) {
    exists i, j, record :: 0 <= i < j < |rows| && ReportsRecord(rows[i], record) && ReportsRecord(rows[j], record)
  }

  ghost predicate DoneRowsDistinct(o: Output) {
    forall i, j :: 0 <= i < j < |o.results| && o.results[i].recordId.Some? && o.results[j].recordId.Some?
      ==> RecordOf(o.results[i].recordId.value) != RecordOf(o.results[j].recordId.value)
  }

  /** A CREATE has no gate and no check for this: its done rows name pairwise distinct records
      exactly when no record is created twice in the reply, or nothing of the reply is used. */
  lemma CreatedRecordsAreDistinctExactly(input: Input, reply: Reply)
    requires Parsed(CREATE, input)
    ensures DoneRowsDistinct(Answer(CREATE, input, reply)) <==>
              !(reply.Rows? && WellFormedReply(input, reply.rows) && RepliedTwice(reply.rows))
  {
    var o := Answer(CREATE, input, reply);
    if reply.Rows? && WellFormedReply(input, reply.rows) {
      forall i | 0 <= i < |input.items|
        ensures o.results[i].recordId.Some? <==> ReportsSuccess(reply.rows[i])
        ensures o.results[i].recordId.Some? ==> ReportsRecord(reply.rows[i], RecordOf(o.results[i].recordId.value))
      {
        SuccessIsProved(CREATE, input, reply, i);
      }
      if RepliedTwice(reply.rows) {
        var i, j, record :| 0 <= i < j < |reply.rows|
          && ReportsRecord(reply.rows[i], record) && ReportsRecord(reply.rows[j], record);
        assert o.results[i].recordId == reply.rows[i].id && o.results[j].recordId == reply.rows[j].id;
      }
    }
  }

  /** One record may thus be reported for two rows. */
  lemma CreatedRecordsMayRepeat(input: Input, id: string)
    requires Parsed(CREATE, input) && |input.items| == 2 && IsRecordId(id)
    ensures var row := SaveResult(Some(true), Some(id), true);
      var o := Answer(CREATE, input, Rows([row, row]));
      o.status == SUCCESS && |o.results| == 2 && o.results[0].recordId == o.results[1].recordId == Some(id)
  {
    var row := SaveResult(Some(true), Some(id), true);
    TrimmedId(id);
    assert WellFormedReply(input, [row, row]);
    StatusMeaning(CREATE, input, Rows([row, row]));
  }

  // ----- the executor

  /** Object names are compared without surrounding blanks and without regard to case. */
  function ObjectKey(objectApiName: string): string {
    RecordTypeFold.Lower(Trim(objectApiName))
  }

  /** No two rows name one record: their identifiers differ within the first fifteen characters. */
  ghost predicate NamesDistinctRecords(items: seq<Item>) {
    forall i, j :: 0 <= i < j < |items| && items[i].recordId.Some? && items[j].recordId.Some? ==>
      exists k :: 0 <= k < 15 && k < |items[i].recordId.value| && k < |items[j].recordId.value|
                  && items[i].recordId.value[k] != items[j].recordId.value[k]
  }

  lemma SamePrefix(a: string, b: string)
    requires IsRecordId(a) && IsRecordId(b)
    ensures Prefix15(a) != Prefix15(b) <==> exists k :: 0 <= k < 15 && k < |a| && k < |b| && a[k] != b[k]
  {
    if Prefix15(a) != Prefix15(b) {
      var k :| 0 <= k < 15 && a[..15][k] != b[..15][k];
      assert a[k] != b[k];
    }
    if k :| 0 <= k < 15 && k < |a| && k < |b| && a[k] != b[k] {
      assert Prefix15(a)[k] != Prefix15(b)[k];
    }
  }

  lemma DistinctRecordsPass(items: seq<Item>)
    requires forall i :: 0 <= i < |items| ==> items[i].recordId.Some? ==> IsRecordId(items[i].recordId.value)
    ensures Duplicates(Identities(items), |items|) == [] <==> NamesDistinctRecords(items)
  {
    NoDuplicatesMeaning(items);
    forall i, j | 0 <= i < j < |items| && items[i].recordId.Some? && items[j].recordId.Some?
      ensures Identity(items[i]).Some?
      ensures Identity(items[i]) != Identity(items[j]) <==>
        exists k :: 0 <= k < 15 && k < |items[i].recordId.value| && k < |items[j].recordId.value|
                    && items[i].recordId.value[k] != items[j].recordId.value[k]
    {
      TrimmedId(items[i].recordId.value);
      TrimmedId(items[j].recordId.value);
      SamePrefix(items[i].recordId.value, items[j].recordId.value);
    }
  }

  class DmlExecutor {
    const policy: map<string, set<Operation>>
    const usernames: set<string>
    const apiVersion: Option<real>
    var sent: seq<Sent>

    constructor (policy: map<string, set<Operation>>, usernames: set<string>, apiVersion: Option<real>)
      ensures this.policy == policy && this.usernames == usernames && this.apiVersion == apiVersion && sent == []
    {
      this.policy, this.usernames, this.apiVersion, sent := policy, usernames, apiVersion, [];
    }

    function Allowed(operation: Operation, objectApiName: string): Option<Code> {
      var key := ObjectKey(objectApiName);
      if key !in policy then Some(OBJECT_NOT_ALLOWED)
      else if operation !in policy[key] then Some(OPERATION_NOT_ALLOWED)
      else None
    }

    function Connected(): Option<Code> {
      if |usernames| != 1 || "" in usernames then Some(IDENTITY_CONTEXT_INVALID)
      else if apiVersion.None? || apiVersion.value < 42.0 then Some(CONFIGURATION_INVALID)
      else None
    }

    /** A request is sent, as one collection and once, exactly when it passes every gate; otherwise
        the first gate it fails names its refusal and nothing is sent. */
    method Batch(operation: Operation, input: Input, reply: Reply) returns (outcome: Outcome)
      requires Parsed(operation, input)
      modifies this`sent
      ensures var distinct := operation.UPDATE? ==> NamesDistinctRecords(input.items);
        var key := ObjectKey(input.objectApiName);
        var objectKnown := key in policy;
        var operationListed := key in policy && operation in policy[key];
        var oneUser := exists user :: usernames == {user} && user != "";
        var versioned := apiVersion.Some? && apiVersion.value >= 42.0;
        && (outcome.Answered? <==> distinct && operationListed && oneUser && versioned)
        && (outcome == Refused(BATCH_DUPLICATE_RECORD_ID) <==> !distinct)
        && (outcome == Refused(OBJECT_NOT_ALLOWED) <==> distinct && !objectKnown)
        && (outcome == Refused(OPERATION_NOT_ALLOWED) <==> distinct && objectKnown && !operationListed)
        && (outcome == Refused(IDENTITY_CONTEXT_INVALID) <==> distinct && operationListed && !oneUser)
        && (outcome == Refused(CONFIGURATION_INVALID) <==> distinct && operationListed && oneUser && !versioned)
      ensures outcome.Refused? ==> sent == old(sent)
      ensures outcome.Answered? ==>
        && outcome == Answered(Answer(operation, input, reply))
        && sent == old(sent) + [Sent(operation, input.objectApiName,
                                     seq(|input.items|, i requires 0 <= i < |input.items| => PayloadOf(input.items[i])),
                                     input.allOrNone)]
    {
      OneUser();
      DistinctRecordsPass(input.items);
      if operation.UPDATE? {
        var duplicates := DuplicateBatchRecordIds(input.items);
        if |duplicates| > 0 {
          return Refused(BATCH_DUPLICATE_RECORD_ID);
        }
      }
      var checked := 0;
      while checked < |input.items|
        invariant checked > 0 ==> Allowed(operation, input.objectApiName).None?
      {
        var denied := Allowed(operation, input.objectApiName);
        if denied.Some? {
          return Refused(denied.value);
        }
        checked := checked + 1;
      }
      if Connected().Some? {
        return Refused(Connected().value);
      }
      var records := Payloads(operation, input);
      sent := sent + [Sent(operation, input.objectApiName, records, input.allOrNone)];
      return Answered(Answer(operation, input, reply));
    }

    lemma OneUser()
      ensures |usernames| == 1 && "" !in usernames <==> exists user :: usernames == {user} && user != ""
    {
      if |usernames| == 1 {
        var user :| user in usernames;
        assert |usernames - {user}| == 0;
        assert usernames == {user};
      }
    }

    static method Payloads(operation: Operation, input: Input) returns (records: seq<Payload>)
      requires Parsed(operation, input)
      ensures records == seq(|input.items|, i requires 0 <= i < |input.items| => PayloadOf(input.items[i]))
    {
      records := [];
      for i := 0 to |input.items|
        invariant |records| == i
        invariant forall k :: 0 <= k < i ==> records[k] == PayloadOf(input.items[k])
      {
        var item := input.items[i];
        assert ParsedItem(operation, item);
        var fields := item.fields;
        if Given(item.recordTypeId) {
          fields := RecordTypeFold.FoldForBatch(fields, item.recordTypeId.value);
        }
        records := records + [Payload(fields, item.recordId)];
      }
    }
  }
}

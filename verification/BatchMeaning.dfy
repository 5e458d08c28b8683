/** What a batch reports and sends, in terms of the reply and of the rows as they were given. */
module BatchMeaning {
  import opened Wrappers
  import opened FieldObjects
  import opened BatchRecords
  import opened BatchDml
  import RecordTypeFold

  // ----- which reply is believed

  predicate Done(row: SaveResult) {
    row.success == Some(true)
  }

  /** Letters and digits, fifteen or eighteen of them, perhaps with blanks around. */
  ghost predicate NamesRecord(id: string) {
    exists before, core, after ::
      && id == before + core + after && AllBlank(before) && AllBlank(after)
      && (|core| == 15 || |core| == 18)
      && forall k :: 0 <= k < |core| ==>
           'A' <= core[k] <= 'Z' || 'a' <= core[k] <= 'z' || '0' <= core[k] <= '9'
  }

  predicate AllBlank(s: string) {
    forall k :: 0 <= k < |s| ==> IsBlank(s[k])
  }

  /** What a row of the reply must say: whether it succeeded, its errors as a list, and a record
      when it succeeded; for an UPDATE, the record of the request. */
  ghost predicate Believable(operation: Operation, item: Item, row: SaveResult) {
    && row.success.Some? && row.listsErrors
    && (Done(row) ==> row.id.Some? && NamesRecord(row.id.value))
    && (operation.UPDATE? && Done(row) ==>
          row.id.Some? && item.recordId.Some? && |row.id.value| >= 15 && |item.recordId.value| >= 15
          && row.id.value[..15] == item.recordId.value[..15])
  }

  /** The reply answers the request row by row, and under `allOrNone` all rows alike. */
  ghost predicate Verifies(operation: Operation, input: Input, reply: Reply) {
    && reply.Rows? && |reply.rows| == |input.items|
    && (forall i :: 0 <= i < |reply.rows| ==> Believable(operation, input.items[i], reply.rows[i]))
    && (input.allOrNone ==>
          (forall row :: row in reply.rows ==> Done(row)) || (forall row :: row in reply.rows ==> !Done(row)))
  }

  lemma {:induction false} TrimStartSplit(s: string) returns (before: string)
    ensures s == before + TrimStart(s) && AllBlank(before)
  {
    before := "";
    if s != "" && IsBlank(s[0]) {
      var rest := TrimStartSplit(s[1..]);
      before := [s[0]] + rest;
      assert s == [s[0]] + s[1..];
    }
  }

  lemma {:induction false} TrimEndSplit(s: string) returns (after: string)
    ensures s == TrimEnd(s) + after && AllBlank(after)
  {
    after := "";
    if s != "" && IsBlank(s[|s| - 1]) {
      var rest := TrimEndSplit(s[..|s| - 1]);
      after := rest + [s[|s| - 1]];
      assert s == s[..|s| - 1] + [s[|s| - 1]];
    }
  }

  lemma {:induction false} TrimStartDrops(before: string, s: string)
    requires AllBlank(before) && (s == "" || !IsBlank(s[0]))
    ensures TrimStart(before + s) == s
  {
    if before != "" {
      assert (before + s)[1..] == before[1..] + s;
      TrimStartDrops(before[1..], s);
    } else {
      assert before + s == s;
    }
  }

  lemma {:induction false} TrimEndDrops(s: string, after: string)
    requires AllBlank(after) && (s == "" || !IsBlank(s[|s| - 1]))
    ensures TrimEnd(s + after) == s
  {
    if after != "" {
      assert (s + after)[..|s + after| - 1] == s + after[..|after| - 1];
      TrimEndDrops(s, after[..|after| - 1]);
    } else {
      assert s + after == s;
    }
  }

  lemma IdNamesRecord(id: string)
    requires IsRecordId(Trim(id))
    ensures NamesRecord(id)
  {
    var before := TrimStartSplit(id);
    var after := TrimEndSplit(TrimStart(id));
    assert id == before + Trim(id) + after;
  }

  lemma NamedIsId(before: string, core: string, after: string)
    requires AllBlank(before) && AllBlank(after) && IsRecordId(core)
    ensures Trim(before + core + after) == core
  {
    assert before + core + after == before + (core + after);
    TrimStartDrops(before, core + after);
    TrimEndDrops(core, after);
  }

  lemma NamesRecordMeaning(id: string)
    ensures IsRecordId(Trim(id)) <==> NamesRecord(id)
  {
    if IsRecordId(Trim(id)) {
      IdNamesRecord(id);
    }
    if before, core, after :|
      && id == before + core + after && AllBlank(before) && AllBlank(after)
      && (|core| == 15 || |core| == 18)
      && forall k :: 0 <= k < |core| ==>
           'A' <= core[k] <= 'Z' || 'a' <= core[k] <= 'z' || '0' <= core[k] <= '9'
    {
      NamedIsId(before, core, after);
    }
  }

  lemma BelievableMeaning(operation: Operation, item: Item, row: SaveResult)
    requires ParsedItem(operation, item)
    ensures Believable(operation, item, row) <==>
      && row.success.Some? && row.listsErrors
      && (ReportsSuccess(row) ==> row.id.Some? && IsRecordId(Trim(row.id.value)))
      && (operation.UPDATE? && ReportsSuccess(row) ==>
            row.id.Some? && Prefix15(row.id.value) == Prefix15(item.recordId.value))
  {
    if row.id.Some? {
      NamesRecordMeaning(row.id.value);
    }
  }

  lemma AllAlikeMeaning(rows: seq<SaveResult>)
    ensures (forall i, j :: 0 <= i < |rows| && 0 <= j < |rows| ==> ReportsSuccess(rows[i]) == ReportsSuccess(rows[j]))
       <==> (forall row :: row in rows ==> Done(row)) || (forall row :: row in rows ==> !Done(row))
  {
    forall i | 0 <= i < |rows| ensures rows[i] in rows && (Done(rows[i]) <==> ReportsSuccess(rows[i])) {}
  }

  lemma VerifiesMeaning(operation: Operation, input: Input, rows: seq<SaveResult>)
    requires Parsed(operation, input)
    ensures Verifies(operation, input, Rows(rows)) <==>
              WellFormedReply(input, rows) && SameRecords(operation, input, rows)
  {
    AllAlikeMeaning(rows);
    if |rows| == |input.items| {
      forall i | 0 <= i < |rows|
        ensures Believable(operation, input.items[i], rows[i]) <==>
          && rows[i].success.Some? && rows[i].listsErrors
          && (ReportsSuccess(rows[i]) ==> rows[i].id.Some? && IsRecordId(Trim(rows[i].id.value)))
          && (operation.UPDATE? && ReportsSuccess(rows[i]) ==>
                rows[i].id.Some? && Prefix15(rows[i].id.value) == Prefix15(input.items[i].recordId.value))
      {
        BelievableMeaning(operation, input.items[i], rows[i]);
      }
    }
  }

  // ----- what is reported

  /** What the output says of every row, for every reply: a believed reply is passed on row by
      row; a rejection fails every row; anything else leaves every row unknown. */
  lemma AnswerMeaning(operation: Operation, input: Input, reply: Reply, i: nat)
    requires Parsed(operation, input) && i < |input.items|
    ensures var o, ok := Answer(operation, input, reply), Verifies(operation, input, reply);
      var done := ok && Done(reply.rows[i]);
      var code := if ok || reply == Thrown(true) then DML_FAILED else DML_OUTCOME_UNKNOWN;
      && |o.results| == |input.items|
      && o.errorCode == (if ok then None else Some(code))
      && o.results[i].index == i && o.results[i].reference == input.items[i].reference
      && o.results[i].success == done
      && o.results[i].status == (if done then ROW_SUCCESS
                                 else if code == DML_FAILED then ROW_FAILED else ROW_UNKNOWN)
      && o.results[i].recordId == (if done then reply.rows[i].id else None)
      && o.results[i].errorCode == (if done then None else Some(code))
  {
    if reply.Rows? {
      VerifiesMeaning(operation, input, reply.rows);
    }
  }

  /** The totals are numbers of rows. */
  lemma TotalsMeaning(operation: Operation, input: Input, reply: Reply)
    requires Parsed(operation, input)
    ensures var o := Answer(operation, input, reply);
      && o.succeeded == |set i | 0 <= i < |o.results| && o.results[i].status == ROW_SUCCESS|
      && o.failed == |set i | 0 <= i < |o.results| && o.results[i].status == ROW_FAILED|
      && o.unknown == |set i | 0 <= i < |o.results| && o.results[i].status == ROW_UNKNOWN|
  {
    var o := Answer(operation, input, reply);
    AccountsAlways(operation, input, reply);
    CountIsNumber(o.results, ROW_SUCCESS);
    CountIsNumber(o.results, ROW_FAILED);
    CountIsNumber(o.results, ROW_UNKNOWN);
  }

  lemma {:induction false} CountFrom(results: seq<RowResult>, k: nat, status: RowStatus)
    requires k <= |results|
    ensures CountOf(results[k..], status) == |set i | k <= i < |results| && results[i].status == status|
    decreases |results| - k
  {
    var places := set i | k <= i < |results| && results[i].status == status;
    if k == |results| {
      assert places == {};
    } else {
      CountFrom(results, k + 1, status);
      assert results[k..][1..] == results[k + 1..];
      var rest := set i | k + 1 <= i < |results| && results[i].status == status;
      assert places == (if results[k].status == status then {k} else {}) + rest;
    }
  }

  lemma CountIsNumber(results: seq<RowResult>, status: RowStatus)
    ensures CountOf(results, status) == |set i | 0 <= i < |results| && results[i].status == status|
  {
    CountFrom(results, 0, status);
    assert results[0..] == results;
  }

  // ----- what is sent

  predicate SameLetter(x: char, y: char) {
    || x == y
    || ('A' <= x <= 'Z' && y as int == x as int + 32)
    || ('A' <= y <= 'Z' && x as int == y as int + 32)
  }

  predicate SameUpToCase(a: string, b: string) {
    |a| == |b| && forall k :: 0 <= k < |a| ==> SameLetter(a[k], b[k])
  }

  lemma LowerMeaning(a: string, b: string)
    ensures RecordTypeFold.Lower(a) == RecordTypeFold.Lower(b) <==> SameUpToCase(a, b)
  {
    if RecordTypeFold.Lower(a) == RecordTypeFold.Lower(b) {
      assert |a| == |RecordTypeFold.Lower(a)| == |b|;
      forall k | 0 <= k < |a| ensures SameLetter(a[k], b[k]) {
        assert RecordTypeFold.Lower(a)[k] == RecordTypeFold.Lower(b)[k];
      }
    }
  }

  /** Names without blanks at their ends share an entry of the policy exactly when they differ in case only. */
  lemma ObjectKeyMeaning(a: string, b: string)
    requires a != "" && !IsBlank(a[0]) && !IsBlank(a[|a| - 1]) && b != "" && !IsBlank(b[0]) && !IsBlank(b[|b| - 1])
    ensures ObjectKey(a) == ObjectKey(b) <==> SameUpToCase(a, b)
  {
    LowerMeaning(a, b);
  }

  /** A row is sent with its record and its fields; a record type given for the row stands last,
      in place of any field of that name in any case. */
  lemma PayloadMeaning(item: Item, f: Field<string>)
    ensures var p := PayloadOf(item);
      && p.id == item.recordId
      && (item.recordTypeId == None ==> p.fields == item.fields)
      && (item.recordTypeId.Some? && item.recordTypeId.value != "" ==>
            && p.fields != [] && p.fields[|p.fields| - 1] == Field("RecordTypeId", Text(item.recordTypeId.value))
            && (f in p.fields[..|p.fields| - 1] <==> f in item.fields && !SameUpToCase(f.name, "RecordTypeId")))
  {
    VariantsMeaning(RecordTypeFold.IsVariant, item.fields, f);
    assert RecordTypeFold.Lower("RecordTypeId") == "recordtypeid";
    LowerMeaning(f.name, "RecordTypeId");
    assert RecordTypeFold.IsVariant(f.name) <==> SameUpToCase(f.name, "RecordTypeId");
    if item.recordTypeId.Some? && item.recordTypeId.value != "" {
      var p := PayloadOf(item);
      assert p.fields[..|p.fields| - 1] == Others(RecordTypeFold.IsVariant, item.fields);
    }
  }
}

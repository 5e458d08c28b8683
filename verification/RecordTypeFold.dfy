/** The record type a new record is sent with: the top-level `recordTypeId` folded into the
    submitted fields, by a single CREATE and by a batch. */
module RecordTypeFold {
  import opened FieldObjects
  import opened BatchRecords

  const RECORD_TYPE_FIELD := "RecordTypeId"

  function Lower(s: string): string {
    seq(|s|, i requires 0 <= i < |s| => if 'A' <= s[i] <= 'Z' then ((s[i] as int) + 32) as char else s[i])
  }

  predicate IsVariant(name: string) {
    Lower(name) == "recordtypeid"
  }

  lemma RecordTypeFieldIsVariant()
    ensures IsVariant(RECORD_TYPE_FIELD)
  {
  }

  /** A batch row: every variant of the key is deleted before the key is set. */
  method FoldForBatch(fields: seq<Field<string>>, recordTypeId: string) returns (folded: seq<Field<string>>)
    requires DistinctNames(fields)
    ensures folded == Others(IsVariant, fields) + [Field(RECORD_TYPE_FIELD, Text(recordTypeId))]
  {
    folded := fields;
    var i := 0;
    while i < |fields|
      invariant 0 <= i <= |fields|
      invariant folded == Others(IsVariant, fields[..i]) + fields[i..]
    {
      SweepStep(IsVariant, fields, i);
      if IsVariant(fields[i].name) {
        folded := Delete(folded, fields[i].name);
      }
      i := i + 1;
    }
    assert fields[..i] == fields && fields[i..] == [];
    assert folded == Others(IsVariant, fields);
    NoVariantLeft(fields);
    AssignAbsent(Others(IsVariant, fields), RECORD_TYPE_FIELD, Text(recordTypeId));
    folded := Assign(folded, RECORD_TYPE_FIELD, Text(recordTypeId));
  }

  lemma NoVariantLeft(fields: seq<Field<string>>)
    ensures !Has(Others(IsVariant, fields), RECORD_TYPE_FIELD)
  {
    RecordTypeFieldIsVariant();
    var others := Others(IsVariant, fields);
    forall i | 0 <= i < |others| ensures others[i].name != RECORD_TYPE_FIELD {
      VariantsMeaning(IsVariant, fields, others[i]);
    }
  }

  /** A single CREATE: the first variant of the key is deleted, then the key is set. */
  function FoldForCreate(fields: seq<Field<string>>, recordTypeId: string): seq<Field<string>> {
    ReplaceFirst(IsVariant, fields, RECORD_TYPE_FIELD, Text(recordTypeId))
  }

  /** What a single CREATE sends: the other fields as given, and of the variants all but the
      first, with the canonical key set among them. */
  lemma CreateSends(fields: seq<Field<string>>, recordTypeId: string)
    requires DistinctNames(fields)
    ensures var sent, v := FoldForCreate(fields, recordTypeId), Variants(IsVariant, fields);
      && Others(IsVariant, sent) == Others(IsVariant, fields)
      && Variants(IsVariant, sent) == Assign(if v == [] then [] else v[1..], RECORD_TYPE_FIELD, Text(recordTypeId))
  {
    RecordTypeFieldIsVariant();
    ReplaceFirstKeeps(IsVariant, fields, RECORD_TYPE_FIELD, Text(recordTypeId));
  }

  /** A single CREATE names its record type once, and as analysed, exactly when the fields hold
      at most one variant of the key, or two of which the canonical one stands second. */
  lemma CreateSendsOneRecordTypeExactly(fields: seq<Field<string>>, recordTypeId: string)
    requires DistinctNames(fields)
    ensures var v := Variants(IsVariant, fields);
      Variants(IsVariant, FoldForCreate(fields, recordTypeId)) == [Field(RECORD_TYPE_FIELD, Text(recordTypeId))]
      <==> |v| <= 1 || (|v| == 2 && v[1].name == RECORD_TYPE_FIELD)
  {
    CreateSends(fields, recordTypeId);
    var v := Variants(IsVariant, fields);
    OneAssigned(if v == [] then [] else v[1..], RECORD_TYPE_FIELD, Text(recordTypeId));
  }

  lemma OneAssigned<K>(rest: seq<Field<K>>, name: K, value: Value)
    ensures Assign(rest, name, value) == [Field(name, value)] <==> rest == [] || (|rest| == 1 && rest[0].name == name)
  {
    AssignLength(rest, name, value);
  }

  predicate SameIdPrefix(a: string, b: string) {
    IsRecordId(a) && IsRecordId(b) && Prefix15(a) == Prefix15(b)
  }

  /** The input rule on record types: only the first variant of the key is compared. */
  predicate NoRecordTypeConflict(fields: seq<Field<string>>, recordTypeId: string) {
    var v := Variants(IsVariant, fields);
    v == [] || (v[0].value.Text? && SameIdPrefix(recordTypeId, v[0].value.text))
  }

  /** Two variants pass that rule, and a single CREATE then sends another record type beside
      the analysed one. */
  lemma CreateCanSendTwoRecordTypes(id: string, other: Value)
    requires IsRecordId(id)
    ensures var fields := [Field("recordtypeid", Text(id)), Field("RECORDTYPEID", other)];
      && DistinctNames(fields) && NoRecordTypeConflict(fields, id)
      && Variants(IsVariant, FoldForCreate(fields, id))
          == [Field("RECORDTYPEID", other), Field(RECORD_TYPE_FIELD, Text(id))]
  {
    var fields := [Field("recordtypeid", Text(id)), Field("RECORDTYPEID", other)];
    assert "recordtypeid"[0] != "RECORDTYPEID"[0] && "RECORDTYPEID"[1] != RECORD_TYPE_FIELD[1];
    assert IsVariant("recordtypeid") && IsVariant("RECORDTYPEID");
    assert fields[1..] == [fields[1]];
    assert Variants(IsVariant, fields[1..]) == [fields[1]];
    assert Variants(IsVariant, fields) == fields;
    CreateSends(fields, id);
    AssignAbsent([fields[1]], RECORD_TYPE_FIELD, Text(id));
  }
}

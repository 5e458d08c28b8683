/** Which pending criteria a draft value can answer at all. */
module Answerable {
  import opened Wrappers
  import opened Visibility
  import opened VisibilityRules

  /** The values that a draft may hold for a field of this type. */
  predicate Admissible(v: Val, fieldType: FieldType) {
    v.Null? ||
    match fieldType
    case BooleanType => v.Bool?
    case NumericType => v.Num?
    case OtherType => v.Text?
  }

  predicate IsNullTest(op: Operator) {
    op.IsNull? || op.IsNotNull?
  }

  predicate IsEquality(op: Operator) {
    op.EqualTo? || op.NotEqualTo?
  }

  predicate IsOrdering(op: Operator) {
    op.Gt? || op.Ge? || op.Lt? || op.Le?
  }

  /** The operator suits the field's type, and the right-hand side can be read in it. */
  predicate Judgeable(right: Expected, op: Operator, fieldType: FieldType) {
    || IsNullTest(op)
    || match Coerce(right, Some(fieldType))
       case None => false
       case Some(expected) =>
         || IsEquality(op)
         || (op.Contains? && fieldType.OtherType? && expected.Text?)
         || (IsOrdering(op) && fieldType.NumericType? && expected.Num?)
  }

  /** A value that such a criterion judges. */
  function AnswerFor(op: Operator, fieldType: FieldType): Val {
    if op.Contains? && fieldType.OtherType? then Text("")
    else if IsOrdering(op) && fieldType.NumericType? then Num(0.0)
    else Null
  }

  /** Some admissible value is judged exactly when the operator suits the field's type and the
      right-hand side can be read in it. */
  lemma JudgeableExactly(right: Expected, op: Operator, fieldType: FieldType)
    ensures (exists v :: Admissible(v, fieldType) && Compare(v, right, op, Some(fieldType)) != UNKNOWN)
        <==> Judgeable(right, op, fieldType)
  {
    if Judgeable(right, op, fieldType) {
      AnswerIsJudged(right, op, fieldType);
    }
  }

  lemma AnswerIsJudged(right: Expected, op: Operator, fieldType: FieldType)
    requires Judgeable(right, op, fieldType)
    ensures Admissible(AnswerFor(op, fieldType), fieldType)
    ensures Compare(AnswerFor(op, fieldType), right, op, Some(fieldType)).Decided()
  {
  }

  // ----- a rule and its draft

  /** `later` adds admissible draft values and changes nothing else. */
  predicate Drafts(earlier: Facts, later: Facts) {
    && Extends(earlier, later) && later.initialFacts == earlier.initialFacts
    && forall name :: name in later.draftFields && name !in earlier.draftFields ==>
         name in earlier.fieldTypes && Admissible(later.draftFields[name], earlier.fieldTypes[name])
  }

  predicate PendingAt(rule: Rule, facts: Facts, scope: Scope, i: nat)
    requires i < |rule.criteria|
  {
    Decide(rule.criteria[i], facts, scope).state == PENDING
  }

  /** A pending criterion can be answered by a draft exactly when it is judgeable. */
  lemma PendingCriterionIsAnswerableExactly(c: Criterion, facts: Facts, scope: Scope)
    requires Decide(c, facts, scope).state == PENDING
    ensures c.path.RecordField? && c.path.name in facts.fieldTypes && scope == FIELD
    ensures (exists later :: Drafts(facts, later) && Decide(c, later, scope).state.Decided())
        <==> Judgeable(c.right, c.op, facts.fieldTypes[c.path.name])
  {
    var name := c.path.name;
    var fieldType := facts.fieldTypes[name];
    if Judgeable(c.right, c.op, fieldType) {
      AnswerIsJudged(c.right, c.op, fieldType);
      var later := facts.(draftFields := facts.draftFields[name := AnswerFor(c.op, fieldType)]);
      assert later.(draftFields := map[], initialFacts := {}) == facts.(draftFields := map[], initialFacts := {});
      assert Drafts(facts, later) && Decide(c, later, scope).state.Decided();
    }
    if later :| Drafts(facts, later) && Decide(c, later, scope).state.Decided() {
      SameTypes(facts, later);
      JudgeableExactly(c.right, c.op, fieldType);
      assert Admissible(later.draftFields[name], fieldType);
    }
  }

  lemma SameTypes(earlier: Facts, later: Facts)
    requires Extends(earlier, later)
    ensures later.fieldTypes == earlier.fieldTypes
  {
    assert later.(draftFields := map[], initialFacts := {}).fieldTypes == earlier.fieldTypes;
  }

  /** The pending criteria ask about different fields, and each can be answered. */
  predicate AnswersExist(rule: Rule, facts: Facts, scope: Scope) {
    && (forall i :: 0 <= i < |rule.criteria| && PendingAt(rule, facts, scope, i) ==>
          && rule.criteria[i].path.RecordField? && rule.criteria[i].path.name in facts.fieldTypes
          && Judgeable(rule.criteria[i].right, rule.criteria[i].op, facts.fieldTypes[rule.criteria[i].path.name]))
    && (forall i, j :: (0 <= i < j < |rule.criteria| &&
                        PendingAt(rule, facts, scope, i) && PendingAt(rule, facts, scope, j)) ==>
          rule.criteria[i].path != rule.criteria[j].path)
  }

  /** The draft with an answer to every pending criterion among the first `n`. */
  function Answered(rule: Rule, facts: Facts, scope: Scope, n: nat): map<string, Val>
    requires n <= |rule.criteria| && AnswersExist(rule, facts, scope)
  {
    if n == 0 then facts.draftFields
    else
      var before, c := Answered(rule, facts, scope, n - 1), rule.criteria[n - 1];
      if PendingAt(rule, facts, scope, n - 1) then before[c.path.name := AnswerFor(c.op, facts.fieldTypes[c.path.name])]
      else before
  }

  lemma {:induction false} AnsweredHolds(rule: Rule, facts: Facts, scope: Scope, n: nat)
    requires n <= |rule.criteria| && AnswersExist(rule, facts, scope)
    ensures var draft := Answered(rule, facts, scope, n);
      && (forall name :: name in facts.draftFields ==> name in draft && draft[name] == facts.draftFields[name])
      && (forall name :: name in draft && name !in facts.draftFields ==>
            name in facts.fieldTypes && Admissible(draft[name], facts.fieldTypes[name]))
      && (forall i :: 0 <= i < n && PendingAt(rule, facts, scope, i) ==>
            var c := rule.criteria[i];
            c.path.name in draft && draft[c.path.name] == AnswerFor(c.op, facts.fieldTypes[c.path.name]))
  {
    if n > 0 {
      AnsweredHolds(rule, facts, scope, n - 1);
      var c := rule.criteria[n - 1];
      if PendingAt(rule, facts, scope, n - 1) {
        AnswerIsJudged(c.right, c.op, facts.fieldTypes[c.path.name]);
        assert c.path.name !in facts.draftFields;
      }
    }
  }

  /** A PENDING rule whose pending criteria can be answered, each on a field of its own, is decided
      by some admissible draft. */
  lemma PendingRuleCanBeAnswered(rule: Rule, facts: Facts, scope: Scope)
    requires Evaluate(rule, facts, scope).state == PENDING && AnswersExist(rule, facts, scope)
    ensures exists later :: Drafts(facts, later) && Evaluate(rule, later, scope).state.Decided()
  {
    var n := |rule.criteria|;
    AnsweredHolds(rule, facts, scope, n);
    var later := facts.(draftFields := Answered(rule, facts, scope, n));
    assert later.(draftFields := map[], initialFacts := {}) == facts.(draftFields := map[], initialFacts := {});
    forall i | 0 <= i < n && Decide(rule.criteria[i], facts, scope).state == PENDING
      ensures rule.criteria[i].path.RecordField? && rule.criteria[i].path.name in later.draftFields
      ensures Decide(rule.criteria[i], later, scope).state != UNKNOWN
    {
      assert PendingAt(rule, facts, scope, i);
      AnswerIsJudged(rule.criteria[i].right, rule.criteria[i].op, facts.fieldTypes[rule.criteria[i].path.name]);
    }
    DraftAnswersPending(rule, facts, later, scope);
    assert Drafts(facts, later);
  }

  /** A rule that orders a text field is PENDING without a draft value, and no draft decides it. */
  lemma OrderedTextIsNeverAnswered(name: string, right: Expected, facts: Facts, later: Facts)
    requires name in facts.fieldTypes && facts.fieldTypes[name].OtherType?
    requires name !in facts.draftFields && name !in facts.initialFacts && Drafts(facts, later)
    ensures var rule := Rule([Criterion(RecordField(name), Gt, right)], NoFilter, false);
      Evaluate(rule, facts, FIELD).state == PENDING && !Evaluate(rule, later, FIELD).state.Decided()
  {
    var c := Criterion(RecordField(name), Gt, right);
    var rule := Rule([c], NoFilter, false);
    SameTypes(facts, later);
    assert States(rule.criteria, facts, FIELD) == [PENDING];
    assert !Decide(c, later, FIELD).state.Decided();
    assert States(rule.criteria, later, FIELD) == [Decide(c, later, FIELD).state];
  }
}

/** Evaluation of one visibility rule against the facts known so far. */
module VisibilityRules {
  import opened Wrappers
  import opened Visibility
  import BooleanFilter

  /** A value as the scripting language sees it: `Other` is an object or an array. */
  datatype Val = Undefined | Null | Bool(b: bool) | Num(x: real) | Text(s: string) | Other
  {
    function Kind(): nat {
      match this
      case Undefined => 0
      case Bool(_) => 1
      case Num(_) => 2
      case Text(_) => 3
      case _ => 4
    }
  }

  /** The right-hand side of a criterion. A text carries its readings as a truth value and
      as a decimal number, when it has them. */
  datatype Expected = Absent | Given(v: Val) | GivenText(s: string, asBool: Option<bool>, asNumber: Option<real>)

  datatype FieldType = BooleanType | NumericType | OtherType

  datatype Operator =
    | EqualTo | NotEqualTo | Gt | Ge | Lt | Le | Contains | IsNull | IsNotNull | UnsupportedOperator

  /** The recognised forms of a criterion's left-hand side. */
  datatype Path =
    | RecordField(name: string)
    | UserFact(key: string)
    | Permission(name: string)
    | FormFactor
    | Unrecognised

  datatype Criterion = Criterion(path: Path, op: Operator, right: Expected)
  datatype FilterText = NoFilter | Unreadable | Tokens(tokens: seq<BooleanFilter.Token>)
  datatype Rule = Rule(criteria: seq<Criterion>, filter: FilterText, unsupported: bool)
  datatype Scope = FIELD | CONTAINER

  datatype Facts = Facts(
    draftFields: map<string, Val>,
    fieldTypes: map<string, FieldType>,
    user: map<string, Val>,
    permissions: Option<map<string, bool>>,
    formFactor: string,
    initialFacts: set<string>        // record fields for which some initial fact is listed
  )

  datatype Decision = Decision(state: VState, dependsOn: seq<string>)

  function Shown(b: bool): VState {
    if b then VISIBLE else HIDDEN
  }

  predicate InfixAt(text: string, part: string, i: nat) {
    i + |part| <= |text| && text[i..i + |part|] == part
  }

  predicate HasInfix(text: string, part: string) {
    exists i | 0 <= i <= |text| :: InfixAt(text, part, i)
  }

  function Compare(left: Val, right: Expected, op: Operator, fieldType: Option<FieldType>): VState {
    if left.Undefined? then UNKNOWN
    else if op.IsNull? then Shown(left.Null?)
    else if op.IsNotNull? then Shown(!left.Null?)
    else
      match Coerce(right, fieldType)
      case None => UNKNOWN
      case Some(expected) => CompareValues(left, expected, op)
  }

  /** The right-hand side read in the type of the left, or nothing when it has no such reading. */
  function Coerce(right: Expected, fieldType: Option<FieldType>): Option<Val> {
    match right
    case Absent => None
    case Given(v) => if v.Undefined? then None else Some(v)
    case GivenText(s, asBool, asNumber) =>
      if fieldType == Some(BooleanType) then (if asBool.Some? then Some(Bool(asBool.value)) else None)
      else if fieldType == Some(NumericType) then (if asNumber.Some? then Some(Num(asNumber.value)) else None)
      else Some(Text(s))
  }

  function CompareValues(left: Val, expected: Val, op: Operator): VState {
    match op
    case EqualTo => Equality(left, expected, false)
    case NotEqualTo => Equality(left, expected, true)
    case Contains =>
      if left.Text? && expected.Text? then Shown(HasInfix(left.s, expected.s)) else UNKNOWN
    case _ => if left.Num? && expected.Num? then Ordered(left.x, expected.x, op) else UNKNOWN
  }

  function Ordered(left: real, expected: real, op: Operator): VState {
    match op
    case Gt => Shown(left > expected)
    case Ge => Shown(left >= expected)
    case Lt => Shown(left < expected)
    case Le => Shown(left <= expected)
    case _ => UNKNOWN
  }

  function Equality(left: Val, expected: Val, negated: bool): VState {
    if !left.Null? && !expected.Null? && left.Kind() != expected.Kind() then UNKNOWN
    else Shown((left == expected && !left.Other?) != negated)
  }

  function TypeOfValue(v: Val): Option<FieldType> {
    match v
    case Bool(_) => Some(BooleanType)
    case Num(_) => Some(NumericType)
    case _ => None
  }

  function Decide(c: Criterion, facts: Facts, scope: Scope): Decision {
    if c.op.UnsupportedOperator? then Decision(UNKNOWN, [])
    else match c.path
      case RecordField(name) =>
        if name !in facts.fieldTypes then Decision(UNKNOWN, [])
        else if scope == CONTAINER then Decision(UNKNOWN, [name])
        else if name !in facts.draftFields then
          Decision(if name in facts.initialFacts then UNKNOWN else PENDING, [name])
        else Decision(Compare(facts.draftFields[name], c.right, c.op, Some(facts.fieldTypes[name])), [name])
      case UserFact(key) =>
        if key !in facts.user then Decision(UNKNOWN, ["$User." + key])
        else Decision(Compare(facts.user[key], c.right, c.op, TypeOfValue(facts.user[key])), [])
      case Permission(name) =>
        if facts.permissions.None? || name !in facts.permissions.value then Decision(UNKNOWN, [])
        else Decision(Compare(Bool(facts.permissions.value[name]), c.right, c.op, Some(BooleanType)), [])
      case FormFactor => Decision(Compare(Text(facts.formFactor), c.right, c.op, None), [])
      case Unrecognised => Decision(UNKNOWN, [])
  }

  /** Every element once, in order of first occurrence. */
  function Dedupe(xs: seq<string>): (r: seq<string>)
    ensures forall x :: x in r <==> x in xs
    ensures forall i, j :: 0 <= i < j < |r| ==> r[i] != r[j]
  {
    if xs == [] then []
    else
      var rest := Dedupe(xs[..|xs| - 1]);
      var last := xs[|xs| - 1];
      assert xs == xs[..|xs| - 1] + [last];
      if last in rest then rest else rest + [last]
  }

  function States(criteria: seq<Criterion>, facts: Facts, scope: Scope): (r: seq<VState>)
    ensures |r| == |criteria|
    ensures forall i :: 0 <= i < |r| ==> r[i] == Decide(criteria[i], facts, scope).state
  {
    seq(|criteria|, i requires 0 <= i < |criteria| => Decide(criteria[i], facts, scope).state)
  }

  function Dependencies(criteria: seq<Criterion>, facts: Facts, scope: Scope): (r: seq<string>)
    ensures forall i, x :: 0 <= i < |criteria| && x in Decide(criteria[i], facts, scope).dependsOn ==> x in r
  {
    if criteria == [] then []
    else
      var k := |criteria| - 1;
      Dependencies(criteria[..k], facts, scope) + Decide(criteria[k], facts, scope).dependsOn
  }

  predicate Refused(rule: Rule) {
    rule.unsupported || rule.criteria == []
  }

  function RuleState(filter: FilterText, states: seq<VState>): VState {
    match filter
    case NoFilter => Combine(states, AND)
    case Unreadable => UNKNOWN
    case Tokens(tokens) =>
      match BooleanFilter.Filter(tokens, states)
      case Threw => UNKNOWN
      case Answer(state) => state
  }

  function Evaluate(rule: Rule, facts: Facts, scope: Scope): Decision {
    if Refused(rule) then Decision(UNKNOWN, [])
    else
      Decision(RuleState(rule.filter, States(rule.criteria, facts, scope)),
               Dedupe(Dependencies(rule.criteria, facts, scope)))
  }

  // ----- properties

  /** `later` has every draft value of `earlier`, perhaps more, and possibly other initial facts. */
  predicate Extends(earlier: Facts, later: Facts) {
    && (forall name :: name in earlier.draftFields ==>
          name in later.draftFields && later.draftFields[name] == earlier.draftFields[name])
    && later.(draftFields := map[], initialFacts := {}) == earlier.(draftFields := map[], initialFacts := {})
  }

  lemma CriterionRefines(c: Criterion, earlier: Facts, later: Facts, scope: Scope)
    requires Extends(earlier, later)
    ensures Refines(Decide(c, earlier, scope).state, Decide(c, later, scope).state)
  {
    assert later.(draftFields := map[], initialFacts := {}).fieldTypes == earlier.fieldTypes;
    assert later.(draftFields := map[], initialFacts := {}).user == earlier.user;
  }

  lemma RuleStateRefines(filter: FilterText, ss: seq<VState>, ss': seq<VState>)
    requires |ss| == |ss'|
    ensures AllRefine(ss, ss') ==> Refines(RuleState(filter, ss), RuleState(filter, ss'))
    ensures AllSettle(ss, ss') ==> Settles(RuleState(filter, ss), RuleState(filter, ss'))
  {
    if filter.NoFilter? {
      if AllRefine(ss, ss') {
        CombineMonotone(ss, ss', AND);
      }
      if AllSettle(ss, ss') {
        CombineSettles(ss, ss', AND);
      }
    } else if filter.Tokens? && BooleanFilter.Filter(filter.tokens, ss).Answer? {
      BooleanFilter.FilterSettles(filter.tokens, ss, ss');
    }
  }

  /** A rule that was decided stays decided, the same way, as draft values are added. */
  lemma DecidedStaysDecided(rule: Rule, earlier: Facts, later: Facts, scope: Scope)
    requires Extends(earlier, later)
    ensures Refines(Evaluate(rule, earlier, scope).state, Evaluate(rule, later, scope).state)
  {
    forall i | 0 <= i < |rule.criteria|
      ensures Refines(States(rule.criteria, earlier, scope)[i], States(rule.criteria, later, scope)[i])
    {
      CriterionRefines(rule.criteria[i], earlier, later, scope);
    }
    RuleStateRefines(rule.filter, States(rule.criteria, earlier, scope), States(rule.criteria, later, scope));
  }

  /** `later` settles every criterion of the rule: each pending one becomes VISIBLE or
      HIDDEN and each decided one keeps its state. */
  predicate SettlesRule(rule: Rule, facts: Facts, later: Facts, scope: Scope) {
    forall i :: 0 <= i < |rule.criteria| ==>
      Settles(Decide(rule.criteria[i], facts, scope).state, Decide(rule.criteria[i], later, scope).state)
  }

  /** A pending rule is decided as soon as its pending criteria are. */
  lemma PendingIsAnswerable(rule: Rule, facts: Facts, later: Facts, scope: Scope)
    requires SettlesRule(rule, facts, later, scope)
    ensures Settles(Evaluate(rule, facts, scope).state, Evaluate(rule, later, scope).state)
  {
    RuleStateRefines(rule.filter, States(rule.criteria, facts, scope), States(rule.criteria, later, scope));
  }

  /** In terms of the draft: once every pending criterion has a draft value its comparison
      can judge, the pending rule is VISIBLE or HIDDEN. */
  lemma DraftAnswersPending(rule: Rule, earlier: Facts, later: Facts, scope: Scope)
    requires Extends(earlier, later) && Evaluate(rule, earlier, scope).state == PENDING
    requires forall i :: 0 <= i < |rule.criteria| && Decide(rule.criteria[i], earlier, scope).state == PENDING ==>
               rule.criteria[i].path.RecordField? && rule.criteria[i].path.name in later.draftFields
                   && Decide(rule.criteria[i], later, scope).state != UNKNOWN
    ensures Evaluate(rule, later, scope).state.Decided()
  {
    forall i | 0 <= i < |rule.criteria|
      ensures Settles(Decide(rule.criteria[i], earlier, scope).state, Decide(rule.criteria[i], later, scope).state)
    {
      CriterionRefines(rule.criteria[i], earlier, later, scope);
      if Decide(rule.criteria[i], earlier, scope).state == PENDING {
        ComparisonIsNeverPending(rule.criteria[i], later, scope);
      }
    }
    PendingIsAnswerable(rule, earlier, later, scope);
  }

  lemma ComparisonIsNeverPending(c: Criterion, facts: Facts, scope: Scope)
    requires c.path.RecordField? && c.path.name in facts.draftFields
    ensures Decide(c, facts, scope).state != PENDING
  {
  }

  /** A pending criterion is a question about one record field without a draft value, and
      the rule names that field among its dependencies. */
  lemma PendingNamesItsField(rule: Rule, facts: Facts, scope: Scope, i: nat)
    requires !Refused(rule) && i < |rule.criteria| && Decide(rule.criteria[i], facts, scope).state == PENDING
    ensures var path := rule.criteria[i].path;
      && path.RecordField? && path.name in facts.fieldTypes && path.name !in facts.draftFields
      && scope == FIELD && path.name in Evaluate(rule, facts, scope).dependsOn
  {
    assert rule.criteria[i].path.name in Decide(rule.criteria[i], facts, scope).dependsOn;
  }

  /** A rule is PENDING only when some criterion is, so it always names a field to ask for. */
  lemma PendingRuleAsksForAField(rule: Rule, facts: Facts, scope: Scope)
    requires Evaluate(rule, facts, scope).state == PENDING
    ensures exists i :: 0 <= i < |rule.criteria| && Decide(rule.criteria[i], facts, scope).state == PENDING
    ensures exists name :: name in Evaluate(rule, facts, scope).dependsOn && name !in facts.draftFields
  {
    if forall i :: 0 <= i < |rule.criteria| ==> Decide(rule.criteria[i], facts, scope).state != PENDING {
      var ss := States(rule.criteria, facts, scope);
      // settling with the states themselves: nothing is pending, so nothing can stay pending
      assert AllSettle(ss, ss);
      RuleStateRefines(rule.filter, ss, ss);
      assert false;
    }
    var i :| 0 <= i < |rule.criteria| && Decide(rule.criteria[i], facts, scope).state == PENDING;
    PendingNamesItsField(rule, facts, scope, i);
  }
}

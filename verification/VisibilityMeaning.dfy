/** What a visibility rule says, in terms of the values it compares: the state of a criterion
    from the value the facts supply and the value the right-hand side reads as, of a rule from
    its criteria, and of a field from its placed instances. */
module VisibilityMeaning {
  import opened Wrappers
  import opened Visibility
  import opened VisibilityRules
  import opened EffectiveFields

  /** The facts supply `left` for the path, of this type as far as one is known. */
  predicate Supplies(path: Path, facts: Facts, scope: Scope, left: Val, fieldType: Option<FieldType>) {
    match path
    case RecordField(name) =>
      && scope == FIELD && name in facts.fieldTypes && name in facts.draftFields
      && left == facts.draftFields[name] && fieldType == Some(facts.fieldTypes[name])
    case UserFact(key) =>
      && key in facts.user && left == facts.user[key]
      && (fieldType == Some(BooleanType) <==> left.Bool?)
      && (fieldType == Some(NumericType) <==> left.Num?)
      && (fieldType == None <==> !left.Bool? && !left.Num?)
    case Permission(name) =>
      && facts.permissions.Some? && name in facts.permissions.value
      && left == Bool(facts.permissions.value[name]) && fieldType == Some(BooleanType)
    case FormFactor => left == Text(facts.formFactor) && fieldType == None
    case Unrecognised => false
  }

  /** A right-hand side means `v` next to a value of this type: it is `v` itself, or a text
      whose truth value or number is asked for, or a text taken literally. */
  predicate ReadsAs(right: Expected, fieldType: Option<FieldType>, v: Val) {
    || (right == Given(v) && !v.Undefined?)
    || (right.GivenText? && fieldType == Some(BooleanType) && v.Bool? && right.asBool == Some(v.b))
    || (right.GivenText? && fieldType == Some(NumericType) && v.Num? && right.asNumber == Some(v.x))
    || (right.GivenText? && fieldType != Some(BooleanType) && fieldType != Some(NumericType) && v == Text(right.s))
  }

  /** Two numbers: every comparison is decided, except containment. */
  lemma NumbersCompared(c: Criterion, facts: Facts, scope: Scope, fieldType: Option<FieldType>, x: real, y: real)
    requires Supplies(c.path, facts, scope, Num(x), fieldType) && ReadsAs(c.right, fieldType, Num(y))
    ensures var state := Decide(c, facts, scope).state;
      && (c.op.Gt? ==> (state == VISIBLE <==> x > y) && (state == HIDDEN <==> x <= y))
      && (c.op.Ge? ==> (state == VISIBLE <==> x >= y) && (state == HIDDEN <==> x < y))
      && (c.op.Lt? ==> (state == VISIBLE <==> x < y) && (state == HIDDEN <==> x >= y))
      && (c.op.Le? ==> (state == VISIBLE <==> x <= y) && (state == HIDDEN <==> x > y))
      && (c.op.EqualTo? ==> (state == VISIBLE <==> x == y) && (state == HIDDEN <==> x != y))
      && (c.op.NotEqualTo? ==> (state == VISIBLE <==> x != y) && (state == HIDDEN <==> x == y))
      && (c.op.Contains? ==> state == UNKNOWN)
  {
  }

  /** Two texts: equality is exact, containment is being a contiguous part, and no ordering is known. */
  lemma TextsCompared(c: Criterion, facts: Facts, scope: Scope, fieldType: Option<FieldType>, s: string, t: string)
    requires Supplies(c.path, facts, scope, Text(s), fieldType) && ReadsAs(c.right, fieldType, Text(t))
    ensures var state := Decide(c, facts, scope).state;
      && (c.op.EqualTo? ==> (state == VISIBLE <==> s == t) && (state == HIDDEN <==> s != t))
      && (c.op.NotEqualTo? ==> (state == VISIBLE <==> s != t) && (state == HIDDEN <==> s == t))
      && (c.op.Contains? ==> (state == VISIBLE <==> exists before, after :: s == before + t + after))
      && (c.op.Contains? ==> (state == HIDDEN <==> !exists before, after :: s == before + t + after))
      && (c.op.Gt? || c.op.Ge? || c.op.Lt? || c.op.Le? ==> state == UNKNOWN)
  {
    InfixMeaning(s, t);
  }

  lemma InfixMeaning(s: string, t: string)
    ensures HasInfix(s, t) <==> exists before, after :: s == before + t + after
  {
    if HasInfix(s, t) {
      var i :| 0 <= i <= |s| && InfixAt(s, t, i);
      assert s == s[..i] + t + s[i + |t|..];
    }
    if before, after :| s == before + t + after {
      assert InfixAt(s, t, |before|);
    }
  }

  /** Two truth values: equality and nothing else. */
  lemma TruthValuesCompared(c: Criterion, facts: Facts, scope: Scope, fieldType: Option<FieldType>, a: bool, b: bool)
    requires Supplies(c.path, facts, scope, Bool(a), fieldType) && ReadsAs(c.right, fieldType, Bool(b))
    ensures var state := Decide(c, facts, scope).state;
      && (c.op.EqualTo? ==> (state == VISIBLE <==> a == b) && (state == HIDDEN <==> a != b))
      && (c.op.NotEqualTo? ==> (state == VISIBLE <==> a != b) && (state == HIDDEN <==> a == b))
      && (c.op.Contains? || c.op.Gt? || c.op.Ge? || c.op.Lt? || c.op.Le? ==> state == UNKNOWN)
  {
  }

  /** Null is a value: the null tests ask for it whatever the right-hand side, and it equals
      itself only. */
  lemma NullsCompared(c: Criterion, facts: Facts, scope: Scope, fieldType: Option<FieldType>, left: Val)
    requires Supplies(c.path, facts, scope, left, fieldType) && !left.Undefined?
    ensures var state := Decide(c, facts, scope).state;
      && (c.op.IsNull? ==> (state == VISIBLE <==> left == Null) && (state == HIDDEN <==> left != Null))
      && (c.op.IsNotNull? ==> (state == VISIBLE <==> left != Null) && (state == HIDDEN <==> left == Null))
    ensures forall y :: ReadsAs(c.right, fieldType, y) && (left == Null || y == Null) ==>
      var state := Decide(c, facts, scope).state;
      && (c.op.EqualTo? ==> (state == VISIBLE <==> left == y) && (state == HIDDEN <==> left != y))
      && (c.op.NotEqualTo? ==> (state == VISIBLE <==> left != y) && (state == HIDDEN <==> left == y))
      && (c.op.Contains? || c.op.Gt? || c.op.Ge? || c.op.Lt? || c.op.Le? ==> state == UNKNOWN)
  {
  }

  /** The comparison makes sense for the two values. */
  predicate Comparable(op: Operator, left: Val, y: Val) {
    || ((op.EqualTo? || op.NotEqualTo?) &&
        (left == Null || y == Null || (left.Bool? && y.Bool?) || (left.Num? && y.Num?) || (left.Text? && y.Text?)
         || (left.Other? && y.Other?)))
    || (op.Contains? && left.Text? && y.Text?)
    || ((op.Gt? || op.Ge? || op.Lt? || op.Le?) && left.Num? && y.Num?)
  }

  lemma UndecidedForReading(c: Criterion, facts: Facts, scope: Scope, fieldType: Option<FieldType>, left: Val, y: Val)
    requires Supplies(c.path, facts, scope, left, fieldType) && ReadsAs(c.right, fieldType, y)
    requires !c.op.UnsupportedOperator? && !left.Undefined? && !c.op.IsNull? && !c.op.IsNotNull?
    ensures Decide(c, facts, scope).state == UNKNOWN <==> !Comparable(c.op, left, y)
  {
    assert Decide(c, facts, scope).state == Compare(left, c.right, c.op, fieldType);
    assert Coerce(c.right, fieldType) == Some(y);
  }

  lemma UndecidedWithoutReading(c: Criterion, facts: Facts, scope: Scope, fieldType: Option<FieldType>, left: Val)
    requires Supplies(c.path, facts, scope, left, fieldType)
    requires forall y :: !ReadsAs(c.right, fieldType, y)
    requires !c.op.IsNull? && !c.op.IsNotNull?
    ensures Decide(c, facts, scope).state == UNKNOWN
  {
    match c.right
    case Absent =>
    case Given(v) => assert !v.Undefined? ==> ReadsAs(c.right, fieldType, v);
    case GivenText(s, asBool, asNumber) =>
      if fieldType == Some(BooleanType) {
        assert asBool.Some? ==> ReadsAs(c.right, fieldType, Bool(asBool.value));
      } else if fieldType == Some(NumericType) {
        assert asNumber.Some? ==> ReadsAs(c.right, fieldType, Num(asNumber.value));
      } else {
        assert ReadsAs(c.right, fieldType, Text(s));
      }
  }

  lemma OneReading(right: Expected, fieldType: Option<FieldType>, y: Val, z: Val)
    requires ReadsAs(right, fieldType, y) && ReadsAs(right, fieldType, z)
    ensures y == z
  {
  }

  /** A supplied value leaves the criterion undecided exactly when it is undefined, the operator
      is not supported, or the right-hand side has no reading that compares with it. */
  lemma UndecidedExactly(c: Criterion, facts: Facts, scope: Scope, fieldType: Option<FieldType>, left: Val)
    requires Supplies(c.path, facts, scope, left, fieldType)
    ensures Decide(c, facts, scope).state == UNKNOWN <==>
            || c.op.UnsupportedOperator? || left.Undefined?
            || (!c.op.IsNull? && !c.op.IsNotNull? &&
                forall y :: ReadsAs(c.right, fieldType, y) ==> !Comparable(c.op, left, y))
  {
    if !c.op.UnsupportedOperator? && !left.Undefined? && !c.op.IsNull? && !c.op.IsNotNull? {
      if y :| ReadsAs(c.right, fieldType, y) {
        UndecidedForReading(c, facts, scope, fieldType, left, y);
        forall z | ReadsAs(c.right, fieldType, z) ensures z == y {
          OneReading(c.right, fieldType, y, z);
        }
      } else {
        UndecidedWithoutReading(c, facts, scope, fieldType, left);
      }
    }
  }

  /** Without a supplied value a criterion is never decided. It is PENDING exactly on a typed
      record field, in a field's own rule, that no initial fact speaks of. */
  lemma UnsuppliedMeaning(c: Criterion, facts: Facts, scope: Scope)
    requires forall left, fieldType :: !Supplies(c.path, facts, scope, left, fieldType)
    ensures var state := Decide(c, facts, scope).state;
      && !state.Decided()
      && (state == PENDING <==>
            && !c.op.UnsupportedOperator? && c.path.RecordField? && scope == FIELD
            && c.path.name in facts.fieldTypes && c.path.name !in facts.initialFacts)
  {
    match c.path
    case RecordField(name) =>
      if scope == FIELD && name in facts.fieldTypes && name in facts.draftFields {
        assert Supplies(c.path, facts, scope, facts.draftFields[name], Some(facts.fieldTypes[name]));
      }
    case UserFact(key) =>
      if key in facts.user {
        var left := facts.user[key];
        var fieldType := if left.Bool? then Some(BooleanType) else if left.Num? then Some(NumericType) else None;
        assert Supplies(c.path, facts, scope, left, fieldType);
      }
    case Permission(name) =>
      if facts.permissions.Some? && name in facts.permissions.value {
        assert Supplies(c.path, facts, scope, Bool(facts.permissions.value[name]), Some(BooleanType));
      }
    case FormFactor => assert Supplies(c.path, facts, scope, Text(facts.formFactor), None);
    case Unrecognised =>
  }

  /** Every criterion has to hold when no filter says otherwise; a rule that cannot be read, or
      has nothing to say, is UNKNOWN. */
  lemma RuleMeaning(rule: Rule, facts: Facts, scope: Scope)
    ensures var state := Evaluate(rule, facts, scope).state;
      && (rule.unsupported || rule.criteria == [] || rule.filter.Unreadable? ==> state == UNKNOWN)
      && ((!rule.unsupported && rule.criteria != [] && rule.filter.NoFilter?) ==>
          && (state == VISIBLE <==> forall c :: c in rule.criteria ==> Decide(c, facts, scope).state == VISIBLE)
          && (state == HIDDEN <==> exists c :: c in rule.criteria && Decide(c, facts, scope).state == HIDDEN)
          && (state == PENDING <==>
                && (exists c :: c in rule.criteria && Decide(c, facts, scope).state == PENDING)
                && (forall c :: c in rule.criteria ==>
                      Decide(c, facts, scope).state == VISIBLE || Decide(c, facts, scope).state == PENDING)))
  {
    if !rule.unsupported && rule.criteria != [] && rule.filter.NoFilter? {
      var ss := States(rule.criteria, facts, scope);
      CombineMeaning(ss);
      forall c | c in rule.criteria ensures Decide(c, facts, scope).state in ss {
        var i :| 0 <= i < |rule.criteria| && rule.criteria[i] == c;
        assert ss[i] == Decide(c, facts, scope).state;
      }
      forall s | s in ss ensures exists c :: c in rule.criteria && Decide(c, facts, scope).state == s {
        var i :| 0 <= i < |ss| && ss[i] == s;
        assert rule.criteria[i] in rule.criteria;
      }
    }
  }

  /** What a rule asks about: the record fields of its supported criteria that have a type, and
      the user facts that are missing; each is named once. */
  lemma DependenciesMeaning(rule: Rule, facts: Facts, scope: Scope, x: string)
    ensures var dependsOn := Evaluate(rule, facts, scope).dependsOn;
      && (x in dependsOn <==>
            && !rule.unsupported
            && exists c :: c in rule.criteria && AsksFor(c, facts, x))
      && forall i, j :: 0 <= i < j < |dependsOn| ==> dependsOn[i] != dependsOn[j]
  {
    DependenciesFrom(rule.criteria, facts, scope, x);
  }

  predicate AsksFor(c: Criterion, facts: Facts, x: string) {
    && !c.op.UnsupportedOperator?
    && (|| (c.path == RecordField(x) && x in facts.fieldTypes)
        || (c.path.UserFact? && c.path.key !in facts.user && x == "$User." + c.path.key))
  }

  lemma {:induction false} DependenciesFrom(criteria: seq<Criterion>, facts: Facts, scope: Scope, x: string)
    ensures x in Dependencies(criteria, facts, scope) <==> exists c :: c in criteria && AsksFor(c, facts, x)
  {
    if criteria != [] {
      var k := |criteria| - 1;
      DependenciesFrom(criteria[..k], facts, scope, x);
      assert criteria == criteria[..k] + [criteria[k]];
      assert x in Decide(criteria[k], facts, scope).dependsOn <==> AsksFor(criteria[k], facts, x);
    }
  }

  /** A field shows when one of its placed instances does, and is hidden when none is placed or
      all are hidden; it is PENDING when nothing is unknown and something is open. */
  lemma FieldMeaning(instances: seq<Instance>, name: string, facts: Facts)
    ensures var state := FieldState(instances, name, facts);
      && (state == VISIBLE <==> exists inst :: inst in instances && inst.apiName == name && Shows(inst, facts))
      && (state == HIDDEN <==> forall inst :: inst in instances && inst.apiName == name ==> Hides(inst, facts))
      && (state == PENDING <==>
            && (exists inst :: inst in instances && inst.apiName == name && IsOpen(inst, facts))
            && (forall inst :: inst in instances && inst.apiName == name ==> Hides(inst, facts) || IsOpen(inst, facts)))
  {
    FieldFromInstances(instances, name, facts);
    forall inst: Instance
      ensures InstanceState(inst.rules, facts) == VISIBLE <==> Shows(inst, facts)
      ensures InstanceState(inst.rules, facts) == HIDDEN <==> Hides(inst, facts)
      ensures InstanceState(inst.rules, facts) == PENDING <==> IsOpen(inst, facts)
    {
      InstanceMeaning(inst.rules, facts);
      OpenMeaning(inst, facts);
    }
  }

  lemma FieldFromInstances(instances: seq<Instance>, name: string, facts: Facts)
    ensures var state := FieldState(instances, name, facts);
      && (state == VISIBLE <==>
            exists inst :: inst in instances && inst.apiName == name && InstanceState(inst.rules, facts) == VISIBLE)
      && (state == HIDDEN <==>
            forall inst :: inst in instances && inst.apiName == name ==> InstanceState(inst.rules, facts) == HIDDEN)
      && (state == PENDING <==>
            && (exists inst :: inst in instances && inst.apiName == name && InstanceState(inst.rules, facts) == PENDING)
            && (forall inst :: inst in instances && inst.apiName == name ==>
                  InstanceState(inst.rules, facts) == HIDDEN || InstanceState(inst.rules, facts) == PENDING))
  {
    var occurrences := Occurrences(instances, name);
    var ss := InstanceStates(occurrences, facts);
    CombineMeaning(ss);
    forall inst | inst in occurrences ensures InstanceState(inst.rules, facts) in ss {
      var i :| 0 <= i < |occurrences| && occurrences[i] == inst;
      assert ss[i] == InstanceState(inst.rules, facts);
    }
    forall s | s in ss ensures exists inst :: inst in occurrences && InstanceState(inst.rules, facts) == s {
      var i :| 0 <= i < |ss| && ss[i] == s;
      assert occurrences[i] in occurrences;
    }
  }

  lemma OpenMeaning(inst: Instance, facts: Facts)
    ensures InstanceState(inst.rules, facts) == PENDING <==> IsOpen(inst, facts)
  {
    var rs := RuleStates(inst.rules, facts);
    CombineMeaning(rs);
    forall sr | sr in inst.rules ensures Evaluate(sr.rule, facts, sr.scope).state in rs {
      var i :| 0 <= i < |rs| && inst.rules[i] == sr;
      assert rs[i] == Evaluate(sr.rule, facts, sr.scope).state;
    }
    forall s | s in rs ensures exists sr :: sr in inst.rules && Evaluate(sr.rule, facts, sr.scope).state == s {
      var i :| 0 <= i < |rs| && rs[i] == s;
      assert inst.rules[i] in inst.rules;
    }
  }

  /** All rules on the way to the instance are visible. */
  predicate Shows(inst: Instance, facts: Facts) {
    forall sr :: sr in inst.rules ==> Evaluate(sr.rule, facts, sr.scope).state == VISIBLE
  }

  /** Some rule on the way to the instance hides it. */
  predicate Hides(inst: Instance, facts: Facts) {
    exists sr :: sr in inst.rules && Evaluate(sr.rule, facts, sr.scope).state == HIDDEN
  }

  /** Some rule on the way to the instance is pending, and the others are visible or pending too. */
  predicate IsOpen(inst: Instance, facts: Facts) {
    && (exists sr :: sr in inst.rules && Evaluate(sr.rule, facts, sr.scope).state == PENDING)
    && (forall sr :: sr in inst.rules ==>
          Evaluate(sr.rule, facts, sr.scope).state == VISIBLE || Evaluate(sr.rule, facts, sr.scope).state == PENDING)
  }
}

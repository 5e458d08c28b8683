/** From the rules of each placed instance to the visibility of each field: AND over the
    rules of an instance, OR over the instances of a field. */
module EffectiveFields {
  import opened Visibility
  import opened VisibilityRules

  datatype ScopedRule = ScopedRule(scope: Scope, rule: Rule)
  datatype Instance = Instance(apiName: string, rules: seq<ScopedRule>)

  function RuleStates(rules: seq<ScopedRule>, facts: Facts): (r: seq<VState>)
    ensures |r| == |rules|
    ensures forall i :: 0 <= i < |r| ==> r[i] == Evaluate(rules[i].rule, facts, rules[i].scope).state
  {
    seq(|rules|, i requires 0 <= i < |rules| => Evaluate(rules[i].rule, facts, rules[i].scope).state)
  }

  function InstanceState(rules: seq<ScopedRule>, facts: Facts): VState {
    Combine(RuleStates(rules, facts), AND)
  }

  function Occurrences(instances: seq<Instance>, name: string): (r: seq<Instance>)
    ensures forall inst :: inst in r <==> inst in instances && inst.apiName == name
  {
    if instances == [] then []
    else
      var k := |instances| - 1;
      assert instances == instances[..k] + [instances[k]];
      Occurrences(instances[..k], name) + if instances[k].apiName == name then [instances[k]] else []
  }

  function InstanceStates(instances: seq<Instance>, facts: Facts): (r: seq<VState>)
    ensures |r| == |instances|
    ensures forall i :: 0 <= i < |r| ==> r[i] == InstanceState(instances[i].rules, facts)
  {
    seq(|instances|, i requires 0 <= i < |instances| => InstanceState(instances[i].rules, facts))
  }

  function FieldState(instances: seq<Instance>, name: string, facts: Facts): VState {
    var occurrences := Occurrences(instances, name);
    if occurrences == [] then HIDDEN else Combine(InstanceStates(occurrences, facts), OR)
  }

  predicate DependsOn(instances: seq<Instance>, name: string, facts: Facts, dependency: string) {
    exists inst, sr :: inst in Occurrences(instances, name) && sr in inst.rules
      && dependency in Evaluate(sr.rule, facts, sr.scope).dependsOn
  }

  /** What an instance's state means: hidden by any hidden rule, visible only by all of them. */
  lemma InstanceMeaning(rules: seq<ScopedRule>, facts: Facts)
    ensures InstanceState(rules, facts) == HIDDEN <==>
              exists sr :: sr in rules && Evaluate(sr.rule, facts, sr.scope).state == HIDDEN
    ensures InstanceState(rules, facts) == VISIBLE <==>
              forall sr :: sr in rules ==> Evaluate(sr.rule, facts, sr.scope).state == VISIBLE
  {
    var ss := RuleStates(rules, facts);
    CombineMeaning(ss);
    if HIDDEN in ss {
      var i :| 0 <= i < |ss| && ss[i] == HIDDEN;
      assert rules[i] in rules;
    }
    forall sr | sr in rules ensures Evaluate(sr.rule, facts, sr.scope).state in ss {
      var i :| 0 <= i < |rules| && rules[i] == sr;
      assert ss[i] == Evaluate(sr.rule, facts, sr.scope).state;
    }
    forall s | s in ss ensures exists sr :: sr in rules && s == Evaluate(sr.rule, facts, sr.scope).state {
      var i :| 0 <= i < |ss| && ss[i] == s;
      assert rules[i] in rules;
    }
  }

  lemma InstanceRefines(rules: seq<ScopedRule>, earlier: Facts, later: Facts)
    requires Extends(earlier, later)
    ensures Refines(InstanceState(rules, earlier), InstanceState(rules, later))
  {
    forall i | 0 <= i < |rules|
      ensures Refines(RuleStates(rules, earlier)[i], RuleStates(rules, later)[i])
    {
      DecidedStaysDecided(rules[i].rule, earlier, later, rules[i].scope);
    }
    CombineMonotone(RuleStates(rules, earlier), RuleStates(rules, later), AND);
  }

  /** A field that is VISIBLE or HIDDEN stays so as draft values are added. */
  lemma FieldDecidedStaysDecided(instances: seq<Instance>, name: string, earlier: Facts, later: Facts)
    requires Extends(earlier, later)
    ensures Refines(FieldState(instances, name, earlier), FieldState(instances, name, later))
  {
    var occurrences := Occurrences(instances, name);
    forall i | 0 <= i < |occurrences|
      ensures Refines(InstanceStates(occurrences, earlier)[i], InstanceStates(occurrences, later)[i])
    {
      InstanceRefines(occurrences[i].rules, earlier, later);
    }
    CombineMonotone(InstanceStates(occurrences, earlier), InstanceStates(occurrences, later), OR);
  }

  predicate SettlesInstance(rules: seq<ScopedRule>, facts: Facts, later: Facts) {
    forall i :: 0 <= i < |rules| ==> SettlesRule(rules[i].rule, facts, later, rules[i].scope)
  }

  predicate SettlesField(instances: seq<Instance>, name: string, facts: Facts, later: Facts) {
    forall inst :: inst in instances && inst.apiName == name ==> SettlesInstance(inst.rules, facts, later)
  }

  lemma InstanceSettles(rules: seq<ScopedRule>, facts: Facts, later: Facts)
    requires SettlesInstance(rules, facts, later)
    ensures Settles(InstanceState(rules, facts), InstanceState(rules, later))
  {
    forall i | 0 <= i < |rules|
      ensures Settles(RuleStates(rules, facts)[i], RuleStates(rules, later)[i])
    {
      PendingIsAnswerable(rules[i].rule, facts, later, rules[i].scope);
    }
    CombineSettles(RuleStates(rules, facts), RuleStates(rules, later), AND);
  }

  /** A PENDING field becomes VISIBLE or HIDDEN once its pending criteria are settled. */
  lemma FieldPendingIsAnswerable(instances: seq<Instance>, name: string, facts: Facts, later: Facts)
    requires SettlesField(instances, name, facts, later)
    ensures Settles(FieldState(instances, name, facts), FieldState(instances, name, later))
  {
    var occurrences := Occurrences(instances, name);
    forall i | 0 <= i < |occurrences|
      ensures Settles(InstanceStates(occurrences, facts)[i], InstanceStates(occurrences, later)[i])
    {
      assert occurrences[i] in occurrences;
      InstanceSettles(occurrences[i].rules, facts, later);
    }
    CombineSettles(InstanceStates(occurrences, facts), InstanceStates(occurrences, later), OR);
  }

  /** Every field behind a pending criterion of the name's instances is among its dependencies. */
  lemma FieldDependsOnPending(instances: seq<Instance>, name: string, facts: Facts, inst: Instance, sr: ScopedRule,
                              i: nat)
    requires inst in Occurrences(instances, name) && sr in inst.rules && !Refused(sr.rule)
    requires i < |sr.rule.criteria| && Decide(sr.rule.criteria[i], facts, sr.scope).state == PENDING
    ensures sr.rule.criteria[i].path.RecordField?
    ensures DependsOn(instances, name, facts, sr.rule.criteria[i].path.name)
  {
    PendingNamesItsField(sr.rule, facts, sr.scope, i);
  }

  /** A PENDING field has such a field to ask for. */
  lemma PendingFieldAsksForAField(instances: seq<Instance>, name: string, facts: Facts)
    requires FieldState(instances, name, facts) == PENDING
    ensures exists dependency :: DependsOn(instances, name, facts, dependency) && dependency !in facts.draftFields
  {
    var occurrences := Occurrences(instances, name);
    var ss := InstanceStates(occurrences, facts);
    CombineMeaning(ss);
    var i :| 0 <= i < |ss| && ss[i] == PENDING;
    var rules := occurrences[i].rules;
    var rs := RuleStates(rules, facts);
    CombineMeaning(rs);
    var j :| 0 <= j < |rs| && rs[j] == PENDING;
    assert occurrences[i] in occurrences && rules[j] in rules;
    PendingRuleAsksForAField(rules[j].rule, facts, rules[j].scope);
    var dependency :| dependency in Evaluate(rules[j].rule, facts, rules[j].scope).dependsOn
                      && dependency !in facts.draftFields;
    assert DependsOn(instances, name, facts, dependency);
  }
}

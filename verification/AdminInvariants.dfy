/** What every operation of the administration service keeps, and what follows over runs. */
module AdminInvariants {
  import opened Wrappers
  import opened AdminModel

  predicate Keys(db: Db) {
    && (forall id :: id in db.routes ==> id < db.nextRoute)
    && (forall id :: id in db.credentials ==> id < db.nextCredential)
    && (forall id :: id in db.policies ==> id < db.nextPolicy)
    && (forall id :: id in db.rules ==> id < db.nextRule)
  }

  /** The enabled Diagnostic user is no enabled route's user. */
  predicate Separated(n: Names, db: Db) {
    db.diagnostic.Some? && db.diagnostic.value.enabled ==>
      forall id :: id in db.routes && db.routes[id].enabled ==>
        n.username(db.routes[id].salesforceUsername) != n.username(db.diagnostic.value.salesforceUsername)
  }

  /** Every credential has its route, and a route at most one active credential. */
  predicate CredentialsSound(db: Db) {
    && (forall c :: c in db.credentials ==> db.credentials[c].routeId in db.routes)
    && (forall c, d :: c in db.credentials && d in db.credentials && Rivals(db.credentials[c], db.credentials[d]) ==>
        c == d)
  }

  predicate Rivals(a: Credential, b: Credential) {
    a.active && b.active && a.routeId == b.routeId
  }

  /** An enabled rule of an enabled policy uses only operations that policy allows. */
  predicate RulesAllowed(db: Db) {
    forall r :: r in db.rules ==>
      && db.rules[r].policyId in db.policies
      && (db.rules[r].input.enabled && db.policies[db.rules[r].policyId].enabled ==>
            Allows(db.policies[db.rules[r].policyId].allowCreate, db.policies[db.rules[r].policyId].allowUpdate,
                   db.rules[r].input))
  }

  /** No two rules of a policy manage the same field, up to case. */
  predicate TargetsDistinct(n: Names, db: Db) {
    forall r, q :: (r in db.rules && q in db.rules && db.rules[r].policyId == db.rules[q].policyId &&
                    n.apiName(db.rules[r].input.target) == n.apiName(db.rules[q].input.target)) ==> r == q
  }

  predicate NamesUnique(n: Names, db: Db) {
    && (forall a, b :: (a in db.routes && b in db.routes &&
                        db.routes[a].platformUserId == db.routes[b].platformUserId) ==> a == b)
    && (forall a, b :: (a in db.policies && b in db.policies &&
                        n.apiName(db.policies[a].objectApiName) == n.apiName(db.policies[b].objectApiName)) ==> a == b)
  }

  predicate Inv(n: Names, db: Db) {
    Keys(db) && Separated(n, db) && CredentialsSound(db) && RulesAllowed(db) && TargetsDistinct(n, db)
        && NamesUnique(n, db)
  }

  // ----- one operation at a time

  lemma CreateRouteKeeps(n: Names, db: Db, input: RouteInput, token: string)
    requires Inv(n, db)
    ensures var r := CreateRoute(n, db, input, token); r.Committed? ==> Inv(n, r.db)
  {
    var r := CreateRoute(n, db, input, token);
    if r.Committed? {
      assert db.nextRoute !in db.routes && db.nextCredential !in db.credentials;
      assert forall c :: c in db.credentials ==> db.credentials[c].routeId != db.nextRoute;
    }
  }

  lemma {:induction false} CreateAllKeeps(n: Names, db: Db, rows: seq<BatchRow>)
    requires Inv(n, db)
    ensures var r := CreateAll(n, db, rows); r.Committed? ==> Inv(n, r.db)
  {
    if rows != [] {
      var k := |rows| - 1;
      CreateAllKeeps(n, db, rows[..k]);
      var r := CreateAll(n, db, rows[..k]);
      if r.Committed? {
        CreateRouteKeeps(n, r.db, rows[k].input, rows[k].token);
      }
    }
  }

  lemma WriteRouteKeeps(n: Names, db: Db, id: nat, input: RouteInput, operation: Operation)
    requires Inv(n, db) && id in db.routes && !UserClashes(n, db.diagnostic, input.salesforceUsername, input.enabled)
    requires !PlatformUserTaken(db.routes - {id}, input.platformUserId)
    ensures Inv(n, WriteRoute(db, id, input, operation))
  {
    assert forall a :: a in db.routes && a != id ==> a in db.routes - {id};
  }

  lemma UpdateRouteKeeps(n: Names, db: Db, id: nat, input: RouteInput, v: nat)
    requires Inv(n, db)
    ensures var r := UpdateRoute(n, db, id, input, v); r.Committed? ==> Inv(n, r.db)
  {
    if UpdateRoute(n, db, id, input, v).Committed? {
      WriteRouteKeeps(n, db, id, input, ENABLE_IDENTITY_ROUTE);
      WriteRouteKeeps(n, db, id, input, DISABLE_IDENTITY_ROUTE);
      WriteRouteKeeps(n, db, id, input, UPDATE_IDENTITY_ROUTE);
    }
  }

  lemma DisableRouteKeeps(n: Names, db: Db, id: nat, v: nat)
    requires Inv(n, db)
    ensures var r := DisableRoute(db, id, v); r.Committed? ==> Inv(n, r.db)
  {
    if id in db.routes {
      var r := db.routes[id];
      WriteRouteKeeps(n, db, id, RouteInput(r.platformUserId, r.userName, r.salesforceUsername, false),
                      DISABLE_IDENTITY_ROUTE);
    }
  }

  /** A change to the credentials alone keeps the rest. */
  lemma CredentialChangeKeeps(n: Names, db: Db, credentials: map<nat, Credential>, next: nat)
    requires Inv(n, db)
    ensures var db1 := db.(credentials := credentials, nextCredential := next);
      CredentialsSound(db1) && (forall id :: id in credentials ==> id < next) ==> Inv(n, db1)
  {
  }

  lemma RevokeSound(db: Db, id: nat)
    requires CredentialsSound(db) && Keys(db) && id in db.credentials
    ensures CredentialsSound(Revoke(db, id)) && Keys(Revoke(db, id))
    ensures forall r, c :: ActiveFor(Revoke(db, id).credentials, r, c) <==> ActiveFor(db.credentials, r, c) && c != id
  {
    var db1 := Revoke(db, id);
    assert forall c :: c in db1.credentials ==>
        c in db.credentials && db1.credentials[c].routeId == db.credentials[c].routeId
        && (db1.credentials[c].active ==> db.credentials[c].active);
  }

  lemma RevokeKeeps(n: Names, db: Db, id: nat)
    requires Inv(n, db) && id in db.credentials
    ensures Inv(n, Revoke(db, id))
    ensures forall r, c :: ActiveFor(Revoke(db, id).credentials, r, c) <==> ActiveFor(db.credentials, r, c) && c != id
  {
    RevokeSound(db, id);
    CredentialChangeKeeps(n, db, Revoke(db, id).credentials, db.nextCredential);
  }

  lemma ActiveAreListed(credentials: map<nat, Credential>, routeId: nat)
    ensures forall c :: ActiveFor(credentials, routeId, c) <==> c in ActiveIds(credentials, routeId)
  {
  }

  lemma RevokeCurrentKeeps(n: Names, db: Db, routeId: nat, input: RegenerateInput)
    requires Inv(n, db) && RevokeCurrent(db, routeId, input).Some?
    ensures var db1 := RevokeCurrent(db, routeId, input).value;
      && Inv(n, db1) && db1.routes == db.routes && db1.nextCredential == db.nextCredential
      && forall c :: !ActiveFor(db1.credentials, routeId, c)
  {
    if ActiveIds(db.credentials, routeId) == {} {
      ActiveAreListed(db.credentials, routeId);
    } else {
      var id := input.credentialId.value;
      RevokeKeeps(n, db, id);
      assert forall c :: ActiveFor(db.credentials, routeId, c) ==> Rivals(db.credentials[c], db.credentials[id]);
    }
  }

  lemma InsertCredentialKeeps(n: Names, db: Db, routeId: nat, token: string)
    requires Inv(n, db) && routeId in db.routes && forall c :: !ActiveFor(db.credentials, routeId, c)
    ensures Inv(n, InsertCredential(db, routeId, token))
  {
    var db1 := InsertCredential(db, routeId, token);
    assert db.nextCredential !in db.credentials;
    forall c, d | c in db1.credentials && d in db1.credentials && Rivals(db1.credentials[c], db1.credentials[d])
      ensures c == d
    {
      assert c in db.credentials ==> !ActiveFor(db.credentials, routeId, c);
      assert d in db.credentials ==> !ActiveFor(db.credentials, routeId, d);
    }
    CredentialChangeKeeps(n, db, db1.credentials, db1.nextCredential);
  }

  lemma AuditedKeeps(n: Names, db: Db, operation: Operation, recordId: nat)
    requires Inv(n, db)
    ensures Inv(n, Audited(db, operation, recordId))
  {
  }

  lemma RegenerateKeeps(n: Names, db: Db, routeId: nat, input: RegenerateInput, token: string)
    requires Inv(n, db)
    ensures var r := Regenerate(db, routeId, input, token); r.Committed? ==> Inv(n, r.db)
  {
    if Regenerate(db, routeId, input, token).Committed? {
      RevokeCurrentKeeps(n, db, routeId, input);
      var db1 := RevokeCurrent(db, routeId, input).value;
      InsertCredentialKeeps(n, db1, routeId, token);
      AuditedKeeps(n, InsertCredential(db1, routeId, token), REGENERATE_USER_BOUND_CREDENTIAL, routeId);
    }
  }

  lemma DeleteRouteKeeps(n: Names, db: Db, id: nat, v: nat)
    requires Inv(n, db)
    ensures var r := DeleteRoute(db, id, v); r.Committed? ==> Inv(n, r.db)
  {
  }

  lemma CreatePolicyKeeps(n: Names, db: Db, input: PolicyInput)
    requires Inv(n, db)
    ensures var r := CreatePolicy(n, db, input); r.Committed? ==> Inv(n, r.db)
  {
    assert db.nextPolicy !in db.policies;
  }

  lemma WritePolicyKeeps(n: Names, db: Db, id: nat, input: PolicyInput, operation: Operation)
    requires Inv(n, db) && id in db.policies && !ObjectTaken(n, db.policies - {id}, input.objectApiName)
    requires input.enabled ==> EnabledRulesAllowed(db.rules, id, input.allowCreate, input.allowUpdate)
    ensures Inv(n, WritePolicy(db, id, input, operation))
  {
    assert forall a :: a in db.policies && a != id ==> a in db.policies - {id};
  }

  lemma DisablePolicyKeeps(n: Names, db: Db, id: nat, v: nat)
    requires Inv(n, db)
    ensures var r := DisablePolicy(db, id, v); r.Committed? ==> Inv(n, r.db)
  {
    if id in db.policies {
      var p := db.policies[id];
      WritePolicyKeeps(n, db, id, PolicyInput(p.objectApiName, p.allowCreate, p.allowUpdate,
                                                           p.attachmentEnabled, false),
                       DISABLE_DML_POLICY);
    }
  }

  lemma CreateRuleKeeps(n: Names, db: Db, policyId: nat, input: RuleInput)
    requires Inv(n, db)
    ensures var r := CreateRule(n, db, policyId, input); r.Committed? ==> Inv(n, r.db)
  {
    assert db.nextRule !in db.rules;
  }

  lemma UpdateRuleKeeps(n: Names, db: Db, policyId: nat, id: nat, input: RuleInput, v: nat)
    requires Inv(n, db)
    ensures var r := UpdateRule(n, db, policyId, id, input, v); r.Committed? ==> Inv(n, r.db)
  {
  }

  lemma DisableRuleKeeps(n: Names, db: Db, policyId: nat, id: nat, v: nat)
    requires Inv(n, db)
    ensures var r := DisableRule(db, policyId, id, v); r.Committed? ==> Inv(n, r.db)
  {
  }

  lemma DeleteRuleKeeps(n: Names, db: Db, policyId: nat, id: nat, v: nat)
    requires Inv(n, db)
    ensures var r := DeleteRule(db, policyId, id, v); r.Committed? ==> Inv(n, r.db)
  {
  }

  lemma UpdateDiagnosticKeeps(n: Names, db: Db, input: DiagnosticInput, v: Option<nat>)
    requires Inv(n, db)
    ensures var r := UpdateDiagnostic(n, db, input, v); r.Committed? ==> Inv(n, r.db)
  {
  }

  lemma VerifyDiagnosticKeeps(n: Names, db: Db, v: nat, verification: string)
    requires Inv(n, db)
    ensures var r := VerifyDiagnostic(db, v, verification); r.Committed? ==> Inv(n, r.db)
  {
  }

  lemma PerformKeeps(n: Names, db: Db, op: Op)
    requires Inv(n, db)
    ensures var r := Perform(n, db, op); r.Committed? ==> Inv(n, r.db)
  {
    match op
    case OpCreateRoute(input, token) => CreateRouteKeeps(n, db, input, token);
    case OpBatch(rows) => CreateAllKeeps(n, db, rows);
    case OpUpdateRoute(id, input, v) => UpdateRouteKeeps(n, db, id, input, v);
    case OpDisableRoute(id, v) => DisableRouteKeeps(n, db, id, v);
    case OpRegenerate(routeId, request, token) => RegenerateKeeps(n, db, routeId, request, token);
    case OpDeleteRoute(id, v) => DeleteRouteKeeps(n, db, id, v);
    case OpCreatePolicy(input) => CreatePolicyKeeps(n, db, input);
    case OpUpdatePolicy(id, input, v) =>
      if UpdatePolicy(n, db, id, input, v).Committed? {
        WritePolicyKeeps(n, db, id, input, UPDATE_DML_POLICY);
      }
    case OpDisablePolicy(id, v) => DisablePolicyKeeps(n, db, id, v);
    case OpCreateRule(policyId, input) => CreateRuleKeeps(n, db, policyId, input);
    case OpUpdateRule(policyId, id, input, v) => UpdateRuleKeeps(n, db, policyId, id, input, v);
    case OpDisableRule(policyId, id, v) => DisableRuleKeeps(n, db, policyId, id, v);
    case OpDeleteRule(policyId, id, v) => DeleteRuleKeeps(n, db, policyId, id, v);
    case OpUpdateDiagnostic(input, v) => UpdateDiagnosticKeeps(n, db, input, v);
    case OpVerifyDiagnostic(v, verification) => VerifyDiagnosticKeeps(n, db, v, verification);
  }

  lemma StepKeeps(n: Names, db: Db, call: Call)
    requires Inv(n, db)
    ensures Inv(n, Step(n, db, call))
  {
    PerformKeeps(n, db, call.op);
  }

  /** The invariants hold after every run of calls, whatever fails on the way. */
  lemma {:induction false} InvariantsOverRuns(n: Names, db: Db, calls: seq<Call>)
    requires Inv(n, db)
    ensures Inv(n, Run(n, db, calls))
  {
    if calls != [] {
      var k := |calls| - 1;
      InvariantsOverRuns(n, db, calls[..k]);
      StepKeeps(n, Run(n, db, calls[..k]), calls[k]);
    }
  }
}

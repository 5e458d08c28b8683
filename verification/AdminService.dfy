/** `ControlPlaneAdminService` over its repositories: tables updated in place inside a
    transaction that is rolled back when anything fails. Each operation is proved to be the
    step of `AdminModel` of the same name, so the invariants and the run properties hold. */
module AdminService {
  import opened Wrappers
  import opened AdminModel
  import opened AdminInvariants

  datatype Reply = Done | NothingWritten | Rejected(error: Error)

  function ReplyOf(r: Outcome): Reply {
    match r
    case Committed(_) => Done
    case Refused => NothingWritten
    case Failed(error) => Rejected(error)
  }

  // ----- paging

  /** The rules of a policy in the order the listing returns them. */
  function RuleIds(rules: map<nat, Rule>, policyId: nat, below: nat): (r: seq<nat>)
    ensures forall id :: id in r <==> id < below && id in rules && rules[id].policyId == policyId
  {
    if below == 0 then []
    else
      RuleIds(rules, policyId, below - 1)
      + if below - 1 in rules && rules[below - 1].policyId == policyId then [below - 1] else []
  }

  datatype Page = Page(items: seq<nat>, hasMore: bool, nextOffset: Option<nat>)

  const PAGE_LIMIT: nat := 100

  function Slice(rows: seq<nat>, offset: nat, count: nat): seq<nat> {
    if offset >= |rows| then [] else if offset + count >= |rows| then rows[offset..] else rows[offset..offset + count]
  }

  /** `rows` holds up to one row more than the page shows. */
  function MakePage(rows: seq<nat>, limit: nat, offset: nat): Page {
    var hasMore := |rows| > limit;
    var items := if hasMore then rows[..limit] else rows;
    Page(items, hasMore, if hasMore then Some(offset + |items|) else None)
  }

  /** Rule `id` manages the field, and is not the excluded rule. */
  predicate Manages(n: Names, rules: map<nat, Rule>, id: nat, target: string, excluded: Option<nat>)
    requires id in rules
  {
    Some(id) != excluded && n.apiName(rules[id].input.target) == n.apiName(target)
  }

  class AdminRepositories {
    const n: Names
    var routes: map<nat, Route>
    var credentials: map<nat, Credential>
    var policies: map<nat, Policy>
    var rules: map<nat, Rule>
    var diagnostic: Option<Diagnostic>
    var audits: seq<Audit>
    var nextRoute: nat
    var nextCredential: nat
    var nextPolicy: nat
    var nextRule: nat

    function Tables(): Db
      reads this
    {
      Db(routes, credentials, policies, rules, diagnostic, audits, nextRoute, nextCredential, nextPolicy, nextRule)
    }

    constructor (n: Names)
      ensures this.n == n && Tables() == EMPTY_DB && Inv(n, Tables())
    {
      this.n := n;
      routes, credentials, policies, rules := map[], map[], map[], map[];
      diagnostic, audits := None, [];
      nextRoute, nextCredential, nextPolicy, nextRule := 1, 1, 1, 1;
    }

    method Restore(db: Db)
      modifies this
      ensures Tables() == db
    {
      routes, credentials, policies, rules := db.routes, db.credentials, db.policies, db.rules;
      diagnostic, audits := db.diagnostic, db.audits;
      nextRoute, nextCredential, nextPolicy, nextRule := db.nextRoute, db.nextCredential, db.nextPolicy, db.nextRule;
    }

    /** The end of a transaction: the audit record is the last write, and a failure undoes all. */
    method Conclude(saved: Db, error: Option<Error>, operation: Operation, recordId: nat, writesOk: bool)
      returns (r: Reply)
      modifies this
      ensures error.Some? ==> r == Rejected(error.value) && Tables() == saved
      ensures error.None? && !writesOk ==> r == Rejected(WriteFailed) && Tables() == saved
      ensures error.None? && writesOk ==> r == Done && Tables() == Audited(old(Tables()), operation, recordId)
    {
      if error.Some? {
        Restore(saved);
        return Rejected(error.value);
      }
      if !writesOk {
        Restore(saved);
        return Rejected(WriteFailed);
      }
      audits := audits + [Audit(operation, recordId)];
      return Done;
    }

    // ----- routes and credentials

    method InsertRoute(input: RouteInput) returns (id: Option<nat>)
      modifies this
      ensures id.None? <==> PlatformUserTaken(old(routes), input.platformUserId)
      ensures id.None? ==> Tables() == old(Tables())
      ensures id.Some? ==> id.value == old(nextRoute) && Tables() == old(Tables()).(
                routes := old(routes)[id.value := Route(input.platformUserId, input.userName,
                                                        input.salesforceUsername, input.enabled, 1)],
                nextRoute := old(nextRoute) + 1)
    {
      if PlatformUserTaken(routes, input.platformUserId) {
        return None;
      }
      id := Some(nextRoute);
      routes := routes[nextRoute := Route(input.platformUserId, input.userName, input.salesforceUsername,
                                          input.enabled, 1)];
      nextRoute := nextRoute + 1;
    }

    method InsertCredentialRow(routeId: nat, tokenHash: string) returns (ok: bool)
      modifies this
      ensures ok <==> !TokenTaken(old(credentials), tokenHash)
      ensures Tables() == if ok then InsertCredential(old(Tables()), routeId, tokenHash) else old(Tables())
    {
      ok := !TokenTaken(credentials, tokenHash);
      if ok {
        credentials := credentials[nextCredential := Credential(routeId, tokenHash, true, 1)];
        nextCredential := nextCredential + 1;
      }
    }

    /** The row update with its version check; a duplicate key only matters once the row matched. */
    method UpdateRouteRow(id: nat, input: RouteInput, rowVersion: nat) returns (error: Option<Error>)
      modifies this
      ensures error == if id !in old(routes) then Some(NotFound)
                       else if old(routes)[id].rowVersion != rowVersion then Some(ConcurrentModification)
                       else if PlatformUserTaken(old(routes) - {id}, input.platformUserId) then Some(Conflict) else None
      ensures error.Some? ==> Tables() == old(Tables())
      ensures error.None? ==> Tables() == old(Tables()).(routes := old(routes)[id :=
                Route(input.platformUserId, input.userName, input.salesforceUsername, input.enabled, rowVersion + 1)])
    {
      if id !in routes {
        return Some(NotFound);
      }
      if routes[id].rowVersion != rowVersion {
        return Some(ConcurrentModification);
      }
      if PlatformUserTaken(routes - {id}, input.platformUserId) {
        return Some(Conflict);
      }
      routes := routes[id := Route(input.platformUserId, input.userName, input.salesforceUsername, input.enabled,
                                   rowVersion + 1)];
      return None;
    }

    method CreateIdentityRoute(input: RouteInput, token: string, writesOk: bool) returns (r: Reply)
      modifies this
      ensures Tables() == Step(n, old(Tables()), Call(OpCreateRoute(input, token), writesOk))
      ensures r == ReplyOf(Answer(n, old(Tables()), Call(OpCreateRoute(input, token), writesOk)))
    {
      var saved := Tables();
      if UserClashes(n, diagnostic, input.salesforceUsername, input.enabled) {
        return Rejected(Conflict);
      }
      var error := None;
      var id := InsertRoute(input);
      if id.None? {
        error := Some(Conflict);
      } else {
        var ok := InsertCredentialRow(id.value, token);
        if !ok {
          error := Some(Conflict);
        }
      }
      r := Conclude(saved, error, CREATE_IDENTITY_ROUTE, id.GetOr(0), writesOk);
    }

    method UpdateIdentityRoute(id: nat, input: RouteInput, rowVersion: nat, writesOk: bool) returns (r: Reply)
      modifies this
      ensures Tables() == Step(n, old(Tables()), Call(OpUpdateRoute(id, input, rowVersion), writesOk))
      ensures r == ReplyOf(Answer(n, old(Tables()), Call(OpUpdateRoute(id, input, rowVersion), writesOk)))
    {
      var saved := Tables();
      if UserClashes(n, diagnostic, input.salesforceUsername, input.enabled) {
        return Rejected(Conflict);
      }
      if id !in routes {
        return Rejected(NotFound);
      }
      var was := routes[id].enabled;
      var error := UpdateRouteRow(id, input, rowVersion);
      var operation := if !was && input.enabled then ENABLE_IDENTITY_ROUTE
                       else if was && !input.enabled then DISABLE_IDENTITY_ROUTE else UPDATE_IDENTITY_ROUTE;
      r := Conclude(saved, error, operation, id, writesOk);
    }

    method DisableIdentityRoute(id: nat, rowVersion: nat, writesOk: bool) returns (r: Reply)
      requires Inv(n, Tables())
      modifies this
      ensures Tables() == Step(n, old(Tables()), Call(OpDisableRoute(id, rowVersion), writesOk))
      ensures r == ReplyOf(Answer(n, old(Tables()), Call(OpDisableRoute(id, rowVersion), writesOk)))
    {
      var saved := Tables();
      if id !in routes {
        return Rejected(NotFound);
      }
      var current := routes[id];
      var error := UpdateRouteRow(id, RouteInput(current.platformUserId, current.userName, current.salesforceUsername,
                                                 false), rowVersion);
      r := Conclude(saved, error, DISABLE_IDENTITY_ROUTE, id, writesOk);
    }

    method RevokeCredential(id: nat, rowVersion: nat) returns (error: Option<Error>)
      modifies this
      ensures error == if id !in old(credentials) then Some(NotFound)
                       else if old(credentials)[id].rowVersion != rowVersion || !old(credentials)[id].active
                       then Some(ConcurrentModification) else None
      ensures Tables() == if error.None? then Revoke(old(Tables()), id) else old(Tables())
    {
      if id !in credentials {
        return Some(NotFound);
      }
      var c := credentials[id];
      if c.rowVersion != rowVersion || !c.active {
        return Some(ConcurrentModification);
      }
      credentials := credentials[id := c.(active := false, rowVersion := c.rowVersion + 1)];
      return None;
    }

    method RegenerateIdentityCredential(routeId: nat, input: RegenerateInput, token: string, writesOk: bool)
      returns (r: Reply)
      modifies this
      ensures Tables() == Step(n, old(Tables()), Call(OpRegenerate(routeId, input, token), writesOk))
      ensures r == ReplyOf(Answer(n, old(Tables()), Call(OpRegenerate(routeId, input, token), writesOk)))
    {
      var saved := Tables();
      if routeId !in routes {
        return Rejected(NotFound);
      }
      if routes[routeId].rowVersion != input.routeRowVersion {
        return Rejected(ConcurrentModification);
      }
      var active := ActiveIds(credentials, routeId);
      if |active| > 1 {
        return Rejected(ConfigurationInvalid);
      }
      var error := None;
      ActiveAreListed(credentials, routeId);
      if active != {} {
        var current :| current in active;
        OnlyOne(active, current);
        if input.credentialId != Some(current) || input.credentialRowVersion != Some(credentials[current].rowVersion) {
          return Rejected(ConcurrentModification);
        }
        error := RevokeCredential(current, credentials[current].rowVersion);
      } else if input.credentialId.Some? || input.credentialRowVersion.Some? {
        return Rejected(ConcurrentModification);
      }
      var ok := InsertCredentialRow(routeId, token);
      if !ok {
        error := Some(Conflict);
      }
      r := Conclude(saved, error, REGENERATE_USER_BOUND_CREDENTIAL, routeId, writesOk);
    }

    method DeleteIdentityRoute(id: nat, rowVersion: nat, writesOk: bool) returns (r: Reply)
      modifies this
      ensures Tables() == Step(n, old(Tables()), Call(OpDeleteRoute(id, rowVersion), writesOk))
      ensures r == ReplyOf(Answer(n, old(Tables()), Call(OpDeleteRoute(id, rowVersion), writesOk)))
    {
      var saved := Tables();
      if id !in routes {
        return Rejected(NotFound);
      }
      if routes[id].rowVersion != rowVersion {
        return Rejected(ConcurrentModification);
      }
      if routes[id].enabled {
        return Rejected(RequiresDisabled);
      }
      var active := ActiveIds(credentials, id);
      if active != {} {
        var current :| current in active;
        var _ := RevokeCredential(current, credentials[current].rowVersion);
      }
      credentials := credentials - CredentialsOf(credentials, id);
      routes := routes - {id};
      assert credentials == old(credentials) - CredentialsOf(old(credentials), id);
      r := Conclude(saved, None, DELETE_IDENTITY_ROUTE, id, writesOk);
    }

    method CollectConflicts(rows: seq<BatchRow>) returns (invalid: seq<nat>)
      ensures forall i :: i in invalid <==> 0 <= i < |rows| && RowConflicts(n, Tables(), rows, i)
      ensures forall a, b :: 0 <= a < b < |invalid| ==> invalid[a] < invalid[b]
    {
      var seen: set<string> := {};
      invalid := [];
      var i := 0;
      while i < |rows|
        invariant 0 <= i <= |rows|
        invariant forall p :: p in seen <==> SeenBefore(rows, i, p)
        invariant forall k :: k in invalid <==> 0 <= k < i && RowConflicts(n, Tables(), rows, k)
        invariant forall a :: 0 <= a < |invalid| ==> invalid[a] < i
        invariant forall a, b :: 0 <= a < b < |invalid| ==> invalid[a] < invalid[b]
      {
        var input := rows[i].input;
        SeenNext(rows, i);
        if input.platformUserId in seen {
          invalid := invalid + [i];
        } else {
          seen := seen + {input.platformUserId};
          if PlatformUserTaken(routes, input.platformUserId)
             || UserClashes(n, diagnostic, input.salesforceUsername, input.enabled) {
            invalid := invalid + [i];
          }
        }
        i := i + 1;
      }
    }

    /** The writes of one accepted row: route, credential and audit record. */
    method CreateBatchRow(input: RouteInput, token: string) returns (failed: bool)
      requires !UserClashes(n, diagnostic, input.salesforceUsername, input.enabled)
      modifies this
      ensures failed ==> CreateRoute(n, old(Tables()), input, token) == Failed(Conflict)
      ensures !failed ==> CreateRoute(n, old(Tables()), input, token) == Committed(Tables())
      ensures !failed ==> diagnostic == old(diagnostic)
    {
      var id := InsertRoute(input);
      if id.None? {
        return true;
      }
      var ok := InsertCredentialRow(id.value, token);
      if !ok {
        return true;
      }
      audits := audits + [Audit(CREATE_IDENTITY_ROUTE, id.value)];
      return false;
    }

    method BatchCreateIdentityRoutes(rows: seq<BatchRow>, writesOk: bool) returns (r: Reply, created: nat)
      requires Inv(n, Tables())
      modifies this
      ensures Tables() == Step(n, old(Tables()), Call(OpBatch(rows), writesOk))
      ensures r == ReplyOf(Answer(n, old(Tables()), Call(OpBatch(rows), writesOk)))
      ensures created == if r.Done? then |rows| else 0
    {
      var saved := Tables();
      created := 0;
      if rows == [] {
        return NothingWritten, 0;
      }
      var invalid := CollectConflicts(rows);
      if |invalid| > 0 {
        assert RowConflicts(n, saved, rows, invalid[0]) by {
          assert invalid[0] in invalid;
        }
        return NothingWritten, 0;
      }
      forall i | 0 <= i < |rows| ensures !RowConflicts(n, saved, rows, i) {
        assert i !in invalid;
      }
      var k := 0;
      while k < |rows|
        invariant 0 <= k <= |rows|
        invariant CreateAll(n, saved, rows[..k]) == Committed(Tables()) && diagnostic == saved.diagnostic
      {
        assert rows[..k + 1][..k] == rows[..k];
        assert !RowConflicts(n, saved, rows, k);
        var failed := CreateBatchRow(rows[k].input, rows[k].token);
        if failed {
          FailureSpreads(n, saved, rows, k + 1);
          Restore(saved);
          return Rejected(Conflict), 0;
        }
        k := k + 1;
      }
      assert rows[..k] == rows;
      if !writesOk {
        Restore(saved);
        return Rejected(WriteFailed), 0;
      }
      return Done, |rows|;
    }

    // ----- DML policies and managed field rules

    method UpdatePolicyRow(id: nat, input: PolicyInput, rowVersion: nat) returns (error: Option<Error>)
      modifies this
      ensures error == if id !in old(policies) then Some(NotFound)
                       else if old(policies)[id].rowVersion != rowVersion then Some(ConcurrentModification)
                       else if ObjectTaken(n, old(policies) - {id}, input.objectApiName) then Some(Conflict) else None
      ensures error.Some? ==> Tables() == old(Tables())
      ensures error.None? ==> Tables() == old(Tables()).(policies := old(policies)[id :=
                Policy(input.objectApiName, input.allowCreate, input.allowUpdate, input.attachmentEnabled,
                       input.enabled, rowVersion + 1)])
    {
      if id !in policies {
        return Some(NotFound);
      }
      if policies[id].rowVersion != rowVersion {
        return Some(ConcurrentModification);
      }
      if ObjectTaken(n, policies - {id}, input.objectApiName) {
        return Some(Conflict);
      }
      policies := policies[id := Policy(input.objectApiName, input.allowCreate, input.allowUpdate,
                                        input.attachmentEnabled,
                                        input.enabled, rowVersion + 1)];
      return None;
    }

    method CreateDmlPolicy(input: PolicyInput, writesOk: bool) returns (r: Reply)
      modifies this
      ensures Tables() == Step(n, old(Tables()), Call(OpCreatePolicy(input), writesOk))
      ensures r == ReplyOf(Answer(n, old(Tables()), Call(OpCreatePolicy(input), writesOk)))
    {
      if !Meaningful(input) {
        return Rejected(InputInvalid);
      }
      var saved := Tables();
      if ObjectTaken(n, policies, input.objectApiName) {
        return Rejected(Conflict);
      }
      var id := nextPolicy;
      policies := policies[id := Policy(input.objectApiName, input.allowCreate, input.allowUpdate,
                                        input.attachmentEnabled, input.enabled, 1)];
      nextPolicy := nextPolicy + 1;
      r := Conclude(saved, None, CREATE_DML_POLICY, id, writesOk);
    }

    /** The loop over the enabled rules of the policy. */
    method CheckEnabledRules(policyId: nat, allowCreate: bool, allowUpdate: bool) returns (ok: bool)
      requires Keys(Tables())
      ensures ok <==> EnabledRulesAllowed(rules, policyId, allowCreate, allowUpdate)
    {
      var ids := RuleIds(rules, policyId, nextRule);
      var i := 0;
      while i < |ids|
        invariant 0 <= i <= |ids|
        invariant forall j :: 0 <= j < i && rules[ids[j]].input.enabled ==>
            Allows(allowCreate, allowUpdate, rules[ids[j]].input)
      {
        assert ids[i] in ids;
        if rules[ids[i]].input.enabled && !Allows(allowCreate, allowUpdate, rules[ids[i]].input) {
          return false;
        }
        i := i + 1;
      }
      forall id | id in rules && rules[id].policyId == policyId && rules[id].input.enabled
        ensures Allows(allowCreate, allowUpdate, rules[id].input)
      {
        assert id in ids;
      }
      return true;
    }

    method UpdateDmlPolicy(id: nat, input: PolicyInput, rowVersion: nat, writesOk: bool) returns (r: Reply)
      requires Inv(n, Tables())
      modifies this
      ensures Tables() == Step(n, old(Tables()), Call(OpUpdatePolicy(id, input, rowVersion), writesOk))
      ensures r == ReplyOf(Answer(n, old(Tables()), Call(OpUpdatePolicy(id, input, rowVersion), writesOk)))
    {
      if !Meaningful(input) {
        return Rejected(InputInvalid);
      }
      var saved := Tables();
      if input.enabled {
        var ok := CheckEnabledRules(id, input.allowCreate, input.allowUpdate);
        if !ok {
          return Rejected(InputInvalid);
        }
      }
      var error := UpdatePolicyRow(id, input, rowVersion);
      r := Conclude(saved, error, UPDATE_DML_POLICY, id, writesOk);
    }

    method DisableDmlPolicy(id: nat, rowVersion: nat, writesOk: bool) returns (r: Reply)
      requires Inv(n, Tables())
      modifies this
      ensures Tables() == Step(n, old(Tables()), Call(OpDisablePolicy(id, rowVersion), writesOk))
      ensures r == ReplyOf(Answer(n, old(Tables()), Call(OpDisablePolicy(id, rowVersion), writesOk)))
    {
      var saved := Tables();
      if id !in policies {
        return Rejected(NotFound);
      }
      var p := policies[id];
      var error := UpdatePolicyRow(id, PolicyInput(p.objectApiName, p.allowCreate, p.allowUpdate, p.attachmentEnabled,
                                                   false), rowVersion);
      r := Conclude(saved, error, DISABLE_DML_POLICY, id, writesOk);
    }

    /** One page of the policy's rules. */
    method ListByDmlPolicyId(policyId: nat, limit: nat, offset: nat) returns (page: Page)
      ensures page == MakePage(Slice(RuleIds(rules, policyId, nextRule), offset, limit + 1), limit, offset)
    {
      page := MakePage(Slice(RuleIds(rules, policyId, nextRule), offset, limit + 1), limit, offset);
    }

    /** The paging loop sees every rule of the policy. */
    method AssertManagedTargetIsUnique(policyId: nat, target: string, excluded: Option<nat>)
      returns (error: Option<Error>)
      requires Keys(Tables())
      ensures error == if TargetTaken(n, rules, policyId, target, excluded) then Some(Conflict) else None
    {
      ghost var all := RuleIds(rules, policyId, nextRule);
      var offset := 0;
      while true
        invariant offset <= |all|
        invariant forall i :: 0 <= i < offset ==> !Manages(n, rules, all[i], target, excluded)
        decreases |all| - offset
      {
        var page := ListByDmlPolicyId(policyId, PAGE_LIMIT, offset);
        assert page.items == Slice(all, offset, PAGE_LIMIT);
        var taken := SomeManages(page.items, target, excluded);
        if taken {
          var id :| id in page.items && Manages(n, rules, id, target, excluded);
          assert id in all;
          return Some(Conflict);
        }
        forall i | offset <= i < offset + |page.items| ensures !Manages(n, rules, all[i], target, excluded) {
          assert all[i] == page.items[i - offset];
          assert all[i] in page.items;
        }
        if !page.hasMore || page.nextOffset.None? {
          assert offset + |page.items| == |all|;
          forall id | id in rules && rules[id].policyId == policyId ensures !Manages(n, rules, id, target, excluded) {
            assert id in all;
          }
          return None;
        }
        offset := page.nextOffset.value;
      }
    }

    method SomeManages(ids: seq<nat>, target: string, excluded: Option<nat>) returns (taken: bool)
      requires forall id :: id in ids ==> id in rules
      ensures taken <==> exists id :: id in ids && Manages(n, rules, id, target, excluded)
    {
      var i := 0;
      while i < |ids|
        invariant 0 <= i <= |ids|
        invariant forall j :: 0 <= j < i ==> !Manages(n, rules, ids[j], target, excluded)
      {
        if Manages(n, rules, ids[i], target, excluded) {
          return true;
        }
        i := i + 1;
      }
      return false;
    }

    method CheckRule(policyId: nat, input: RuleInput, excluded: Option<nat>) returns (error: Option<Error>)
      requires Keys(Tables()) && policyId in policies
      ensures error == RuleCheck(n, Tables(), policyId, input, excluded)
    {
      if !WellFormedRule(n, input) {
        return Some(InputInvalid);
      }
      if !Allows(policies[policyId].allowCreate, policies[policyId].allowUpdate, input) {
        return Some(InputInvalid);
      }
      error := AssertManagedTargetIsUnique(policyId, input.target, excluded);
    }

    method CreateManagedDmlFieldRule(policyId: nat, input: RuleInput, writesOk: bool) returns (r: Reply)
      requires Inv(n, Tables())
      modifies this
      ensures Tables() == Step(n, old(Tables()), Call(OpCreateRule(policyId, input), writesOk))
      ensures r == ReplyOf(Answer(n, old(Tables()), Call(OpCreateRule(policyId, input), writesOk)))
    {
      var saved := Tables();
      if policyId !in policies {
        return Rejected(NotFound);
      }
      var error := CheckRule(policyId, input, None);
      if error.Some? {
        return Rejected(error.value);
      }
      var id := nextRule;
      rules := rules[id := Rule(policyId, input, 1)];
      nextRule := nextRule + 1;
      r := Conclude(saved, None, CREATE_MANAGED_RULE, id, writesOk);
    }

    method UpdateRuleRow(id: nat, input: RuleInput, rowVersion: nat) returns (error: Option<Error>)
      requires id in rules
      modifies this
      ensures error == if old(rules)[id].rowVersion != rowVersion then Some(ConcurrentModification) else None
      ensures error.Some? ==> Tables() == old(Tables())
      ensures error.None? ==> Tables() == old(Tables()).(rules := old(rules)[id := Rule(old(rules)[id].policyId,
          input, rowVersion + 1)])
    {
      if rules[id].rowVersion != rowVersion {
        return Some(ConcurrentModification);
      }
      rules := rules[id := Rule(rules[id].policyId, input, rowVersion + 1)];
      return None;
    }

    method UpdateManagedDmlFieldRule(policyId: nat, id: nat, input: RuleInput, rowVersion: nat, writesOk: bool)
      returns (r: Reply)
      requires Inv(n, Tables())
      modifies this
      ensures Tables() == Step(n, old(Tables()), Call(OpUpdateRule(policyId, id, input, rowVersion), writesOk))
      ensures r == ReplyOf(Answer(n, old(Tables()), Call(OpUpdateRule(policyId, id, input, rowVersion), writesOk)))
    {
      var saved := Tables();
      if !RuleOfPolicy(Tables(), policyId, id) {
        return Rejected(NotFound);
      }
      var error := CheckRule(policyId, input, Some(id));
      if error.Some? {
        return Rejected(error.value);
      }
      error := UpdateRuleRow(id, input, rowVersion);
      r := Conclude(saved, error, UPDATE_MANAGED_RULE, id, writesOk);
    }

    method DisableManagedDmlFieldRule(policyId: nat, id: nat, rowVersion: nat, writesOk: bool) returns (r: Reply)
      modifies this
      ensures Tables() == Step(n, old(Tables()), Call(OpDisableRule(policyId, id, rowVersion), writesOk))
      ensures r == ReplyOf(Answer(n, old(Tables()), Call(OpDisableRule(policyId, id, rowVersion), writesOk)))
    {
      var saved := Tables();
      if !RuleOfPolicy(Tables(), policyId, id) {
        return Rejected(NotFound);
      }
      var error := UpdateRuleRow(id, rules[id].input.(enabled := false), rowVersion);
      r := Conclude(saved, error, DISABLE_MANAGED_RULE, id, writesOk);
    }

    method DeleteManagedDmlFieldRule(policyId: nat, id: nat, rowVersion: nat, writesOk: bool) returns (r: Reply)
      modifies this
      ensures Tables() == Step(n, old(Tables()), Call(OpDeleteRule(policyId, id, rowVersion), writesOk))
      ensures r == ReplyOf(Answer(n, old(Tables()), Call(OpDeleteRule(policyId, id, rowVersion), writesOk)))
    {
      var saved := Tables();
      if !RuleOfPolicy(Tables(), policyId, id) {
        return Rejected(NotFound);
      }
      if rules[id].input.enabled {
        return Rejected(InputInvalid);
      }
      if rules[id].rowVersion != rowVersion {
        return Rejected(ConcurrentModification);
      }
      rules := rules - {id};
      r := Conclude(saved, None, DELETE_MANAGED_RULE, id, writesOk);
    }

    // ----- the Diagnostic configuration

    method UpdateDiagnosticConfig(input: DiagnosticInput, rowVersion: Option<nat>, writesOk: bool) returns (r: Reply)
      modifies this
      ensures Tables() == Step(n, old(Tables()), Call(OpUpdateDiagnostic(input, rowVersion), writesOk))
      ensures r == ReplyOf(Answer(n, old(Tables()), Call(OpUpdateDiagnostic(input, rowVersion), writesOk)))
    {
      if Given(input.metadataType) != Given(input.metadataName) {
        return Rejected(InputInvalid);
      }
      var saved := Tables();
      if input.enabled && UsernameActive(n, routes, input.salesforceUsername) {
        return Rejected(Conflict);
      }
      var error := Upsert(input, rowVersion);
      r := Conclude(saved, error, UPDATE_DIAGNOSTIC_CONFIG, DIAGNOSTIC_ID, writesOk);
    }

    method Upsert(input: DiagnosticInput, rowVersion: Option<nat>) returns (error: Option<Error>)
      modifies this`diagnostic
      ensures error == if old(diagnostic).Some? && rowVersion != Some(old(diagnostic).value.rowVersion)
                       then Some(ConcurrentModification) else None
      ensures error.Some? ==> diagnostic == old(diagnostic)
      ensures error.None? ==> diagnostic == Some(Diagnostic(input.salesforceUsername, input.enabled, "NOT_VERIFIED",
                input.metadataType, input.metadataName,
                if old(diagnostic).Some? then old(diagnostic).value.rowVersion + 1 else 1))
    {
      var version := 1;
      if diagnostic.Some? {
        if rowVersion != Some(diagnostic.value.rowVersion) {
          return Some(ConcurrentModification);
        }
        version := diagnostic.value.rowVersion + 1;
      }
      diagnostic := Some(Diagnostic(input.salesforceUsername, input.enabled, "NOT_VERIFIED",
                                    input.metadataType, input.metadataName, version));
      return None;
    }

    method RecordDiagnosticVerification(rowVersion: nat, verification: string, writesOk: bool) returns (r: Reply)
      modifies this
      ensures Tables() == Step(n, old(Tables()), Call(OpVerifyDiagnostic(rowVersion, verification), writesOk))
      ensures r == ReplyOf(Answer(n, old(Tables()), Call(OpVerifyDiagnostic(rowVersion, verification), writesOk)))
    {
      var saved := Tables();
      if diagnostic.None? || diagnostic.value.rowVersion != rowVersion {
        return Rejected(ConcurrentModification);
      }
      diagnostic := Some(diagnostic.value.(verification := verification, rowVersion := rowVersion + 1));
      r := Conclude(saved, None, VERIFY_DIAGNOSTIC_CONFIG, DIAGNOSTIC_ID, writesOk);
    }
  }

  lemma SeenNext(rows: seq<BatchRow>, i: nat)
    requires i < |rows|
    ensures forall p :: SeenBefore(rows, i + 1, p) <==> SeenBefore(rows, i, p) || p == rows[i].input.platformUserId
  {
    forall p ensures SeenBefore(rows, i + 1, p) <==> SeenBefore(rows, i, p) || p == rows[i].input.platformUserId {
      if SeenBefore(rows, i + 1, p) {
        var j :| 0 <= j < i + 1 && rows[j].input.platformUserId == p;
        assert j < i ==> SeenBefore(rows, i, p);
      }
      if SeenBefore(rows, i, p) {
        var j :| 0 <= j < i && rows[j].input.platformUserId == p;
        assert SeenBefore(rows, i + 1, p);
      }
      if p == rows[i].input.platformUserId {
        assert 0 <= i < i + 1;
      }
    }
  }

  /** When some prefix of the rows cannot be created, neither can all of them, for the same reason. */
  lemma {:induction false} FailureSpreads(n: Names, db: Db, rows: seq<BatchRow>, k: nat)
    requires k <= |rows| && CreateAll(n, db, rows[..k]).Failed?
    ensures CreateAll(n, db, rows) == CreateAll(n, db, rows[..k])
  {
    if k < |rows| {
      var last := |rows| - 1;
      assert rows[..last][..k] == rows[..k];
      FailureSpreads(n, db, rows[..last], k);
    } else {
      assert rows[..k] == rows;
    }
  }

  lemma OnlyOne(s: set<nat>, x: nat)
    requires |s| <= 1 && x in s
    ensures s == {x}
  {
    assert |s - {x}| == 0;
  }
}

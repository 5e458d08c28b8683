/** What each administration operation promises its caller: exactly when it commits, which error
    it reports otherwise, and what the written row then holds, column by column. */
module AdminContracts {
  import opened Wrappers
  import opened AdminModel

  /** The enabled Diagnostic account already goes by this user name. */
  predicate DiagnosticHolds(n: Names, db: Db, username: string) {
    match db.diagnostic
    case None => false
    case Some(d) => d.enabled && n.username(d.salesforceUsername) == n.username(username)
  }

  predicate BelongsToAnother(db: Db, platformUserId: string, id: Option<nat>) {
    exists other :: other in db.routes && Some(other) != id && db.routes[other].platformUserId == platformUserId
  }

  predicate TokenInUse(db: Db, tokenHash: string) {
    exists id :: id in db.credentials && db.credentials[id].tokenHash == tokenHash
  }

  /** Nothing but the routes and the trail differs. */
  predicate OnlyRoutes(db: Db, db': Db) {
    db' == db.(routes := db'.routes, audits := db'.audits)
  }

  predicate OthersKept<V(==)>(before: map<nat, V>, after: map<nat, V>, id: nat) {
    after.Keys == before.Keys && forall other :: other in before && other != id ==> after[other] == before[other]
  }

  predicate Added<V(==)>(before: map<nat, V>, after: map<nat, V>, id: nat) {
    after.Keys == before.Keys + {id} && forall other :: other in before && other != id ==> after[other] == before[other]
  }

  predicate Gone<V(==)>(before: map<nat, V>, after: map<nat, V>, id: nat) {
    after.Keys == before.Keys - {id} && forall other :: other in after ==> after[other] == before[other]
  }

  // ----- identity routes

  lemma CreateRouteMeaning(n: Names, db: Db, input: RouteInput, token: string)
    ensures var r := Perform(n, db, OpCreateRoute(input, token));
      var refused := || (input.enabled && DiagnosticHolds(n, db, input.salesforceUsername))
                     || BelongsToAnother(db, input.platformUserId, None) || TokenInUse(db, token);
      && (r.Committed? <==> !refused) && (refused ==> r == Failed(Conflict))
      && (r.Committed? ==>
            && Added(db.routes, r.db.routes, db.nextRoute)
            && r.db.routes[db.nextRoute].platformUserId == input.platformUserId
            && r.db.routes[db.nextRoute].userName == input.userName
            && r.db.routes[db.nextRoute].salesforceUsername == input.salesforceUsername
            && r.db.routes[db.nextRoute].enabled == input.enabled
            && r.db.routes[db.nextRoute].rowVersion == 1
            && Added(db.credentials, r.db.credentials, db.nextCredential)
            && r.db.credentials[db.nextCredential].routeId == db.nextRoute
            && r.db.credentials[db.nextCredential].tokenHash == token
            && r.db.credentials[db.nextCredential].active
            && r.db.credentials[db.nextCredential].rowVersion == 1
            && r.db.nextRoute == db.nextRoute + 1 && r.db.nextCredential == db.nextCredential + 1
            && r.db.policies == db.policies && r.db.rules == db.rules && r.db.diagnostic == db.diagnostic)
  {
  }

  lemma UpdateRouteMeaning(n: Names, db: Db, id: nat, input: RouteInput, rowVersion: nat)
    ensures var r := Perform(n, db, OpUpdateRoute(id, input, rowVersion));
      var clash := input.enabled && DiagnosticHolds(n, db, input.salesforceUsername);
      var current := id in db.routes && db.routes[id].rowVersion == rowVersion;
      var taken := BelongsToAnother(db, input.platformUserId, Some(id));
      && (r.Committed? <==> !clash && current && !taken)
      && (r == Failed(NotFound) <==> !clash && id !in db.routes)
      && (r == Failed(ConcurrentModification) <==> !clash && id in db.routes && !current)
      && (r == Failed(Conflict) <==> clash || (current && taken))
      && (r.Committed? ==>
            && OnlyRoutes(db, r.db) && OthersKept(db.routes, r.db.routes, id)
            && r.db.routes[id].platformUserId == input.platformUserId
            && r.db.routes[id].userName == input.userName
            && r.db.routes[id].salesforceUsername == input.salesforceUsername
            && r.db.routes[id].enabled == input.enabled
            && r.db.routes[id].rowVersion == rowVersion + 1)
  {
    AnotherHolds(db, input.platformUserId, id);
  }

  lemma AnotherHolds(db: Db, platformUserId: string, id: nat)
    ensures PlatformUserTaken(db.routes - {id}, platformUserId) <==> BelongsToAnother(db, platformUserId, Some(id))
  {
    if other :| other in db.routes && Some(other) != Some(id) && db.routes[other].platformUserId == platformUserId {
      assert other in db.routes - {id};
    }
  }

  lemma DisableRouteMeaning(n: Names, db: Db, id: nat, rowVersion: nat)
    ensures var r := Perform(n, db, OpDisableRoute(id, rowVersion));
      && (r == Failed(NotFound) <==> id !in db.routes)
      && (r == Failed(ConcurrentModification) <==> id in db.routes && db.routes[id].rowVersion != rowVersion)
      && (r.Committed? <==> id in db.routes && db.routes[id].rowVersion == rowVersion)
      && (r.Committed? ==>
            && OnlyRoutes(db, r.db) && OthersKept(db.routes, r.db.routes, id)
            && !r.db.routes[id].enabled
            && r.db.routes[id].platformUserId == db.routes[id].platformUserId
            && r.db.routes[id].userName == db.routes[id].userName
            && r.db.routes[id].salesforceUsername == db.routes[id].salesforceUsername
            && r.db.routes[id].rowVersion == rowVersion + 1)
  {
  }

  /** A route is deleted only while disabled, and takes all of its credentials with it. */
  lemma DeleteRouteMeaning(n: Names, db: Db, id: nat, rowVersion: nat)
    ensures var r := Perform(n, db, OpDeleteRoute(id, rowVersion));
      var current := id in db.routes && db.routes[id].rowVersion == rowVersion;
      && (r == Failed(NotFound) <==> id !in db.routes)
      && (r == Failed(ConcurrentModification) <==> id in db.routes && !current)
      && (r == Failed(RequiresDisabled) <==> current && db.routes[id].enabled)
      && (r.Committed? <==> current && !db.routes[id].enabled)
      && (r.Committed? ==>
            && Gone(db.routes, r.db.routes, id)
            && (forall c :: c in r.db.credentials <==> c in db.credentials && db.credentials[c].routeId != id)
            && (forall c :: c in r.db.credentials ==> r.db.credentials[c] == db.credentials[c])
            && r.db == db.(routes := r.db.routes, credentials := r.db.credentials, audits := r.db.audits))
  {
  }

  // ----- credentials

  predicate IsActive(db: Db, routeId: nat, c: nat) {
    c in db.credentials && db.credentials[c].routeId == routeId && db.credentials[c].active
  }

  ghost predicate TwoActive(db: Db, routeId: nat) {
    exists a, b :: a != b && IsActive(db, routeId, a) && IsActive(db, routeId, b)
  }

  /** The request says what the route's active credential is: none, or this one at this version. */
  ghost predicate NamesTheActive(db: Db, routeId: nat, request: RegenerateInput) {
    || ((forall c :: !IsActive(db, routeId, c)) && request.credentialId == None
        && request.credentialRowVersion == None)
    || (request.credentialId.Some? && IsActive(db, routeId, request.credentialId.value)
        && request.credentialRowVersion == Some(db.credentials[request.credentialId.value].rowVersion))
  }

  lemma ActiveIdsMeaning(db: Db, routeId: nat)
    ensures |ActiveIds(db.credentials, routeId)| > 1 <==> TwoActive(db, routeId)
    ensures ActiveIds(db.credentials, routeId) == {} <==> forall c :: !IsActive(db, routeId, c)
  {
    var ids := ActiveIds(db.credentials, routeId);
    forall c ensures c in ids <==> IsActive(db, routeId, c) {}
    if a, b :| a != b && IsActive(db, routeId, a) && IsActive(db, routeId, b) {
      assert {a, b} <= ids;
      SubsetSize({a, b}, ids);
    }
    if |ids| > 1 {
      var a :| a in ids;
      assert |ids - {a}| > 0;
      var b :| b in ids - {a};
      assert IsActive(db, routeId, a) && IsActive(db, routeId, b);
    }
  }

  lemma {:induction false} SubsetSize(a: set<nat>, b: set<nat>)
    requires a <= b
    ensures |a| <= |b|
  {
    assert b == a + (b - a);
  }

  /** When a credential is regenerated, and which error says why it is not. */
  lemma RegenerateExactly(n: Names, db: Db, routeId: nat, request: RegenerateInput, token: string)
    ensures var r := Perform(n, db, OpRegenerate(routeId, request, token));
      var current := routeId in db.routes && db.routes[routeId].rowVersion == request.routeRowVersion;
      var clear, named := !TwoActive(db, routeId), NamesTheActive(db, routeId, request);
      && (r == Failed(NotFound) <==> routeId !in db.routes)
      && (r == Failed(ConfigurationInvalid) <==> current && !clear)
      && (r == Failed(ConcurrentModification) <==> (routeId in db.routes && !current) || (current && clear && !named))
      && (r == Failed(Conflict) <==> current && clear && named && TokenInUse(db, token))
      && (r.Committed? <==> current && clear && named && !TokenInUse(db, token))
  {
    ActiveIdsMeaning(db, routeId);
    RevokeKeepsTokens(db, routeId, request, token);
  }

  lemma RevokeKeepsTokens(db: Db, routeId: nat, request: RegenerateInput, token: string)
    ensures var revoked := RevokeCurrent(db, routeId, request);
      revoked.Some? ==> (TokenTaken(revoked.value.credentials, token) <==> TokenInUse(db, token))
  {
    var revoked := RevokeCurrent(db, routeId, request);
    if revoked.Some? {
      forall id ensures id in revoked.value.credentials <==> id in db.credentials {}
      forall id | id in db.credentials
        ensures revoked.value.credentials[id].tokenHash == db.credentials[id].tokenHash {}
    }
  }

  /** The route then has the new credential as its one active credential; the one it had is kept,
      revoked, one version on, and no other row is touched. */
  lemma RegenerateMeaning(n: Names, db: Db, routeId: nat, request: RegenerateInput, token: string)
    requires Perform(n, db, OpRegenerate(routeId, request, token)).Committed?
    ensures var db' := Perform(n, db, OpRegenerate(routeId, request, token)).db;
      var id := db.nextCredential;
      && db'.credentials.Keys == db.credentials.Keys + {id} && db'.nextCredential == id + 1
      && db'.credentials[id].routeId == routeId && db'.credentials[id].tokenHash == token
      && db'.credentials[id].active && db'.credentials[id].rowVersion == 1
      && (forall c :: c in db.credentials && c != id && IsActive(db, routeId, c) ==>
            && !db'.credentials[c].active && db'.credentials[c].rowVersion == db.credentials[c].rowVersion + 1
            && db'.credentials[c].routeId == db.credentials[c].routeId
            && db'.credentials[c].tokenHash == db.credentials[c].tokenHash)
      && (forall c :: c in db.credentials && c != id && !IsActive(db, routeId, c) ==>
            db'.credentials[c] == db.credentials[c])
      && db' == db.(credentials := db'.credentials, nextCredential := id + 1, audits := db'.audits)
  {
    RegenerateExactly(n, db, routeId, request, token);
    ActiveIdsMeaning(db, routeId);
  }

  // ----- policies

  predicate ObjectInUse(n: Names, db: Db, objectApiName: string, id: Option<nat>) {
    exists other :: other in db.policies && Some(other) != id
                    && n.apiName(db.policies[other].objectApiName) == n.apiName(objectApiName)
  }

  /** An enabled policy has to allow something. */
  predicate AllowsSomething(input: PolicyInput) {
    !input.enabled || input.allowCreate || input.allowUpdate || input.attachmentEnabled
  }

  /** The row holds the columns of the input at this version. */
  predicate PolicyHolds(policy: Policy, input: PolicyInput, rowVersion: nat) {
    && policy.objectApiName == input.objectApiName
    && policy.allowCreate == input.allowCreate && policy.allowUpdate == input.allowUpdate
    && policy.attachmentEnabled == input.attachmentEnabled
    && policy.enabled == input.enabled && policy.rowVersion == rowVersion
  }

  lemma CreatePolicyMeaning(n: Names, db: Db, input: PolicyInput)
    ensures var r := Perform(n, db, OpCreatePolicy(input));
      && (r == Failed(InputInvalid) <==> !AllowsSomething(input))
      && (r == Failed(Conflict) <==> AllowsSomething(input) && ObjectInUse(n, db, input.objectApiName, None))
      && (r.Committed? <==> AllowsSomething(input) && !ObjectInUse(n, db, input.objectApiName, None))
      && (r.Committed? ==>
            && Added(db.policies, r.db.policies, db.nextPolicy)
            && PolicyHolds(r.db.policies[db.nextPolicy], input, 1)
            && r.db == db.(policies := r.db.policies, nextPolicy := db.nextPolicy + 1, audits := r.db.audits))
  {
  }

  /** An enabled rule of the policy asks for something the input does not allow. */
  predicate BreaksARule(db: Db, id: nat, input: PolicyInput) {
    exists rule :: rule in db.rules && db.rules[rule].policyId == id && db.rules[rule].input.enabled
      && ((db.rules[rule].input.applyOnCreate && !input.allowCreate)
          || (db.rules[rule].input.applyOnUpdate && !input.allowUpdate))
  }

  lemma UpdatePolicyMeaning(n: Names, db: Db, id: nat, input: PolicyInput, rowVersion: nat)
    ensures var r := Perform(n, db, OpUpdatePolicy(id, input, rowVersion));
      var sound := AllowsSomething(input) && !(input.enabled && BreaksARule(db, id, input));
      var current := id in db.policies && db.policies[id].rowVersion == rowVersion;
      var taken := ObjectInUse(n, db, input.objectApiName, Some(id));
      && (r == Failed(InputInvalid) <==> !sound)
      && (r == Failed(NotFound) <==> sound && id !in db.policies)
      && (r == Failed(ConcurrentModification) <==> sound && id in db.policies && !current)
      && (r == Failed(Conflict) <==> sound && current && taken)
      && (r.Committed? <==> sound && current && !taken)
      && (r.Committed? ==>
            && OthersKept(db.policies, r.db.policies, id)
            && PolicyHolds(r.db.policies[id], input, rowVersion + 1)
            && r.db == db.(policies := r.db.policies, audits := r.db.audits))
  {
    AnotherObject(n, db, input.objectApiName, id);
  }

  lemma AnotherObject(n: Names, db: Db, objectApiName: string, id: nat)
    ensures ObjectTaken(n, db.policies - {id}, objectApiName) <==> ObjectInUse(n, db, objectApiName, Some(id))
  {
    if other :| other in db.policies && Some(other) != Some(id)
                && n.apiName(db.policies[other].objectApiName) == n.apiName(objectApiName) {
      assert other in db.policies - {id};
    }
  }

  lemma DisablePolicyMeaning(n: Names, db: Db, id: nat, rowVersion: nat)
    ensures var r := Perform(n, db, OpDisablePolicy(id, rowVersion));
      && (r == Failed(NotFound) <==> id !in db.policies)
      && (r == Failed(ConcurrentModification) <==> id in db.policies && db.policies[id].rowVersion != rowVersion)
      && (r.Committed? <==> id in db.policies && db.policies[id].rowVersion == rowVersion)
      && (r.Committed? ==>
            && OthersKept(db.policies, r.db.policies, id)
            && r.db.policies[id] == db.policies[id].(enabled := false, rowVersion := rowVersion + 1)
            && r.db == db.(policies := r.db.policies, audits := r.db.audits))
  {
  }

  // ----- managed field rules

  predicate Named(n: Names, name: Option<string>) {
    name.Some? && n.validApiName(name.value)
  }

  /** What a rule has to look like, by strategy: it applies to something, a lookup names its object
      and its key, and only a plain lookup may apply on update. */
  predicate RuleIsSound(n: Names, input: RuleInput) {
    && n.validApiName(input.target)
    && (input.applyOnCreate || input.applyOnUpdate)
    && (input.applyOnUpdate ==> input.strategy == PlatformUserLookup)
    && (if input.strategy == AiCreatedMarker then input.lookupObject == None && input.lookupMatch == None
        else Named(n, input.lookupObject) && Named(n, input.lookupMatch))
  }

  predicate PolicyAllows(policy: Policy, input: RuleInput) {
    !(input.applyOnCreate && !policy.allowCreate) && !(input.applyOnUpdate && !policy.allowUpdate)
  }

  predicate FieldInUse(n: Names, db: Db, policyId: nat, target: string, id: Option<nat>) {
    exists other :: other in db.rules && Some(other) != id && db.rules[other].policyId == policyId
                    && n.apiName(db.rules[other].input.target) == n.apiName(target)
  }

  lemma CreateRuleMeaning(n: Names, db: Db, policyId: nat, input: RuleInput)
    ensures var r := Perform(n, db, OpCreateRule(policyId, input));
      var sound := policyId in db.policies && RuleIsSound(n, input) && PolicyAllows(db.policies[policyId], input);
      var taken := FieldInUse(n, db, policyId, input.target, None);
      && (r == Failed(NotFound) <==> policyId !in db.policies)
      && (r == Failed(InputInvalid) <==> policyId in db.policies && !sound)
      && (r == Failed(Conflict) <==> sound && taken)
      && (r.Committed? <==> sound && !taken)
      && (r.Committed? ==>
            && Added(db.rules, r.db.rules, db.nextRule)
            && r.db.rules[db.nextRule] == Rule(policyId, input, 1)
            && r.db == db.(rules := r.db.rules, nextRule := db.nextRule + 1, audits := r.db.audits))
  {
  }

  predicate IsRuleOf(db: Db, policyId: nat, id: nat) {
    policyId in db.policies && id in db.rules && db.rules[id].policyId == policyId
  }

  lemma UpdateRuleMeaning(n: Names, db: Db, policyId: nat, id: nat, input: RuleInput, rowVersion: nat)
    ensures var r := Perform(n, db, OpUpdateRule(policyId, id, input, rowVersion));
      var known := IsRuleOf(db, policyId, id);
      var sound := known && RuleIsSound(n, input) && PolicyAllows(db.policies[policyId], input);
      var taken := FieldInUse(n, db, policyId, input.target, Some(id));
      && (r == Failed(NotFound) <==> !known)
      && (r == Failed(InputInvalid) <==> known && !sound)
      && (r == Failed(Conflict) <==> sound && taken)
      && (r == Failed(ConcurrentModification) <==> sound && !taken && db.rules[id].rowVersion != rowVersion)
      && (r.Committed? <==> sound && !taken && db.rules[id].rowVersion == rowVersion)
      && (r.Committed? ==>
            && OthersKept(db.rules, r.db.rules, id)
            && r.db.rules[id] == Rule(policyId, input, rowVersion + 1)
            && r.db == db.(rules := r.db.rules, audits := r.db.audits))
  {
  }

  lemma DisableRuleMeaning(n: Names, db: Db, policyId: nat, id: nat, rowVersion: nat)
    ensures var r := Perform(n, db, OpDisableRule(policyId, id, rowVersion));
      var known := IsRuleOf(db, policyId, id);
      && (r == Failed(NotFound) <==> !known)
      && (r == Failed(ConcurrentModification) <==> known && db.rules[id].rowVersion != rowVersion)
      && (r.Committed? <==> known && db.rules[id].rowVersion == rowVersion)
      && (r.Committed? ==>
            && OthersKept(db.rules, r.db.rules, id)
            && !r.db.rules[id].input.enabled
            && r.db.rules[id].input == db.rules[id].input.(enabled := false)
            && r.db.rules[id].policyId == policyId && r.db.rules[id].rowVersion == rowVersion + 1
            && r.db == db.(rules := r.db.rules, audits := r.db.audits))
  {
  }

  /** A rule is deleted only while disabled; that is asked before its version is. */
  lemma DeleteRuleMeaning(n: Names, db: Db, policyId: nat, id: nat, rowVersion: nat)
    ensures var r := Perform(n, db, OpDeleteRule(policyId, id, rowVersion));
      var known := IsRuleOf(db, policyId, id);
      && (r == Failed(NotFound) <==> !known)
      && (r == Failed(InputInvalid) <==> known && db.rules[id].input.enabled)
      && (r == Failed(ConcurrentModification) <==>
            known && !db.rules[id].input.enabled && db.rules[id].rowVersion != rowVersion)
      && (r.Committed? <==> known && !db.rules[id].input.enabled && db.rules[id].rowVersion == rowVersion)
      && (r.Committed? ==>
            Gone(db.rules, r.db.rules, id) && r.db == db.(rules := r.db.rules, audits := r.db.audits))
  {
  }

  // ----- the Diagnostic configuration

  predicate Present(text: Option<string>) {
    text != None && text != Some("")
  }

  /** An enabled route already goes by this user name. */
  predicate RouteHolds(n: Names, db: Db, username: string) {
    exists id :: id in db.routes && db.routes[id].enabled
                 && n.username(db.routes[id].salesforceUsername) == n.username(username)
  }

  /** The Diagnostic row takes every column of the input and loses its verification; the first one
      is inserted whatever version the caller names. */
  lemma UpdateDiagnosticMeaning(n: Names, db: Db, input: DiagnosticInput, rowVersion: Option<nat>)
    ensures var r := Perform(n, db, OpUpdateDiagnostic(input, rowVersion));
      var paired := Present(input.metadataType) == Present(input.metadataName);
      var free := !(input.enabled && RouteHolds(n, db, input.salesforceUsername));
      var current := db.diagnostic == None || rowVersion == Some(db.diagnostic.value.rowVersion);
      && (r == Failed(InputInvalid) <==> !paired)
      && (r == Failed(Conflict) <==> paired && !free)
      && (r == Failed(ConcurrentModification) <==> paired && free && !current)
      && (r.Committed? <==> paired && free && current)
      && (r.Committed? ==>
            && r.db == db.(diagnostic := r.db.diagnostic, audits := r.db.audits) && r.db.diagnostic.Some?
            && r.db.diagnostic.value.salesforceUsername == input.salesforceUsername
            && r.db.diagnostic.value.enabled == input.enabled
            && r.db.diagnostic.value.metadataType == input.metadataType
            && r.db.diagnostic.value.metadataName == input.metadataName
            && r.db.diagnostic.value.verification == "NOT_VERIFIED"
            && r.db.diagnostic.value.rowVersion
               == if db.diagnostic == None then 1 else db.diagnostic.value.rowVersion + 1)
  {
  }

  lemma VerifyDiagnosticMeaning(n: Names, db: Db, rowVersion: nat, verification: string)
    ensures var r := Perform(n, db, OpVerifyDiagnostic(rowVersion, verification));
      var current := db.diagnostic.Some? && db.diagnostic.value.rowVersion == rowVersion;
      && (r.Committed? <==> current) && (!current ==> r == Failed(ConcurrentModification))
      && (r.Committed? ==>
            && r.db == db.(diagnostic := r.db.diagnostic, audits := r.db.audits) && r.db.diagnostic.Some?
            && r.db.diagnostic.value.verification == verification
            && r.db.diagnostic.value.rowVersion == rowVersion + 1
            && r.db.diagnostic.value.salesforceUsername == db.diagnostic.value.salesforceUsername
            && r.db.diagnostic.value.enabled == db.diagnostic.value.enabled
            && r.db.diagnostic.value.metadataType == db.diagnostic.value.metadataType
            && r.db.diagnostic.value.metadataName == db.diagnostic.value.metadataName)
  {
  }

  // ----- the batch and the transaction

  /** A batch is answered without writing exactly when it is empty or some row names the platform
      user of an earlier row or of a route, or clashes with the Diagnostic account. */
  lemma BatchRefusedExactly(n: Names, db: Db, rows: seq<BatchRow>)
    ensures Perform(n, db, OpBatch(rows)) == Refused <==>
      || rows == []
      || (exists i, j :: 0 <= j < i < |rows| && rows[j].input.platformUserId == rows[i].input.platformUserId)
      || (exists i :: 0 <= i < |rows| && BelongsToAnother(db, rows[i].input.platformUserId, None))
      || (exists i :: 0 <= i < |rows| && rows[i].input.enabled
                      && DiagnosticHolds(n, db, rows[i].input.salesforceUsername))
  {
    CreateAllNeverRefuses(n, db, rows);
    ConflictsMeaning(n, db, rows);
  }

  lemma {:induction false} CreateAllNeverRefuses(n: Names, db: Db, rows: seq<BatchRow>)
    ensures CreateAll(n, db, rows) != Refused
  {
    if rows != [] {
      CreateAllNeverRefuses(n, db, rows[..|rows| - 1]);
    }
  }

  lemma ConflictsMeaning(n: Names, db: Db, rows: seq<BatchRow>)
    ensures SomeRowConflicts(n, db, rows) <==>
      || (exists i, j :: 0 <= j < i < |rows| && rows[j].input.platformUserId == rows[i].input.platformUserId)
      || (exists i :: 0 <= i < |rows| && BelongsToAnother(db, rows[i].input.platformUserId, None))
      || (exists i :: 0 <= i < |rows| && rows[i].input.enabled
                      && DiagnosticHolds(n, db, rows[i].input.salesforceUsername))
  {
    if i, j :| 0 <= j < i < |rows| && rows[j].input.platformUserId == rows[i].input.platformUserId {
      assert RowConflicts(n, db, rows, i);
    }
    if i :| 0 <= i < |rows| && BelongsToAnother(db, rows[i].input.platformUserId, None) {
      assert RowConflicts(n, db, rows, i);
    }
    if i :| 0 <= i < |rows| && rows[i].input.enabled && DiagnosticHolds(n, db, rows[i].input.salesforceUsername) {
      assert RowConflicts(n, db, rows, i);
    }
    if i :| 0 <= i < |rows| && RowConflicts(n, db, rows, i) {
      assert PlatformUserTaken(db.routes, rows[i].input.platformUserId) ==>
               BelongsToAnother(db, rows[i].input.platformUserId, None);
    }
  }

  /** Whatever is not committed leaves every table as it was, and a failed write commits nothing. */
  lemma TransactionMeaning(n: Names, db: Db, call: Call)
    ensures Answer(n, db, call).Committed? <==> Perform(n, db, call.op).Committed? && call.writesOk
    ensures Answer(n, db, call).Committed? ==> Step(n, db, call) == Perform(n, db, call.op).db
    ensures !Answer(n, db, call).Committed? ==> Step(n, db, call) == db
  {
  }
}

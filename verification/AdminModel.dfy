/** The administration control plane as a transactional state machine: tables, the checks
    of each service operation and what each writes when it commits. Transactions are
    serialised, so an operation is one step that commits or leaves the tables as they were. */
module AdminModel {
  import opened Wrappers

  datatype Error =
    | NotFound | Conflict | ConcurrentModification | InputInvalid
    | RequiresDisabled | ConfigurationInvalid | WriteFailed

  /** Name comparison, fixed for a deployment: user names up to case and blanks, API names up to
      case, and the pattern of a valid API name. */
  datatype Names = Names(username: string -> string, apiName: string -> string, validApiName: string -> bool)

  datatype Route = Route(platformUserId: string, userName: string, salesforceUsername: string, enabled: bool,
                         rowVersion: nat)
  datatype Credential = Credential(routeId: nat, tokenHash: string, active: bool, rowVersion: nat)
  datatype Policy = Policy(objectApiName: string, allowCreate: bool, allowUpdate: bool, attachmentEnabled: bool,
                           enabled: bool, rowVersion: nat)
  datatype Strategy = PlatformUserLookup | PlatformUserLookupFallback | AiCreatedMarker
  datatype RuleInput = RuleInput(target: string, strategy: Strategy, applyOnCreate: bool, applyOnUpdate: bool,
                                 lookupObject: Option<string>, lookupMatch: Option<string>, enabled: bool)
  datatype Rule = Rule(policyId: nat, input: RuleInput, rowVersion: nat)
  datatype Diagnostic = Diagnostic(salesforceUsername: string, enabled: bool, verification: string,
                                   metadataType: Option<string>, metadataName: Option<string>, rowVersion: nat)

  datatype Operation =
    | CREATE_IDENTITY_ROUTE | UPDATE_IDENTITY_ROUTE | ENABLE_IDENTITY_ROUTE | DISABLE_IDENTITY_ROUTE
    | REGENERATE_USER_BOUND_CREDENTIAL | DELETE_IDENTITY_ROUTE
    | CREATE_DML_POLICY | UPDATE_DML_POLICY | DISABLE_DML_POLICY
    | CREATE_MANAGED_RULE | UPDATE_MANAGED_RULE | DISABLE_MANAGED_RULE | DELETE_MANAGED_RULE
    | UPDATE_DIAGNOSTIC_CONFIG | VERIFY_DIAGNOSTIC_CONFIG
  datatype Audit = Audit(operation: Operation, recordId: nat)

  /** Tables by primary key; `next*` are the auto-increment counters. */
  datatype Db = Db(
    routes: map<nat, Route>, credentials: map<nat, Credential>, policies: map<nat, Policy>, rules: map<nat, Rule>,
    diagnostic: Option<Diagnostic>, audits: seq<Audit>,
    nextRoute: nat, nextCredential: nat, nextPolicy: nat, nextRule: nat)

  datatype RouteInput = RouteInput(platformUserId: string, userName: string, salesforceUsername: string, enabled: bool)
  /** A batch row and the token generated for its route. */
  datatype BatchRow = BatchRow(input: RouteInput, token: string)
  datatype PolicyInput = PolicyInput(objectApiName: string, allowCreate: bool, allowUpdate: bool,
                                     attachmentEnabled: bool, enabled: bool)
  datatype DiagnosticInput = DiagnosticInput(salesforceUsername: string, enabled: bool,
                                             metadataType: Option<string>, metadataName: Option<string>)
  datatype RegenerateInput = RegenerateInput(credentialId: Option<nat>, credentialRowVersion: Option<nat>,
                                             routeRowVersion: nat)

  /** What a service call does: it commits new tables, answers without writing, or fails. */
  datatype Outcome = Committed(db: Db) | Refused | Failed(error: Error)

  // ----- checks shared by the operations

  predicate UserClashes(n: Names, diagnostic: Option<Diagnostic>, username: string, enabled: bool) {
    enabled && diagnostic.Some? && diagnostic.value.enabled
    && n.username(diagnostic.value.salesforceUsername) == n.username(username)
  }

  predicate PlatformUserTaken(routes: map<nat, Route>, platformUserId: string) {
    exists id :: id in routes && routes[id].platformUserId == platformUserId
  }

  predicate TokenTaken(credentials: map<nat, Credential>, tokenHash: string) {
    exists id :: id in credentials && credentials[id].tokenHash == tokenHash
  }

  predicate ObjectTaken(n: Names, policies: map<nat, Policy>, objectApiName: string) {
    exists id :: id in policies && n.apiName(policies[id].objectApiName) == n.apiName(objectApiName)
  }

  predicate Meaningful(input: PolicyInput) {
    input.enabled ==> input.allowCreate || input.allowUpdate || input.attachmentEnabled
  }

  predicate ValidName(n: Names, name: Option<string>) {
    name.Some? && n.validApiName(name.value)
  }

  predicate WellFormedRule(n: Names, input: RuleInput) {
    && n.validApiName(input.target)
    && (input.applyOnCreate || input.applyOnUpdate)
    && match input.strategy
       case AiCreatedMarker =>
         input.applyOnCreate && !input.applyOnUpdate && input.lookupObject.None? && input.lookupMatch.None?
       case PlatformUserLookup => ValidName(n, input.lookupObject) && ValidName(n, input.lookupMatch)
       case PlatformUserLookupFallback =>
         && input.applyOnCreate && !input.applyOnUpdate
         && ValidName(n, input.lookupObject) && ValidName(n, input.lookupMatch)
  }

  predicate Allows(allowCreate: bool, allowUpdate: bool, input: RuleInput) {
    (input.applyOnCreate ==> allowCreate) && (input.applyOnUpdate ==> allowUpdate)
  }

  /** Some rule of the policy, other than `excluded`, already manages this field. */
  predicate TargetTaken(n: Names, rules: map<nat, Rule>, policyId: nat, target: string, excluded: Option<nat>) {
    exists id :: id in rules && rules[id].policyId == policyId && Some(id) != excluded
      && n.apiName(rules[id].input.target) == n.apiName(target)
  }

  predicate UsernameActive(n: Names, routes: map<nat, Route>, username: string) {
    exists id :: id in routes && routes[id].enabled && n.username(routes[id].salesforceUsername) == n.username(username)
  }

  predicate ActiveFor(credentials: map<nat, Credential>, routeId: nat, id: nat) {
    id in credentials && credentials[id].routeId == routeId && credentials[id].active
  }

  function Audited(db: Db, operation: Operation, recordId: nat): Db {
    db.(audits := db.audits + [Audit(operation, recordId)])
  }

  // ----- identity routes and credentials

  function InsertCredential(db: Db, routeId: nat, tokenHash: string): Db {
    db.(credentials := db.credentials[db.nextCredential := Credential(routeId, tokenHash, true, 1)],
        nextCredential := db.nextCredential + 1)
  }

  function CreateRoute(n: Names, db: Db, input: RouteInput, tokenHash: string): Outcome {
    if UserClashes(n, db.diagnostic, input.salesforceUsername, input.enabled) then Failed(Conflict)
    else if PlatformUserTaken(db.routes, input.platformUserId) then Failed(Conflict)
    else if TokenTaken(db.credentials, tokenHash) then Failed(Conflict)
    else
      var id := db.nextRoute;
      var route := Route(input.platformUserId, input.userName, input.salesforceUsername, input.enabled, 1);
      var db1 := db.(routes := db.routes[id := route], nextRoute := id + 1);
      Committed(Audited(InsertCredential(db1, id, tokenHash), CREATE_IDENTITY_ROUTE, id))
  }

  function WriteRoute(db: Db, id: nat, input: RouteInput, operation: Operation): Db
    requires id in db.routes
  {
    var route := Route(input.platformUserId, input.userName, input.salesforceUsername, input.enabled,
                       db.routes[id].rowVersion + 1);
    Audited(db.(routes := db.routes[id := route]), operation, id)
  }

  function UpdateRoute(n: Names, db: Db, id: nat, input: RouteInput, rowVersion: nat): Outcome {
    if UserClashes(n, db.diagnostic, input.salesforceUsername, input.enabled) then Failed(Conflict)
    else if id !in db.routes then Failed(NotFound)
    else if db.routes[id].rowVersion != rowVersion then Failed(ConcurrentModification)
    else if PlatformUserTaken(db.routes - {id}, input.platformUserId) then Failed(Conflict)
    else
      var was := db.routes[id].enabled;
      var operation := if !was && input.enabled then ENABLE_IDENTITY_ROUTE
                       else if was && !input.enabled then DISABLE_IDENTITY_ROUTE else UPDATE_IDENTITY_ROUTE;
      Committed(WriteRoute(db, id, input, operation))
  }

  function DisableRoute(db: Db, id: nat, rowVersion: nat): Outcome {
    if id !in db.routes then Failed(NotFound)
    else if db.routes[id].rowVersion != rowVersion then Failed(ConcurrentModification)
    else
      var r := db.routes[id];
      Committed(WriteRoute(db, id, RouteInput(r.platformUserId, r.userName, r.salesforceUsername, false),
                           DISABLE_IDENTITY_ROUTE))
  }

  function Revoke(db: Db, id: nat): Db
    requires id in db.credentials
  {
    var c := db.credentials[id];
    db.(credentials := db.credentials[id := c.(active := false, rowVersion := c.rowVersion + 1)])
  }

  /** The active credentials of a route, at most two of them as the query asks. */
  function ActiveIds(credentials: map<nat, Credential>, routeId: nat): set<nat> {
    set id | id in credentials && ActiveFor(credentials, routeId, id)
  }

  function Regenerate(db: Db, routeId: nat, input: RegenerateInput, tokenHash: string): Outcome {
    if routeId !in db.routes then Failed(NotFound)
    else if db.routes[routeId].rowVersion != input.routeRowVersion then Failed(ConcurrentModification)
    else if |ActiveIds(db.credentials, routeId)| > 1 then Failed(ConfigurationInvalid)
    else
      var revoked := RevokeCurrent(db, routeId, input);
      if revoked.None? then Failed(ConcurrentModification)
      else if TokenTaken(revoked.value.credentials, tokenHash) then Failed(Conflict)
      else
        Committed(Audited(InsertCredential(revoked.value, routeId, tokenHash), REGENERATE_USER_BOUND_CREDENTIAL,
                          routeId))
  }

  /** The tables after revoking the credential the caller named, or nothing when the caller's
      view of the active credential is out of date. */
  function RevokeCurrent(db: Db, routeId: nat, input: RegenerateInput): Option<Db> {
    if ActiveIds(db.credentials, routeId) == {} then
      (if input.credentialId.None? && input.credentialRowVersion.None? then Some(db) else None)
    else if input.credentialId.None? || !ActiveFor(db.credentials, routeId, input.credentialId.value) then None
    else if input.credentialRowVersion != Some(db.credentials[input.credentialId.value].rowVersion) then None
    else Some(Revoke(db, input.credentialId.value))
  }

  function CredentialsOf(credentials: map<nat, Credential>, routeId: nat): set<nat> {
    set id | id in credentials && credentials[id].routeId == routeId
  }

  function DeleteRoute(db: Db, id: nat, rowVersion: nat): Outcome {
    if id !in db.routes then Failed(NotFound)
    else if db.routes[id].rowVersion != rowVersion then Failed(ConcurrentModification)
    else if db.routes[id].enabled then Failed(RequiresDisabled)
    else
      Committed(Audited(db.(credentials := db.credentials - CredentialsOf(db.credentials, id),
                            routes := db.routes - {id}),
                        DELETE_IDENTITY_ROUTE, id))
  }

  // ----- the batch

  /** Row `i` conflicts with the tables or with an earlier row. */
  predicate RowConflicts(n: Names, db: Db, rows: seq<BatchRow>, i: nat)
    requires i < |rows|
  {
    || DuplicateInBatch(rows, i)
    || PlatformUserTaken(db.routes, rows[i].input.platformUserId)
    || UserClashes(n, db.diagnostic, rows[i].input.salesforceUsername, rows[i].input.enabled)
  }

  predicate DuplicateInBatch(rows: seq<BatchRow>, i: nat)
    requires i < |rows|
  {
    SeenBefore(rows, i, rows[i].input.platformUserId)
  }

  predicate SeenBefore(rows: seq<BatchRow>, i: nat, platformUserId: string)
    requires i <= |rows|
  {
    exists j :: 0 <= j < i && rows[j].input.platformUserId == platformUserId
  }

  predicate SomeRowConflicts(n: Names, db: Db, rows: seq<BatchRow>) {
    exists i :: 0 <= i < |rows| && RowConflicts(n, db, rows, i)
  }

  /** Creating the rows one after the other, all or none. */
  function CreateAll(n: Names, db: Db, rows: seq<BatchRow>): Outcome {
    if rows == [] then Committed(db)
    else
      var k := |rows| - 1;
      match CreateAll(n, db, rows[..k])
      case Committed(db1) => CreateRoute(n, db1, rows[k].input, rows[k].token)
      case failure => failure
  }

  function BatchCreate(n: Names, db: Db, rows: seq<BatchRow>): Outcome {
    if rows == [] || SomeRowConflicts(n, db, rows) then Refused else CreateAll(n, db, rows)
  }

  // ----- DML policies and managed field rules

  function CreatePolicy(n: Names, db: Db, input: PolicyInput): Outcome {
    if !Meaningful(input) then Failed(InputInvalid)
    else if ObjectTaken(n, db.policies, input.objectApiName) then Failed(Conflict)
    else
      var id := db.nextPolicy;
      var policy := Policy(input.objectApiName, input.allowCreate, input.allowUpdate, input.attachmentEnabled,
                           input.enabled, 1);
      Committed(Audited(db.(policies := db.policies[id := policy], nextPolicy := id + 1), CREATE_DML_POLICY, id))
  }

  function WritePolicy(db: Db, id: nat, input: PolicyInput, operation: Operation): Db
    requires id in db.policies
  {
    var policy := Policy(input.objectApiName, input.allowCreate, input.allowUpdate, input.attachmentEnabled,
                         input.enabled,
                         db.policies[id].rowVersion + 1);
    Audited(db.(policies := db.policies[id := policy]), operation, id)
  }

  predicate EnabledRulesAllowed(rules: map<nat, Rule>, policyId: nat, allowCreate: bool, allowUpdate: bool) {
    forall id :: id in rules && rules[id].policyId == policyId && rules[id].input.enabled ==>
      Allows(allowCreate, allowUpdate, rules[id].input)
  }

  function UpdatePolicy(n: Names, db: Db, id: nat, input: PolicyInput, rowVersion: nat): Outcome {
    if !Meaningful(input) then Failed(InputInvalid)
    else if input.enabled && !EnabledRulesAllowed(db.rules, id, input.allowCreate, input.allowUpdate) then
        Failed(InputInvalid)
    else if id !in db.policies then Failed(NotFound)
    else if db.policies[id].rowVersion != rowVersion then Failed(ConcurrentModification)
    else if ObjectTaken(n, db.policies - {id}, input.objectApiName) then Failed(Conflict)
    else Committed(WritePolicy(db, id, input, UPDATE_DML_POLICY))
  }

  function DisablePolicy(db: Db, id: nat, rowVersion: nat): Outcome {
    if id !in db.policies then Failed(NotFound)
    else if db.policies[id].rowVersion != rowVersion then Failed(ConcurrentModification)
    else
      var p := db.policies[id];
      Committed(WritePolicy(db, id, PolicyInput(p.objectApiName, p.allowCreate, p.allowUpdate, p.attachmentEnabled,
                                                false),
                            DISABLE_DML_POLICY))
  }

  function RuleCheck(n: Names, db: Db, policyId: nat, input: RuleInput, excluded: Option<nat>): Option<Error>
    requires policyId in db.policies
  {
    var policy := db.policies[policyId];
    if !WellFormedRule(n, input) then Some(InputInvalid)
    else if !Allows(policy.allowCreate, policy.allowUpdate, input) then Some(InputInvalid)
    else if TargetTaken(n, db.rules, policyId, input.target, excluded) then Some(Conflict)
    else None
  }

  function CreateRule(n: Names, db: Db, policyId: nat, input: RuleInput): Outcome {
    if policyId !in db.policies then Failed(NotFound)
    else
      var error := RuleCheck(n, db, policyId, input, None);
      if error.Some? then Failed(error.value)
      else
        var id := db.nextRule;
        Committed(Audited(db.(rules := db.rules[id := Rule(policyId, input, 1)], nextRule := id + 1),
                          CREATE_MANAGED_RULE, id))
  }

  function WriteRule(db: Db, id: nat, input: RuleInput, operation: Operation): Db
    requires id in db.rules
  {
    var rule := Rule(db.rules[id].policyId, input, db.rules[id].rowVersion + 1);
    Audited(db.(rules := db.rules[id := rule]), operation, id)
  }

  predicate RuleOfPolicy(db: Db, policyId: nat, id: nat) {
    policyId in db.policies && id in db.rules && db.rules[id].policyId == policyId
  }

  function UpdateRule(n: Names, db: Db, policyId: nat, id: nat, input: RuleInput, rowVersion: nat): Outcome {
    if !RuleOfPolicy(db, policyId, id) then Failed(NotFound)
    else
      var error := RuleCheck(n, db, policyId, input, Some(id));
      if error.Some? then Failed(error.value)
      else if db.rules[id].rowVersion != rowVersion then Failed(ConcurrentModification)
      else Committed(WriteRule(db, id, input, UPDATE_MANAGED_RULE))
  }

  function DisableRule(db: Db, policyId: nat, id: nat, rowVersion: nat): Outcome {
    if !RuleOfPolicy(db, policyId, id) then Failed(NotFound)
    else if db.rules[id].rowVersion != rowVersion then Failed(ConcurrentModification)
    else Committed(WriteRule(db, id, db.rules[id].input.(enabled := false), DISABLE_MANAGED_RULE))
  }

  function DeleteRule(db: Db, policyId: nat, id: nat, rowVersion: nat): Outcome {
    if !RuleOfPolicy(db, policyId, id) then Failed(NotFound)
    else if db.rules[id].input.enabled then Failed(InputInvalid)
    else if db.rules[id].rowVersion != rowVersion then Failed(ConcurrentModification)
    else Committed(Audited(db.(rules := db.rules - {id}), DELETE_MANAGED_RULE, id))
  }

  // ----- the Diagnostic configuration

  const DIAGNOSTIC_ID: nat := 1

  predicate Given(text: Option<string>) {
    text.Some? && text.value != ""
  }

  function UpdateDiagnostic(n: Names, db: Db, input: DiagnosticInput, rowVersion: Option<nat>): Outcome {
    if Given(input.metadataType) != Given(input.metadataName) then Failed(InputInvalid)
    else if input.enabled && UsernameActive(n, db.routes, input.salesforceUsername) then Failed(Conflict)
    else if db.diagnostic.Some? && rowVersion != Some(db.diagnostic.value.rowVersion) then
        Failed(ConcurrentModification)
    else
      var version := if db.diagnostic.Some? then db.diagnostic.value.rowVersion + 1 else 1;
      var diagnostic := Diagnostic(input.salesforceUsername, input.enabled, "NOT_VERIFIED",
                                   input.metadataType, input.metadataName, version);
      Committed(Audited(db.(diagnostic := Some(diagnostic)), UPDATE_DIAGNOSTIC_CONFIG, DIAGNOSTIC_ID))
  }

  function VerifyDiagnostic(db: Db, rowVersion: nat, verification: string): Outcome {
    if db.diagnostic.None? || db.diagnostic.value.rowVersion != rowVersion then Failed(ConcurrentModification)
    else
      var d := db.diagnostic.value;
      Committed(Audited(db.(diagnostic := Some(d.(verification := verification, rowVersion := d.rowVersion + 1))),
                        VERIFY_DIAGNOSTIC_CONFIG, DIAGNOSTIC_ID))
  }

  // ----- runs of the service

  datatype Op =
    | OpCreateRoute(routeInput: RouteInput, token: string)
    | OpBatch(rows: seq<BatchRow>)
    | OpUpdateRoute(id: nat, routeInput: RouteInput, rowVersion: nat)
    | OpDisableRoute(id: nat, rowVersion: nat)
    | OpRegenerate(routeId: nat, request: RegenerateInput, token: string)
    | OpDeleteRoute(id: nat, rowVersion: nat)
    | OpCreatePolicy(policyInput: PolicyInput)
    | OpUpdatePolicy(id: nat, policyInput: PolicyInput, rowVersion: nat)
    | OpDisablePolicy(id: nat, rowVersion: nat)
    | OpCreateRule(policyId: nat, ruleInput: RuleInput)
    | OpUpdateRule(policyId: nat, id: nat, ruleInput: RuleInput, rowVersion: nat)
    | OpDisableRule(policyId: nat, id: nat, rowVersion: nat)
    | OpDeleteRule(policyId: nat, id: nat, rowVersion: nat)
    | OpUpdateDiagnostic(diagnosticInput: DiagnosticInput, version: Option<nat>)
    | OpVerifyDiagnostic(rowVersion: nat, verification: string)

  /** A call of the service. `writesOk` is false when a database write, the audit record
      included, fails: the transaction then rolls back. */
  datatype Call = Call(op: Op, writesOk: bool)

  function Perform(n: Names, db: Db, op: Op): Outcome {
    match op
    case OpCreateRoute(input, token) => CreateRoute(n, db, input, token)
    case OpBatch(rows) => BatchCreate(n, db, rows)
    case OpUpdateRoute(id, input, v) => UpdateRoute(n, db, id, input, v)
    case OpDisableRoute(id, v) => DisableRoute(db, id, v)
    case OpRegenerate(routeId, request, token) => Regenerate(db, routeId, request, token)
    case OpDeleteRoute(id, v) => DeleteRoute(db, id, v)
    case OpCreatePolicy(input) => CreatePolicy(n, db, input)
    case OpUpdatePolicy(id, input, v) => UpdatePolicy(n, db, id, input, v)
    case OpDisablePolicy(id, v) => DisablePolicy(db, id, v)
    case OpCreateRule(policyId, input) => CreateRule(n, db, policyId, input)
    case OpUpdateRule(policyId, id, input, v) => UpdateRule(n, db, policyId, id, input, v)
    case OpDisableRule(policyId, id, v) => DisableRule(db, policyId, id, v)
    case OpDeleteRule(policyId, id, v) => DeleteRule(db, policyId, id, v)
    case OpUpdateDiagnostic(input, v) => UpdateDiagnostic(n, db, input, v)
    case OpVerifyDiagnostic(v, verification) => VerifyDiagnostic(db, v, verification)
  }

  /** The transaction: committed tables replace the old ones, anything else leaves them. */
  function Answer(n: Names, db: Db, call: Call): Outcome {
    var r := Perform(n, db, call.op);
    if r.Committed? && !call.writesOk then Failed(WriteFailed) else r
  }

  function Step(n: Names, db: Db, call: Call): Db {
    var r := Answer(n, db, call);
    if r.Committed? then r.db else db
  }

  function Run(n: Names, db: Db, calls: seq<Call>): Db {
    if calls == [] then db else Step(n, Run(n, db, calls[..|calls| - 1]), calls[|calls| - 1])
  }

  const EMPTY_DB: Db := Db(map[], map[], map[], map[], None, [], 1, 1, 1, 1)
}

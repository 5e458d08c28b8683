/** The audit trail of the administration service: which records each call appends, and what the
    trail says of the tables after any run. */
module AdminTrail {
  import opened Wrappers
  import opened AdminModel
  import opened AdminInvariants
  import opened AdminRuns

  // ----- the records of one call

  /** The record of a call that writes one row: what was done, and to which row. */
  function RecordOf(db: Db, op: Op): Audit
    requires !op.OpBatch?
  {
    match op
    case OpCreateRoute(_, _) => Audit(CREATE_IDENTITY_ROUTE, db.nextRoute)
    case OpUpdateRoute(id, input, _) => Audit(Transition(id in db.routes && db.routes[id].enabled, input.enabled), id)
    case OpDisableRoute(id, _) => Audit(DISABLE_IDENTITY_ROUTE, id)
    case OpRegenerate(routeId, _, _) => Audit(REGENERATE_USER_BOUND_CREDENTIAL, routeId)
    case OpDeleteRoute(id, _) => Audit(DELETE_IDENTITY_ROUTE, id)
    case OpCreatePolicy(_) => Audit(CREATE_DML_POLICY, db.nextPolicy)
    case OpUpdatePolicy(id, _, _) => Audit(UPDATE_DML_POLICY, id)
    case OpDisablePolicy(id, _) => Audit(DISABLE_DML_POLICY, id)
    case OpCreateRule(_, _) => Audit(CREATE_MANAGED_RULE, db.nextRule)
    case OpUpdateRule(_, id, _, _) => Audit(UPDATE_MANAGED_RULE, id)
    case OpDisableRule(_, id, _) => Audit(DISABLE_MANAGED_RULE, id)
    case OpDeleteRule(_, id, _) => Audit(DELETE_MANAGED_RULE, id)
    case OpUpdateDiagnostic(_, _) => Audit(UPDATE_DIAGNOSTIC_CONFIG, DIAGNOSTIC_ID)
    case OpVerifyDiagnostic(_, _) => Audit(VERIFY_DIAGNOSTIC_CONFIG, DIAGNOSTIC_ID)
  }

  /** How an update of a route that was, or is to be, enabled is called. */
  function Transition(was: bool, now: bool): Operation {
    if !was && now then ENABLE_IDENTITY_ROUTE else if was && !now then DISABLE_IDENTITY_ROUTE else UPDATE_IDENTITY_ROUTE
  }

  /** The creations of `count` routes with consecutive new identities. */
  function Creations(first: nat, count: nat): seq<Audit> {
    seq(count, i requires 0 <= i < count => Audit(CREATE_IDENTITY_ROUTE, first + i))
  }

  function Records(db: Db, op: Op): seq<Audit> {
    if op.OpBatch? then Creations(db.nextRoute, |op.rows|) else [RecordOf(db, op)]
  }

  lemma {:induction false} CreateAllAudits(n: Names, db: Db, rows: seq<BatchRow>)
    ensures var r := CreateAll(n, db, rows);
      r.Committed? ==>
        && r.db.audits == db.audits + Creations(db.nextRoute, |rows|)
        && r.db.nextRoute == db.nextRoute + |rows|
  {
    if rows == [] {
      assert db.audits + Creations(db.nextRoute, 0) == db.audits;
    } else if CreateAll(n, db, rows).Committed? {
      var k := |rows| - 1;
      CreateAllAudits(n, db, rows[..k]);
      assert Creations(db.nextRoute, k + 1)
          == Creations(db.nextRoute, k) + [Audit(CREATE_IDENTITY_ROUTE, db.nextRoute + k)];
    }
  }

  lemma SingleAudits(n: Names, db: Db, op: Op)
    requires !op.OpBatch? && Perform(n, db, op).Committed?
    ensures Perform(n, db, op).db.audits == db.audits + [RecordOf(db, op)]
  {
  }

  /** A call that does not commit changes nothing; one that commits appends exactly its records:
      the operation and the row it wrote, and for a batch the new routes in order. */
  lemma EveryMutationIsAudited(n: Names, db: Db, call: Call)
    ensures var db1 := Step(n, db, call);
      if Answer(n, db, call).Committed? then db1.audits == db.audits + Records(db, call.op) else db1 == db
  {
    if Answer(n, db, call).Committed? {
      if call.op.OpBatch? {
        CreateAllAudits(n, db, call.op.rows);
      } else {
        SingleAudits(n, db, call.op);
      }
    }
  }

  // ----- the trail against the tables

  /** The table of which a record says that one row was written. */
  function Written(operation: Operation): Option<Table> {
    match operation
    case CREATE_IDENTITY_ROUTE => Some(Routes)
    case UPDATE_IDENTITY_ROUTE => Some(Routes)
    case ENABLE_IDENTITY_ROUTE => Some(Routes)
    case DISABLE_IDENTITY_ROUTE => Some(Routes)
    case CREATE_DML_POLICY => Some(Policies)
    case UPDATE_DML_POLICY => Some(Policies)
    case DISABLE_DML_POLICY => Some(Policies)
    case CREATE_MANAGED_RULE => Some(Rules)
    case UPDATE_MANAGED_RULE => Some(Rules)
    case DISABLE_MANAGED_RULE => Some(Rules)
    case UPDATE_DIAGNOSTIC_CONFIG => Some(DiagnosticConfig)
    case VERIFY_DIAGNOSTIC_CONFIG => Some(DiagnosticConfig)
    case _ => None
  }

  /** The table of which a record says that one row was deleted. */
  function Deleted(operation: Operation): Option<Table> {
    match operation
    case DELETE_IDENTITY_ROUTE => Some(Routes)
    case DELETE_MANAGED_RULE => Some(Rules)
    case _ => None
  }

  function VersionOf(db: Db, table: Table, id: nat): Option<nat> {
    match table
    case Routes => RouteVersion(db, id)
    case Policies => PolicyVersion(db, id)
    case Rules => RuleVersion(db, id)
    case DiagnosticConfig => if id == DIAGNOSTIC_ID then DiagnosticVersion(db) else None
  }

  /** No row ever had this identity. */
  predicate Unused(db: Db, table: Table, id: nat) {
    match table
    case Routes => id == 0 || id >= db.nextRoute
    case Policies => id == 0 || id >= db.nextPolicy
    case Rules => id == 0 || id >= db.nextRule
    case DiagnosticConfig => id != DIAGNOSTIC_ID || db.diagnostic.None?
  }

  predicate WritesRow(a: Audit, table: Table, id: nat) {
    Written(a.operation) == Some(table) && a.recordId == id
  }

  predicate DeletesRow(a: Audit, table: Table, id: nat) {
    Deleted(a.operation) == Some(table) && a.recordId == id
  }

  /** How many records say that the row was written. */
  function Writes(audits: seq<Audit>, table: Table, id: nat): nat {
    if audits == [] then 0
    else
      var k := |audits| - 1;
      Writes(audits[..k], table, id) + if WritesRow(audits[k], table, id) then 1 else 0
  }

  predicate SaysDeleted(audits: seq<Audit>, table: Table, id: nat) {
    exists k :: 0 <= k < |audits| && DeletesRow(audits[k], table, id)
  }

  /** The trail accounts for a row: it has records exactly when it was ever there, its version is
      their number, and it is gone exactly when a record says so. */
  predicate LoggedRow(db: Db, table: Table, id: nat) {
    if Unused(db, table, id) then
      VersionOf(db, table, id).None? && Writes(db.audits, table, id) == 0 && !SaysDeleted(db.audits, table, id)
    else
      && Writes(db.audits, table, id) > 0
      && (VersionOf(db, table, id).None? <==> SaysDeleted(db.audits, table, id))
      && (VersionOf(db, table, id).Some? ==> VersionOf(db, table, id).value == Writes(db.audits, table, id))
  }

  /** What a single call does to any row, in terms of the record it appends. */
  predicate RowFollows(before: Db, after: Db, a: Audit, table: Table, id: nat) {
    var old', new' := VersionOf(before, table, id), VersionOf(after, table, id);
    if WritesRow(a, table, id) then
      && new' == Some(old'.GetOr(0) + 1) && !Unused(after, table, id)
      && (old'.None? ==> Unused(before, table, id))
    else if DeletesRow(a, table, id) then
      old'.Some? && new'.None? && !Unused(before, table, id) && !Unused(after, table, id)
    else
      new' == old' && (Unused(after, table, id) <==> Unused(before, table, id))
  }

  /** Identities start at one. */
  predicate Counting(db: Db) {
    db.nextRoute > 0 && db.nextPolicy > 0 && db.nextRule > 0 && 0 !in db.routes && 0 !in db.policies && 0 !in db.rules
  }

  lemma RouteComesOrGoes(n: Names, db: Db, op: Op, table: Table, id: nat)
    requires Keys(db) && Counting(db) && (op.OpCreateRoute? || op.OpDeleteRoute?) && Perform(n, db, op).Committed?
    ensures RowFollows(db, Perform(n, db, op).db, RecordOf(db, op), table, id)
    ensures Counting(Perform(n, db, op).db)
  {
  }

  lemma RouteChanges(n: Names, db: Db, op: Op, table: Table, id: nat)
    requires Keys(db) && Counting(db) && (op.OpUpdateRoute? || op.OpDisableRoute?) && Perform(n, db, op).Committed?
    ensures RowFollows(db, Perform(n, db, op).db, RecordOf(db, op), table, id)
    ensures Counting(Perform(n, db, op).db)
  {
  }

  lemma RegenerateFollows(n: Names, db: Db, op: Op, table: Table, id: nat)
    requires Keys(db) && Counting(db) && op.OpRegenerate? && Perform(n, db, op).Committed?
    ensures RowFollows(db, Perform(n, db, op).db, RecordOf(db, op), table, id)
    ensures Counting(Perform(n, db, op).db)
  {
  }

  lemma RuleComesOrGoes(n: Names, db: Db, op: Op, table: Table, id: nat)
    requires Keys(db) && Counting(db) && (op.OpCreateRule? || op.OpDeleteRule?) && Perform(n, db, op).Committed?
    ensures RowFollows(db, Perform(n, db, op).db, RecordOf(db, op), table, id)
    ensures Counting(Perform(n, db, op).db)
  {
  }

  lemma RuleChanges(n: Names, db: Db, op: Op, table: Table, id: nat)
    requires Keys(db) && Counting(db) && (op.OpUpdateRule? || op.OpDisableRule?) && Perform(n, db, op).Committed?
    ensures RowFollows(db, Perform(n, db, op).db, RecordOf(db, op), table, id)
    ensures Counting(Perform(n, db, op).db)
  {
  }

  lemma PolicyOpFollows(n: Names, db: Db, op: Op, table: Table, id: nat)
    requires Keys(db) && Counting(db) && (op.OpCreatePolicy? || op.OpUpdatePolicy? || op.OpDisablePolicy?)
        && Perform(n, db, op).Committed?
    ensures RowFollows(db, Perform(n, db, op).db, RecordOf(db, op), table, id)
    ensures Counting(Perform(n, db, op).db)
  {
  }

  lemma DiagnosticOpFollows(n: Names, db: Db, op: Op, table: Table, id: nat)
    requires Keys(db) && Counting(db) && (op.OpUpdateDiagnostic? || op.OpVerifyDiagnostic?)
        && Perform(n, db, op).Committed?
    ensures RowFollows(db, Perform(n, db, op).db, RecordOf(db, op), table, id)
    ensures Counting(Perform(n, db, op).db)
  {
  }

  lemma SingleFollows(n: Names, db: Db, op: Op, table: Table, id: nat)
    requires Keys(db) && Counting(db) && !op.OpBatch? && Perform(n, db, op).Committed?
    ensures RowFollows(db, Perform(n, db, op).db, RecordOf(db, op), table, id)
    ensures Counting(Perform(n, db, op).db)
  {
    if op.OpCreateRoute? || op.OpDeleteRoute? {
      RouteComesOrGoes(n, db, op, table, id);
    } else if op.OpUpdateRoute? || op.OpDisableRoute? {
      RouteChanges(n, db, op, table, id);
    } else if op.OpRegenerate? {
      RegenerateFollows(n, db, op, table, id);
    } else if op.OpCreateRule? || op.OpDeleteRule? {
      RuleComesOrGoes(n, db, op, table, id);
    } else if RuleOp(op) {
      RuleChanges(n, db, op, table, id);
    } else if op.OpUpdateDiagnostic? || op.OpVerifyDiagnostic? {
      DiagnosticOpFollows(n, db, op, table, id);
    } else {
      PolicyOpFollows(n, db, op, table, id);
    }
  }

  lemma LoggedStep(before: Db, after: Db, a: Audit, table: Table, id: nat)
    requires LoggedRow(before, table, id) && RowFollows(before, after, a, table, id)
    requires after.audits == before.audits + [a]
    ensures LoggedRow(after, table, id)
  {
    assert after.audits[..|before.audits|] == before.audits;
    DeletedNext(before.audits, a, table, id);
  }

  lemma DeletedNext(audits: seq<Audit>, a: Audit, table: Table, id: nat)
    ensures SaysDeleted(audits + [a], table, id) <==> SaysDeleted(audits, table, id) || DeletesRow(a, table, id)
  {
    var all := audits + [a];
    if k :| 0 <= k < |audits| && DeletesRow(audits[k], table, id) {
      assert all[k] == audits[k];
    }
    if DeletesRow(a, table, id) {
      assert all[|audits|] == a;
    }
  }

  lemma {:induction false} CreateAllLogged(n: Names, db: Db, rows: seq<BatchRow>, table: Table, id: nat)
    requires Inv(n, db) && Counting(db) && LoggedRow(db, table, id) && CreateAll(n, db, rows).Committed?
    ensures LoggedRow(CreateAll(n, db, rows).db, table, id) && Counting(CreateAll(n, db, rows).db)
  {
    if rows != [] {
      var k := |rows| - 1;
      CreateAllLogged(n, db, rows[..k], table, id);
      CreateAllKeeps(n, db, rows[..k]);
      var mid, op := CreateAll(n, db, rows[..k]).db, OpCreateRoute(rows[k].input, rows[k].token);
      SingleFollows(n, mid, op, table, id);
      SingleAudits(n, mid, op);
      LoggedStep(mid, Perform(n, mid, op).db, RecordOf(mid, op), table, id);
    }
  }

  lemma StepLogged(n: Names, db: Db, call: Call, table: Table, id: nat)
    requires Inv(n, db) && Counting(db) && LoggedRow(db, table, id)
    ensures LoggedRow(Step(n, db, call), table, id) && Counting(Step(n, db, call))
  {
    if Answer(n, db, call).Committed? {
      if call.op.OpBatch? {
        CreateAllLogged(n, db, call.op.rows, table, id);
      } else {
        SingleFollows(n, db, call.op, table, id);
        SingleAudits(n, db, call.op);
        LoggedStep(db, Perform(n, db, call.op).db, RecordOf(db, call.op), table, id);
      }
    }
  }

  /** After any run from empty tables the trail accounts for every row of every table: the version
      of a live row is the number of records that say it was created, updated, enabled, disabled or
      verified, a row is gone exactly when a record says it was deleted, and an identity without
      records was never used. */
  lemma {:induction false} TrailAccountsForRows(n: Names, calls: seq<Call>, table: Table, id: nat)
    ensures LoggedRow(Run(n, EMPTY_DB, calls), table, id)
    ensures Inv(n, Run(n, EMPTY_DB, calls)) && Counting(Run(n, EMPTY_DB, calls))
  {
    if calls != [] {
      var k := |calls| - 1;
      TrailAccountsForRows(n, calls[..k], table, id);
      InvariantsOverRuns(n, EMPTY_DB, calls);
      StepLogged(n, Run(n, EMPTY_DB, calls[..k]), calls[k], table, id);
    }
  }

  // ----- credentials

  /** The record says that a credential was issued to the route. */
  predicate IssuesTo(a: Audit, routeId: nat) {
    (a.operation == CREATE_IDENTITY_ROUTE || a.operation == REGENERATE_USER_BOUND_CREDENTIAL) && a.recordId == routeId
  }

  function Issues(audits: seq<Audit>, routeId: nat): nat {
    if audits == [] then 0
    else
      var k := |audits| - 1;
      Issues(audits[..k], routeId) + if IssuesTo(audits[k], routeId) then 1 else 0
  }

  /** A live route has an active credential and as many credentials as were issued to it; to an
      identity that was never used none was issued. */
  ghost predicate LoggedCredentials(db: Db, routeId: nat) {
    && (routeId in db.routes ==>
          HasActive(db.credentials, routeId) && |CredentialsOf(db.credentials, routeId)| == Issues(db.audits, routeId))
    && (Unused(db, Routes, routeId) ==> Issues(db.audits, routeId) == 0)
  }

  /** What a single call does to the credentials of a route, in terms of its record. */
  ghost predicate CredentialsFollow(before: Db, after: Db, a: Audit, routeId: nat) {
    var old', new' := CredentialsOf(before.credentials, routeId), CredentialsOf(after.credentials, routeId);
    && (IssuesTo(a, routeId) ==> |new'| == |old'| + 1 && HasActive(after.credentials, routeId))
    && (!IssuesTo(a, routeId) && routeId in after.routes ==> new' == old' && routeId in before.routes)
    && (routeId in after.routes && routeId !in before.routes ==> old' == {} && Unused(before, Routes, routeId))
    && (Unused(after, Routes, routeId) ==> Unused(before, Routes, routeId) && !IssuesTo(a, routeId))
  }

  lemma InsertedCredential(db: Db, routeId: nat, token: string, r: nat)
    requires db.nextCredential !in db.credentials
    ensures var after := InsertCredential(db, routeId, token).credentials;
      && CredentialsOf(after, r) == CredentialsOf(db.credentials, r)
          + (if r == routeId then {db.nextCredential} else {})
      && ActiveFor(after, routeId, db.nextCredential)
  {
  }

  lemma RevokedKeepsOwner(db: Db, id: nat, r: nat)
    requires id in db.credentials
    ensures CredentialsOf(Revoke(db, id).credentials, r) == CredentialsOf(db.credentials, r)
  {
  }

  lemma CreateFollows(n: Names, db: Db, input: RouteInput, token: string, r: nat)
    requires Inv(n, db) && Counting(db) && CreateRoute(n, db, input, token).Committed?
    ensures CredentialsFollow(db, CreateRoute(n, db, input, token).db, Audit(CREATE_IDENTITY_ROUTE, db.nextRoute), r)
  {
    InsertedCredential(db, db.nextRoute, token, r);
    assert db.nextCredential !in CredentialsOf(db.credentials, r);
    assert CredentialsOf(db.credentials, db.nextRoute) == {};
  }

  /** Revoking changes neither who owns a credential nor what routes there are. */
  lemma RevokeCurrentKeepsOwners(db: Db, routeId: nat, request: RegenerateInput, r: nat)
    requires RevokeCurrent(db, routeId, request).Some?
    ensures var revoked := RevokeCurrent(db, routeId, request).value;
      && CredentialsOf(revoked.credentials, r) == CredentialsOf(db.credentials, r)
      && revoked.credentials.Keys == db.credentials.Keys && revoked.nextCredential == db.nextCredential
      && revoked.routes == db.routes && revoked.nextRoute == db.nextRoute
  {
    if ActiveIds(db.credentials, routeId) != {} {
      RevokedKeepsOwner(db, request.credentialId.value, r);
    }
  }

  lemma IssuedFollows(before: Db, revoked: Db, routeId: nat, token: string, r: nat)
    requires Keys(before) && routeId in before.routes
    requires CredentialsOf(revoked.credentials, r) == CredentialsOf(before.credentials, r)
    requires revoked.credentials.Keys == before.credentials.Keys && revoked.nextCredential == before.nextCredential
    requires revoked.routes == before.routes && revoked.nextRoute == before.nextRoute && 0 !in before.routes
    ensures CredentialsFollow(before, InsertCredential(revoked, routeId, token),
                              Audit(REGENERATE_USER_BOUND_CREDENTIAL, routeId), r)
  {
    assert revoked.nextCredential !in revoked.credentials.Keys;
    InsertedCredential(revoked, routeId, token, r);
    assert revoked.nextCredential !in CredentialsOf(revoked.credentials, r);
  }

  lemma IssueFollows(n: Names, db: Db, routeId: nat, request: RegenerateInput, token: string, r: nat)
    requires Inv(n, db) && Counting(db) && Regenerate(db, routeId, request, token).Committed?
    ensures CredentialsFollow(db, Regenerate(db, routeId, request, token).db,
                              Audit(REGENERATE_USER_BOUND_CREDENTIAL, routeId), r)
  {
    RevokeCurrentKeepsOwners(db, routeId, request, r);
    IssuedFollows(db, RevokeCurrent(db, routeId, request).value, routeId, token, r);
  }

  lemma DeleteFollows(n: Names, db: Db, id: nat, v: nat, r: nat)
    requires Inv(n, db) && Counting(db) && DeleteRoute(db, id, v).Committed?
    ensures CredentialsFollow(db, DeleteRoute(db, id, v).db, Audit(DELETE_IDENTITY_ROUTE, id), r)
  {
    if r != id {
      assert CredentialsOf(DeleteRoute(db, id, v).db.credentials, r) == CredentialsOf(db.credentials, r);
    }
  }

  lemma OtherFollows(n: Names, db: Db, op: Op, r: nat)
    requires Inv(n, db) && !TouchesCredentials(op) && Perform(n, db, op).Committed?
    ensures CredentialsFollow(db, Perform(n, db, op).db, RecordOf(db, op), r)
  {
    OtherKeepsOwners(n, db, op);
    assert !IssuesTo(RecordOf(db, op), r);
    SameOwnersFollow(db, Perform(n, db, op).db, RecordOf(db, op), r);
  }

  lemma SameOwnersFollow(before: Db, after: Db, a: Audit, r: nat)
    requires SameOwners(before, after) && !IssuesTo(a, r)
    ensures CredentialsFollow(before, after, a, r)
  {
    assert r in after.routes.Keys <==> r in before.routes.Keys;
  }

  lemma SingleCredentials(n: Names, db: Db, op: Op, r: nat)
    requires Inv(n, db) && Counting(db) && !op.OpBatch? && Perform(n, db, op).Committed?
    requires LoggedCredentials(db, r)
    ensures LoggedCredentials(Perform(n, db, op).db, r)
  {
    var after, a := Perform(n, db, op).db, RecordOf(db, op);
    assert CredentialsFollow(db, after, a, r) by {
      match op
      case OpCreateRoute(input, token) => CreateFollows(n, db, input, token, r);
      case OpRegenerate(routeId, request, token) => IssueFollows(n, db, routeId, request, token, r);
      case OpDeleteRoute(id, v) => DeleteFollows(n, db, id, v, r);
      case _ => OtherFollows(n, db, op, r);
    }
    SingleAudits(n, db, op);
    PerformCredentials(n, db, op);
    CredentialsLogged(db, after, a, r);
  }

  lemma CredentialsLogged(before: Db, after: Db, a: Audit, r: nat)
    requires LoggedCredentials(before, r) && CredentialsFollow(before, after, a, r) && CredentialsForward(before, after)
    requires after.audits == before.audits + [a]
    ensures LoggedCredentials(after, r)
  {
    assert after.audits[..|before.audits|] == before.audits;
  }

  lemma {:induction false} CreateAllCredentials(n: Names, db: Db, rows: seq<BatchRow>, r: nat)
    requires Inv(n, db) && Counting(db) && LoggedCredentials(db, r) && CreateAll(n, db, rows).Committed?
    ensures LoggedCredentials(CreateAll(n, db, rows).db, r) && Counting(CreateAll(n, db, rows).db)
  {
    if rows != [] {
      var k := |rows| - 1;
      CreateAllCredentials(n, db, rows[..k], r);
      CreateAllKeeps(n, db, rows[..k]);
      var mid, op := CreateAll(n, db, rows[..k]).db, OpCreateRoute(rows[k].input, rows[k].token);
      SingleCredentials(n, mid, op, r);
      SingleFollows(n, mid, op, Routes, r);
    }
  }

  lemma StepCredentials(n: Names, db: Db, call: Call, r: nat)
    requires Inv(n, db) && Counting(db) && LoggedCredentials(db, r)
    ensures LoggedCredentials(Step(n, db, call), r)
  {
    if Answer(n, db, call).Committed? {
      if call.op.OpBatch? {
        CreateAllCredentials(n, db, call.op.rows, r);
      } else {
        SingleCredentials(n, db, call.op, r);
      }
    }
  }

  lemma {:induction false} CredentialsOverRuns(n: Names, calls: seq<Call>, r: nat)
    ensures LoggedCredentials(Run(n, EMPTY_DB, calls), r)
  {
    if calls != [] {
      var k := |calls| - 1;
      CredentialsOverRuns(n, calls[..k], r);
      TrailAccountsForRows(n, calls[..k], Routes, r);
      StepCredentials(n, Run(n, EMPTY_DB, calls[..k]), calls[k], r);
    }
  }

  /** After any run from empty tables a live route has exactly one active credential, and as many
      credentials in all as the trail has records of its creation and of regenerations for it. */
  lemma TrailAccountsForCredentials(n: Names, calls: seq<Call>, routeId: nat)
    requires routeId in Run(n, EMPTY_DB, calls).routes
    ensures var db := Run(n, EMPTY_DB, calls);
      && |ActiveIds(db.credentials, routeId)| == 1
      && |CredentialsOf(db.credentials, routeId)| == Issues(db.audits, routeId)
  {
    var db := Run(n, EMPTY_DB, calls);
    CredentialsOverRuns(n, calls, routeId);
    TrailAccountsForRows(n, calls, Routes, routeId);
    var c :| c in db.credentials && ActiveFor(db.credentials, routeId, c);
    assert ActiveIds(db.credentials, routeId) == {c} by {
      forall d | d in ActiveIds(db.credentials, routeId) ensures d == c {
        assert Rivals(db.credentials[c], db.credentials[d]);
      }
    }
  }
}

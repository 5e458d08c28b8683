/** Whole runs of the administration service: updates are never lost, a regenerate request
    never succeeds twice, and a batch equals its rows one by one. */
module AdminRuns {
  import opened Wrappers
  import opened AdminModel
  import opened AdminInvariants

  // ----- row versions

  datatype Table = Routes | Policies | Rules | DiagnosticConfig

  /** The row that a version-checked operation writes and the version it was given. */
  datatype Key = Key(table: Table, id: nat, rowVersion: nat)

  function Checked(op: Op): Option<Key> {
    match op
    case OpUpdateRoute(id, _, v) => Some(Key(Routes, id, v))
    case OpDisableRoute(id, v) => Some(Key(Routes, id, v))
    case OpDeleteRoute(id, v) => Some(Key(Routes, id, v))
    case OpUpdatePolicy(id, _, v) => Some(Key(Policies, id, v))
    case OpDisablePolicy(id, v) => Some(Key(Policies, id, v))
    case OpUpdateRule(_, id, _, v) => Some(Key(Rules, id, v))
    case OpDisableRule(_, id, v) => Some(Key(Rules, id, v))
    case OpDeleteRule(_, id, v) => Some(Key(Rules, id, v))
    case OpUpdateDiagnostic(_, v) => if v.Some? then Some(Key(DiagnosticConfig, DIAGNOSTIC_ID, v.value)) else None
    case OpVerifyDiagnostic(v, _) => Some(Key(DiagnosticConfig, DIAGNOSTIC_ID, v))
    case _ => None
  }

  function RouteVersion(db: Db, id: nat): Option<nat> {
    if id in db.routes then Some(db.routes[id].rowVersion) else None
  }

  function PolicyVersion(db: Db, id: nat): Option<nat> {
    if id in db.policies then Some(db.policies[id].rowVersion) else None
  }

  function RuleVersion(db: Db, id: nat): Option<nat> {
    if id in db.rules then Some(db.rules[id].rowVersion) else None
  }

  function DiagnosticVersion(db: Db): Option<nat> {
    if db.diagnostic.Some? then Some(db.diagnostic.value.rowVersion) else None
  }

  /** The version can never be current again: the row has moved past it, or is gone for good. */
  predicate Past(version: Option<nat>, v: nat) {
    version.Some? ==> version.value > v
  }

  predicate Stale(db: Db, k: Key) {
    match k.table
    case Routes => k.id < db.nextRoute && Past(RouteVersion(db, k.id), k.rowVersion)
    case Policies => k.id < db.nextPolicy && Past(PolicyVersion(db, k.id), k.rowVersion)
    case Rules => k.id < db.nextRule && Past(RuleVersion(db, k.id), k.rowVersion)
    case DiagnosticConfig => db.diagnostic.Some? && Past(DiagnosticVersion(db), k.rowVersion)
  }

  /** `after` keeps every row of `before` or a later version of it, and reuses no identity. */
  predicate Forward(before: Db, after: Db) {
    && before.nextRoute <= after.nextRoute && before.nextPolicy <= after.nextPolicy && before.nextRule <= after.nextRule
    && before.nextCredential <= after.nextCredential
    && (forall id :: id in after.routes ==>
          id >= before.nextRoute || (id in before.routes
              && before.routes[id].rowVersion <= after.routes[id].rowVersion))
    && (forall id :: id in after.policies ==>
          id >= before.nextPolicy || (id in before.policies
              && before.policies[id].rowVersion <= after.policies[id].rowVersion))
    && (forall id :: id in after.rules ==>
          id >= before.nextRule || (id in before.rules && before.rules[id].rowVersion <= after.rules[id].rowVersion))
    && (before.diagnostic.Some? ==>
          after.diagnostic.Some? && before.diagnostic.value.rowVersion <= after.diagnostic.value.rowVersion)
  }

  lemma {:induction false} CreateAllForward(n: Names, db: Db, rows: seq<BatchRow>)
    requires Inv(n, db)
    ensures var r := CreateAll(n, db, rows); r.Committed? ==> Forward(db, r.db)
  {
    if rows != [] {
      var k := |rows| - 1;
      CreateAllForward(n, db, rows[..k]);
      CreateAllKeeps(n, db, rows[..k]);
    }
  }

  lemma RegenerateForward(n: Names, db: Db, routeId: nat, input: RegenerateInput, token: string)
    requires Inv(n, db)
    ensures var r := Regenerate(db, routeId, input, token); r.Committed? ==> Forward(db, r.db)
  {
  }

  predicate RouteOp(op: Op) {
    op.OpCreateRoute? || op.OpBatch? || op.OpUpdateRoute? || op.OpDisableRoute? || op.OpRegenerate? || op.OpDeleteRoute?
  }

  lemma RouteOpForward(n: Names, db: Db, op: Op)
    requires Inv(n, db) && RouteOp(op)
    ensures var r := Perform(n, db, op); r.Committed? ==> Forward(db, r.db)
  {
    match op
    case OpBatch(rows) => CreateAllForward(n, db, rows);
    case OpRegenerate(routeId, request, token) => RegenerateForward(n, db, routeId, request, token);
    case _ =>
  }

  predicate RuleOp(op: Op) {
    op.OpCreateRule? || op.OpUpdateRule? || op.OpDisableRule? || op.OpDeleteRule?
  }

  lemma CreateRuleForward(n: Names, db: Db, policyId: nat, input: RuleInput)
    requires Inv(n, db)
    ensures var r := CreateRule(n, db, policyId, input); r.Committed? ==> Forward(db, r.db)
  {
  }

  lemma UpdateRuleForward(n: Names, db: Db, policyId: nat, id: nat, input: RuleInput, v: nat)
    requires Inv(n, db)
    ensures var r := UpdateRule(n, db, policyId, id, input, v); r.Committed? ==> Forward(db, r.db)
  {
  }

  lemma DisableRuleForward(n: Names, db: Db, policyId: nat, id: nat, v: nat)
    requires Inv(n, db)
    ensures var r := DisableRule(db, policyId, id, v); r.Committed? ==> Forward(db, r.db)
  {
  }

  lemma DeleteRuleForward(n: Names, db: Db, policyId: nat, id: nat, v: nat)
    requires Inv(n, db)
    ensures var r := DeleteRule(db, policyId, id, v); r.Committed? ==> Forward(db, r.db)
  {
  }

  lemma RuleOpForward(n: Names, db: Db, op: Op)
    requires Inv(n, db) && RuleOp(op)
    ensures var r := Perform(n, db, op); r.Committed? ==> Forward(db, r.db)
  {
    match op
    case OpCreateRule(policyId, input) => CreateRuleForward(n, db, policyId, input);
    case OpUpdateRule(policyId, id, input, v) => UpdateRuleForward(n, db, policyId, id, input, v);
    case OpDisableRule(policyId, id, v) => DisableRuleForward(n, db, policyId, id, v);
    case OpDeleteRule(policyId, id, v) => DeleteRuleForward(n, db, policyId, id, v);
  }

  lemma OtherOpForward(n: Names, db: Db, op: Op)
    requires Inv(n, db) && !RouteOp(op) && !RuleOp(op)
    ensures var r := Perform(n, db, op); r.Committed? ==> Forward(db, r.db)
  {
  }

  lemma PerformForward(n: Names, db: Db, op: Op)
    requires Inv(n, db)
    ensures var r := Perform(n, db, op); r.Committed? ==> Forward(db, r.db)
  {
    if RouteOp(op) {
      RouteOpForward(n, db, op);
    } else if RuleOp(op) {
      RuleOpForward(n, db, op);
    } else {
      OtherOpForward(n, db, op);
    }
  }

  lemma ForwardTransitive(a: Db, b: Db, c: Db)
    requires Forward(a, b) && Forward(b, c)
    ensures Forward(a, c)
  {
  }

  lemma {:induction false} RunForward(n: Names, db: Db, calls: seq<Call>)
    requires Inv(n, db)
    ensures Forward(db, Run(n, db, calls))
  {
    if calls != [] {
      var k := |calls| - 1;
      RunForward(n, db, calls[..k]);
      InvariantsOverRuns(n, db, calls[..k]);
      PerformForward(n, Run(n, db, calls[..k]), calls[k].op);
      if Answer(n, Run(n, db, calls[..k]), calls[k]).Committed? {
        ForwardTransitive(db, Run(n, db, calls[..k]), Run(n, db, calls));
      }
    }
  }

  lemma StaleStays(before: Db, after: Db, k: Key)
    requires Forward(before, after) && Stale(before, k)
    ensures Stale(after, k)
  {
  }

  /** The first write of the Diagnostic configuration inserts its row at version 1 and ignores
      the version it was given. */
  predicate InsertsDiagnostic(db: Db, op: Op) {
    op.OpUpdateDiagnostic? && db.diagnostic.None? && op.version.Some? && op.version.value >= 1
  }

  lemma SuccessMakesStale(n: Names, db: Db, op: Op)
    requires Inv(n, db) && Checked(op).Some? && Perform(n, db, op).Committed?
    requires !InsertsDiagnostic(db, op)
    ensures Stale(Perform(n, db, op).db, Checked(op).value)
  {
  }

  lemma StaleIsRefused(n: Names, db: Db, op: Op)
    requires Checked(op).Some? && Stale(db, Checked(op).value)
    ensures !Perform(n, db, op).Committed?
  {
  }

  /** No lost update: after a row update that started from some version of a row has
      succeeded, no later operation of any kind that starts from the same version of the
      same row succeeds, whatever was called in between. */
  lemma NoLostUpdate(n: Names, db: Db, first: Call, between: seq<Call>, second: Call)
    requires Inv(n, db) && Answer(n, db, first).Committed?
    requires Checked(first.op).Some? && Checked(second.op) == Checked(first.op)
    requires !InsertsDiagnostic(db, first.op)
    ensures !Answer(n, Run(n, Step(n, db, first), between), second).Committed?
  {
    var db1 := Step(n, db, first);
    PerformKeeps(n, db, first.op);
    SuccessMakesStale(n, db, first.op);
    RunForward(n, db1, between);
    StaleStays(db1, Run(n, db1, between), Checked(first.op).value);
    StaleIsRefused(n, Run(n, db1, between), second.op);
  }

  /** `hi - lo` updates of the Diagnostic configuration, each from the version before. */
  function Bumps(input: DiagnosticInput, lo: nat, hi: nat): seq<Call>
    decreases hi
  {
    if lo >= hi then [] else Bumps(input, lo, hi - 1) + [Call(OpUpdateDiagnostic(input, Some(hi - 1)), true)]
  }

  lemma OneBump(n: Names, db: Db, input: DiagnosticInput, v: nat)
    requires DiagnosticVersion(db) == Some(v)
    requires !input.enabled && input.metadataType.None? && input.metadataName.None?
    ensures DiagnosticVersion(Step(n, db, Call(OpUpdateDiagnostic(input, Some(v)), true))) == Some(v + 1)
  {
  }

  lemma {:induction false} BumpsReach(n: Names, db: Db, input: DiagnosticInput, lo: nat, hi: nat)
    requires DiagnosticVersion(db) == Some(lo) && lo <= hi && !input.enabled && input.metadataType.None?
        && input.metadataName.None?
    ensures DiagnosticVersion(Run(n, db, Bumps(input, lo, hi))) == Some(hi)
    decreases hi
  {
    if lo < hi {
      BumpsReach(n, db, input, lo, hi - 1);
      var calls := Bumps(input, lo, hi);
      assert calls[..|calls| - 1] == Bumps(input, lo, hi - 1);
      OneBump(n, Run(n, db, Bumps(input, lo, hi - 1)), input, hi - 1);
    }
  }

  /** A later call that starts from the same version as `first` and succeeds. */
  ghost predicate Repeated(n: Names, db: Db, first: Call, between: seq<Call>, second: Call) {
    Checked(second.op) == Checked(first.op) && Answer(n, Run(n, Step(n, db, first), between), second).Committed?
  }

  lemma InsertCanBeRepeated(n: Names, db: Db, first: Call)
    requires Answer(n, db, first).Committed? && InsertsDiagnostic(db, first.op)
    ensures exists between, second :: Repeated(n, db, first, between, second)
  {
    var v := first.op.version.value;
    var input := DiagnosticInput(first.op.diagnosticInput.salesforceUsername, false, None, None);
    var between, second := Bumps(input, 1, v), Call(OpUpdateDiagnostic(input, Some(v)), true);
    BumpsReach(n, Step(n, db, first), input, 1, v);
    assert Repeated(n, db, first, between, second);
  }

  /** At most one success starts from a given version exactly when the first one updated a row:
      only the insert of the Diagnostic configuration, which checks no version, can be followed
      by another success from the version it was given. */
  lemma NoLostUpdateExactly(n: Names, db: Db, first: Call)
    requires Inv(n, db) && Answer(n, db, first).Committed? && Checked(first.op).Some?
    ensures (forall between, second :: !Repeated(n, db, first, between, second)) <==> !InsertsDiagnostic(db, first.op)
  {
    if InsertsDiagnostic(db, first.op) {
      InsertCanBeRepeated(n, db, first);
    } else {
      forall between, second ensures !Repeated(n, db, first, between, second) {
        if Checked(second.op) == Checked(first.op) {
          NoLostUpdate(n, db, first, between, second);
        }
      }
    }
  }

  // ----- regeneration

  /** This regenerate request can never succeed (again). */
  predicate Spent(db: Db, routeId: nat, request: RegenerateInput) {
    && routeId < db.nextRoute
    && (routeId in db.routes ==>
          match request.credentialId
          case None => ActiveIds(db.credentials, routeId) != {}
          case Some(c) => c < db.nextCredential && !ActiveFor(db.credentials, routeId, c))
  }

  lemma SpentIsRefused(db: Db, routeId: nat, request: RegenerateInput, token: string)
    requires Spent(db, routeId, request)
    ensures !Regenerate(db, routeId, request, token).Committed?
  {
  }

  lemma SuccessSpends(n: Names, db: Db, routeId: nat, request: RegenerateInput, token: string)
    requires Inv(n, db) && Regenerate(db, routeId, request, token).Committed?
    ensures Spent(Regenerate(db, routeId, request, token).db, routeId, request)
  {
    var db2 := Regenerate(db, routeId, request, token).db;
    assert ActiveFor(db2.credentials, routeId, db.nextCredential);
    assert db.nextCredential in ActiveIds(db2.credentials, routeId);
    RevokeCurrentKeeps(n, db, routeId, request);
  }

  ghost predicate HasActive(credentials: map<nat, Credential>, routeId: nat) {
    exists c :: c in credentials && ActiveFor(credentials, routeId, c)
  }

  /** No old credential becomes active, and a route that has an active one keeps having one. */
  ghost predicate CredentialsForward(before: Db, after: Db) {
    && before.nextCredential <= after.nextCredential && before.nextRoute <= after.nextRoute
    && (forall r :: r in after.routes ==> r >= before.nextRoute || r in before.routes)
    && (forall c: nat, r :: c < before.nextCredential && ActiveFor(after.credentials, r, c) ==>
        ActiveFor(before.credentials, r, c))
    && (forall r :: r in after.routes && HasActive(before.credentials, r) ==> HasActive(after.credentials, r))
  }

  lemma SpentStays(before: Db, after: Db, routeId: nat, request: RegenerateInput)
    requires CredentialsForward(before, after) && Spent(before, routeId, request)
    ensures Spent(after, routeId, request)
  {
    ActiveAreListed(before.credentials, routeId);
    ActiveAreListed(after.credentials, routeId);
    if routeId in after.routes && request.credentialId.None? {
      var c :| c in ActiveIds(before.credentials, routeId);
      assert HasActive(before.credentials, routeId) && HasActive(after.credentials, routeId);
    }
  }

  lemma KeptActive(before: map<nat, Credential>, after: map<nat, Credential>)
    requires forall c, r :: ActiveFor(before, r, c) ==> ActiveFor(after, r, c)
    ensures forall r :: HasActive(before, r) ==> HasActive(after, r)
  {
    forall r | HasActive(before, r) ensures HasActive(after, r) {
      var c :| c in before && ActiveFor(before, r, c);
      assert ActiveFor(after, r, c);
    }
  }

  lemma CreateRouteCredentials(n: Names, db: Db, input: RouteInput, token: string)
    requires Inv(n, db)
    ensures var r := CreateRoute(n, db, input, token); r.Committed? ==> CredentialsForward(db, r.db)
  {
    var r := CreateRoute(n, db, input, token);
    if r.Committed? {
      assert db.nextCredential !in db.credentials;
      KeptActive(db.credentials, r.db.credentials);
    }
  }

  lemma RegenerateKeepsActive(n: Names, db: Db, routeId: nat, request: RegenerateInput, token: string)
    requires Inv(n, db) && Regenerate(db, routeId, request, token).Committed?
    ensures forall r :: HasActive(db.credentials, r) ==>
        HasActive(Regenerate(db, routeId, request, token).db.credentials, r)
  {
    var after := Regenerate(db, routeId, request, token).db.credentials;
    assert db.nextCredential !in db.credentials;
    assert ActiveFor(after, routeId, db.nextCredential);
    forall r | HasActive(db.credentials, r) ensures HasActive(after, r) {
      var c :| c in db.credentials && ActiveFor(db.credentials, r, c);
      if r != routeId {
        assert ActiveFor(after, r, c);
      }
    }
  }

  lemma RegenerateCredentials(n: Names, db: Db, routeId: nat, request: RegenerateInput, token: string)
    requires Inv(n, db)
    ensures var r := Regenerate(db, routeId, request, token); r.Committed? ==> CredentialsForward(db, r.db)
  {
    if Regenerate(db, routeId, request, token).Committed? {
      RegenerateKeepsActive(n, db, routeId, request, token);
    }
  }

  lemma DeleteRouteCredentials(n: Names, db: Db, id: nat, v: nat)
    requires Inv(n, db)
    ensures var r := DeleteRoute(db, id, v); r.Committed? ==> CredentialsForward(db, r.db)
  {
    var out := DeleteRoute(db, id, v);
    if out.Committed? {
      forall r | r != id && HasActive(db.credentials, r) ensures HasActive(out.db.credentials, r) {
        var c :| c in db.credentials && ActiveFor(db.credentials, r, c);
        assert ActiveFor(out.db.credentials, r, c);
      }
    }
  }

  predicate TouchesCredentials(op: Op) {
    op.OpCreateRoute? || op.OpBatch? || op.OpRegenerate? || op.OpDeleteRoute?
  }

  /** The tables agree on which credentials and which routes there are. */
  predicate SameOwners(before: Db, after: Db) {
    && after.credentials == before.credentials && after.nextCredential == before.nextCredential
    && after.routes.Keys == before.routes.Keys && after.nextRoute == before.nextRoute
  }

  lemma OtherKeepsOwners(n: Names, db: Db, op: Op)
    requires !TouchesCredentials(op) && Perform(n, db, op).Committed?
    ensures SameOwners(db, Perform(n, db, op).db)
  {
  }

  lemma SameOwnersForward(before: Db, after: Db)
    requires SameOwners(before, after)
    ensures CredentialsForward(before, after)
  {
  }

  lemma OtherCredentials(n: Names, db: Db, op: Op)
    requires !TouchesCredentials(op)
    ensures var r := Perform(n, db, op); r.Committed? ==> CredentialsForward(db, r.db)
  {
    if Perform(n, db, op).Committed? {
      OtherKeepsOwners(n, db, op);
      SameOwnersForward(db, Perform(n, db, op).db);
    }
  }

  lemma {:induction false} CreateAllSpent(n: Names, db: Db, rows: seq<BatchRow>, routeId: nat, request: RegenerateInput)
    requires Inv(n, db) && Spent(db, routeId, request)
    ensures var r := CreateAll(n, db, rows); r.Committed? ==> Spent(r.db, routeId, request)
  {
    if rows != [] {
      var k := |rows| - 1;
      var r := CreateAll(n, db, rows[..k]);
      CreateAllSpent(n, db, rows[..k], routeId, request);
      CreateAllKeeps(n, db, rows[..k]);
      if CreateAll(n, db, rows).Committed? {
        CreateRouteCredentials(n, r.db, rows[k].input, rows[k].token);
        SpentStays(r.db, CreateAll(n, db, rows).db, routeId, request);
      }
    }
  }

  lemma PerformSpent(n: Names, db: Db, op: Op, routeId: nat, request: RegenerateInput)
    requires Inv(n, db) && Spent(db, routeId, request)
    ensures var r := Perform(n, db, op); r.Committed? ==> Spent(r.db, routeId, request)
  {
    var r := Perform(n, db, op);
    if r.Committed? {
      if op.OpBatch? {
        CreateAllSpent(n, db, op.rows, routeId, request);
      } else {
        PerformCredentials(n, db, op);
        SpentStays(db, r.db, routeId, request);
      }
    }
  }

  lemma PerformCredentials(n: Names, db: Db, op: Op)
    requires Inv(n, db) && !op.OpBatch? && Perform(n, db, op).Committed?
    ensures CredentialsForward(db, Perform(n, db, op).db)
  {
    match op
    case OpCreateRoute(input, token) => CreateRouteCredentials(n, db, input, token);
    case OpRegenerate(id, input, token) => RegenerateCredentials(n, db, id, input, token);
    case OpDeleteRoute(id, v) => DeleteRouteCredentials(n, db, id, v);
    case _ => OtherCredentials(n, db, op);
  }

  lemma {:induction false} RunSpent(n: Names, db: Db, calls: seq<Call>, routeId: nat, request: RegenerateInput)
    requires Inv(n, db) && Spent(db, routeId, request)
    ensures Spent(Run(n, db, calls), routeId, request)
  {
    if calls != [] {
      var k := |calls| - 1;
      RunSpent(n, db, calls[..k], routeId, request);
      InvariantsOverRuns(n, db, calls[..k]);
      PerformSpent(n, Run(n, db, calls[..k]), calls[k].op, routeId, request);
    }
  }

  /** Of the regenerate requests for a route that name the same credential, or that all name
      none, at most one succeeds in any run, whatever versions they carry and tokens they bring. */
  lemma RegenerateAtMostOnce(n: Names, db: Db, first: Call, between: seq<Call>, second: Call)
    requires Inv(n, db) && first.op.OpRegenerate? && second.op.OpRegenerate?
    requires second.op.routeId == first.op.routeId
    requires second.op.request.credentialId == first.op.request.credentialId
    requires Answer(n, db, first).Committed?
    ensures !Answer(n, Run(n, Step(n, db, first), between), second).Committed?
  {
    var routeId, request := first.op.routeId, first.op.request;
    PerformKeeps(n, db, first.op);
    SuccessSpends(n, db, routeId, request, first.op.token);
    RunSpent(n, Step(n, db, first), between, routeId, request);
    SpentIsRefused(Run(n, Step(n, db, first), between), routeId, second.op.request, second.op.token);
  }

  // ----- the batch

  /** Creating routes only adds rows and leaves the Diagnostic configuration alone. */
  lemma {:induction false} CreateAllGrows(n: Names, db: Db, rows: seq<BatchRow>)
    requires Inv(n, db) && CreateAll(n, db, rows).Committed?
    ensures var db1 := CreateAll(n, db, rows).db;
      && db1.diagnostic == db.diagnostic
      && (forall p :: PlatformUserTaken(db.routes, p) ==> PlatformUserTaken(db1.routes, p))
      && (forall i :: 0 <= i < |rows| ==> PlatformUserTaken(db1.routes, rows[i].input.platformUserId))
  {
    if rows != [] {
      var k := |rows| - 1;
      CreateAllGrows(n, db, rows[..k]);
      CreateAllKeeps(n, db, rows[..k]);
      CreateRouteGrows(n, CreateAll(n, db, rows[..k]).db, rows[k].input, rows[k].token);
    }
  }

  lemma CreateRouteGrows(n: Names, db: Db, input: RouteInput, token: string)
    requires Inv(n, db) && CreateRoute(n, db, input, token).Committed?
    ensures var db1 := CreateRoute(n, db, input, token).db;
      && db1.diagnostic == db.diagnostic
      && (forall p :: PlatformUserTaken(db.routes, p) ==> PlatformUserTaken(db1.routes, p))
      && PlatformUserTaken(db1.routes, input.platformUserId)
  {
    var db1 := CreateRoute(n, db, input, token).db;
    assert db.nextRoute !in db.routes;
    assert db1.routes[db.nextRoute].platformUserId == input.platformUserId;
    forall p | PlatformUserTaken(db.routes, p) ensures PlatformUserTaken(db1.routes, p) {
      var id :| id in db.routes && db.routes[id].platformUserId == p;
      assert db1.routes[id].platformUserId == p;
    }
  }

  lemma PrefixConflicts(n: Names, db: Db, rows: seq<BatchRow>, k: nat, i: nat)
    requires i < k <= |rows| && RowConflicts(n, db, rows, i)
    ensures RowConflicts(n, db, rows[..k], i)
  {
    assert rows[..k][i] == rows[i];
    if DuplicateInBatch(rows, i) {
      var j :| 0 <= j < i && rows[j].input.platformUserId == rows[i].input.platformUserId;
      assert rows[..k][j] == rows[j];
    }
  }

  /** The row in conflict cannot be created after the rows before it. */
  lemma {:induction false} LastConflictFails(n: Names, db: Db, rows: seq<BatchRow>)
    requires Inv(n, db) && rows != [] && RowConflicts(n, db, rows, |rows| - 1)
    requires CreateAll(n, db, rows[..|rows| - 1]).Committed?
    ensures !CreateAll(n, db, rows).Committed?
  {
    var k := |rows| - 1;
    CreateAllGrows(n, db, rows[..k]);
    if DuplicateInBatch(rows, k) {
      var j :| 0 <= j < k && rows[j].input.platformUserId == rows[k].input.platformUserId;
      assert rows[..k][j] == rows[j];
    }
  }

  /** A conflict that the preflight reports is one that creating the rows would run into. */
  lemma {:induction false} ConflictsFail(n: Names, db: Db, rows: seq<BatchRow>, i: nat)
    requires Inv(n, db) && i < |rows| && RowConflicts(n, db, rows, i)
    ensures !CreateAll(n, db, rows).Committed?
  {
    var k := |rows| - 1;
    if i < k {
      PrefixConflicts(n, db, rows, k, i);
      ConflictsFail(n, db, rows[..k], i);
    } else if CreateAll(n, db, rows[..k]).Committed? {
      LastConflictFails(n, db, rows);
    }
  }

  /** A non-empty batch commits exactly when creating its rows one by one would, with the
      same tables; otherwise it writes nothing. */
  lemma BatchIsSequence(n: Names, db: Db, rows: seq<BatchRow>)
    requires Inv(n, db) && rows != []
    ensures BatchCreate(n, db, rows).Committed? <==> CreateAll(n, db, rows).Committed?
    ensures BatchCreate(n, db, rows).Committed? ==> BatchCreate(n, db, rows) == CreateAll(n, db, rows)
    ensures BatchCreate(n, db, rows).Committed? <==> Singles(n, db, rows).Some?
    ensures BatchCreate(n, db, rows).Committed? ==> Some(BatchCreate(n, db, rows).db) == Singles(n, db, rows)
  {
    if SomeRowConflicts(n, db, rows) {
      var i :| 0 <= i < |rows| && RowConflicts(n, db, rows, i);
      ConflictsFail(n, db, rows, i);
    }
    SinglesAreCreateAll(n, db, rows);
  }

  /** The single-route operation called once per row, if every call succeeds. */
  function Singles(n: Names, db: Db, rows: seq<BatchRow>): Option<Db> {
    if rows == [] then Some(db)
    else
      var k := |rows| - 1;
      var before := Singles(n, db, rows[..k]);
      if before.None? then None
      else
        var r := Answer(n, before.value, Call(OpCreateRoute(rows[k].input, rows[k].token), true));
        if r.Committed? then Some(r.db) else None
  }

  lemma {:induction false} SinglesAreCreateAll(n: Names, db: Db, rows: seq<BatchRow>)
    ensures Singles(n, db, rows) == match CreateAll(n, db, rows) { case Committed(db1) => Some(db1) case _ => None }
  {
    if rows != [] {
      SinglesAreCreateAll(n, db, rows[..|rows| - 1]);
    }
  }
}

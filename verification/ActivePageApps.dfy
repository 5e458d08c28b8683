/** What page a user gets over all of the user's apps: when the request can be placed at all,
    and how the answers of the apps are put together. */
module ActivePageApps {
  import opened Wrappers
  import opened ActivePage
  import opened ActivePageMeaning

  // ----- the user, the record type and the app

  /** The two identifiers share their first fifteen characters. */
  ghost predicate SameRecord(a: string, b: string) {
    exists prefix: string, x, y :: |prefix| == 15 && a == prefix + x && b == prefix + y
  }

  lemma SameRecordMeaning(a: string, b: string)
    ensures SameSalesforceId(a, b) <==> SameRecord(a, b)
  {
    if SameSalesforceId(a, b) {
      assert a == a[..15] + a[15..] && b == a[..15] + b[15..];
    }
    if prefix: string, x, y :| |prefix| == 15 && a == prefix + x && b == prefix + y {
      assert a[..15] == prefix && b[..15] == prefix;
    }
  }

  ghost predicate MasterRecordType(id: string) {
    exists rest :: id == "012000000000000" + rest
  }

  lemma MasterMeaning(id: string)
    ensures IsMaster(id) <==> MasterRecordType(id)
  {
    if IsMaster(id) {
      if |id| > 15 {
        assert id == id[..15] + id[15..];
      } else {
        assert id == id + "";
      }
    }
    if rest :| id == "012000000000000" + rest {
      assert |MASTER_PREFIX| == 15 && (if |id| <= 15 then id else id[..15]) == MASTER_PREFIX;
    }
  }

  /** `i` is the only one of the named things with this identifier. */
  ghost predicate OnlyNamed(xs: seq<Named>, id: string, i: int) {
    0 <= i < |xs| && SameRecord(xs[i].id, id) && forall j :: 0 <= j < |xs| && SameRecord(xs[j].id, id) ==> j == i
  }

  ghost predicate Repeated(xs: seq<Named>, id: string) {
    exists i, j :: 0 <= i < j < |xs| && SameRecord(xs[i].id, id) && SameRecord(xs[j].id, id)
  }

  /** The snapshot knows the user's profile once and under this name. */
  ghost predicate ProfileIs(s: Snapshot, facts: Facts, profile: string) {
    exists i :: OnlyNamed(s.profiles, facts.profileId, i) && s.profiles[i].fullName == profile
  }

  /** The record type goes by this name: the object's master, or its one entry. */
  ghost predicate RecordTypeIs(s: Snapshot, facts: Facts, recordType: string) {
    if MasterRecordType(facts.recordTypeId) then
      !Repeated(s.recordTypes, facts.recordTypeId) && recordType == s.objectApiName + ".Master"
    else
      exists i :: OnlyNamed(s.recordTypes, facts.recordTypeId, i) && recordType != ""
                  && s.recordTypes[i].fullName == recordType
  }

  lemma NamedOf(xs: seq<Named>, id: string)
    ensures var found := Filter((x: Named) => SameSalesforceId(x.id, id), xs);
      && (|found| == 1 <==> exists i :: OnlyNamed(xs, id, i))
      && (forall i :: OnlyNamed(xs, id, i) ==> found == [xs[i]])
      && (|found| > 1 <==> Repeated(xs, id))
  {
    var same := (x: Named) => SameSalesforceId(x.id, id);
    forall x: Named ensures same(x) <==> SameRecord(x.id, id) {
      SameRecordMeaning(x.id, id);
    }
    FilterSize(same, xs);
    forall i ensures Only(same, xs, i) <==> OnlyNamed(xs, id, i) {}
    forall i | Only(same, xs, i) ensures Filter(same, xs) == [xs[i]] {
      FilterOne(same, xs, i);
    }
  }

  /** The request is placed exactly on a large form factor, for a profile and a record type that
      the snapshot knows once. */
  lemma ReadyExactly(s: Snapshot, facts: Facts, profile: string, recordType: string)
    ensures ContextOf(s, facts) == Ready(profile, recordType) <==>
      facts.formFactor == "Large" && ProfileIs(s, facts, profile) && RecordTypeIs(s, facts, recordType)
  {
    NamedOf(s.profiles, facts.profileId);
    NamedOf(s.recordTypes, facts.recordTypeId);
    MasterMeaning(facts.recordTypeId);
  }

  /** What is wrong with a request that cannot be placed, in the order in which it is looked at. */
  lemma NotPlaced(s: Snapshot, facts: Facts)
    ensures facts.formFactor != "Large" ==> Resolve(s, facts) == Unresolved(facts, "UNSUPPORTED_FORM_FACTOR")
    ensures facts.formFactor == "Large" && (forall p :: !ProfileIs(s, facts, p)) ==>
              Resolve(s, facts) == Unresolved(facts, "USER_CONTEXT_ERROR")
    ensures (facts.formFactor == "Large" && (exists p :: ProfileIs(s, facts, p)) &&
             (forall t :: !RecordTypeIs(s, facts, t))) ==>
              Resolve(s, facts) == Unresolved(facts, "RECORD_TYPE_CONTEXT_ERROR")
  {
    NamedOf(s.profiles, facts.profileId);
    NamedOf(s.recordTypes, facts.recordTypeId);
    MasterMeaning(facts.recordTypeId);
    var c := ContextOf(s, facts);
    if c.Ready? {
      ReadyExactly(s, facts, c.profile, c.recordType);
    }
    if i :| OnlyNamed(s.profiles, facts.profileId, i) {
      assert ProfileIs(s, facts, s.profiles[i].fullName);
    }
  }

  // ----- the user's apps

  /** `k` is the only snapshot entry of the app. */
  ghost predicate OnlyApp(s: Snapshot, ref: AppRef, k: int) {
    0 <= k < |s.apps| && IsOf(s.apps[k], ref) && forall l :: 0 <= l < |s.apps| && IsOf(s.apps[l], ref) ==> l == k
  }

  predicate IsOf(app: App, ref: AppRef) {
    app.appId == ref.appId && app.developerName == ref.developerName
  }

  /** The request names the app, by either of its names. */
  predicate IsAskedFor(s: Snapshot, facts: Facts, r: int) {
    0 <= r < |facts.apps|
    && exists app :: app in s.apps && IsOf(app, facts.apps[r])
                     && (app.developerName == facts.appName || app.fullName == facts.appName)
  }

  lemma EntriesOf(s: Snapshot, ref: AppRef)
    ensures |Entries(s, ref)| == 1 <==> exists k :: OnlyApp(s, ref, k)
    ensures forall k :: OnlyApp(s, ref, k) ==> Entries(s, ref) == [s.apps[k]]
  {
    var isOf := (app: App) => app.appId == ref.appId && app.developerName == ref.developerName;
    FilterSize(isOf, s.apps);
    forall k ensures Only(isOf, s.apps, k) <==> OnlyApp(s, ref, k) {}
    forall k | Only(isOf, s.apps, k) ensures Filter(isOf, s.apps) == [s.apps[k]] {
      FilterOne(isOf, s.apps, k);
    }
  }

  ghost predicate Placed(s: Snapshot, facts: Facts, profile: string, recordType: string) {
    facts.formFactor == "Large" && ProfileIs(s, facts, profile) && RecordTypeIs(s, facts, recordType)
  }

  /** `r` is the only app that the request names. */
  ghost predicate OnlyAskedFor(s: Snapshot, facts: Facts, r: int) {
    IsAskedFor(s, facts, r) && forall q :: IsAskedFor(s, facts, q) ==> q == r
  }

  lemma SelectedByName(s: Snapshot, facts: Facts)
    requires facts.appName != ""
    ensures Selected(s, facts) == [] <==> forall r :: !IsAskedFor(s, facts, r)
    ensures |Selected(s, facts)| == 1 <==> exists r :: OnlyAskedFor(s, facts, r)
    ensures forall r :: OnlyAskedFor(s, facts, r) ==> Selected(s, facts) == [Entries(s, facts.apps[r])]
  {
    var hasName := (entries: seq<App>) => HasName(entries, facts.appName);
    var available := Available(s, facts.apps);
    forall r ensures 0 <= r < |available| && hasName(available[r]) <==> IsAskedFor(s, facts, r) {}
    FilterSize(hasName, available);
    forall r ensures Only(hasName, available, r) <==> OnlyAskedFor(s, facts, r) {}
    forall r | Only(hasName, available, r) ensures Filter(hasName, available) == [available[r]] {
      FilterOne(hasName, available, r);
    }
  }

  /** A named app has to be one of the user's apps and one entry of the snapshot; the answer is
      then the answer for that entry. */
  lemma NamedAppAnswer(s: Snapshot, facts: Facts, profile: string, recordType: string)
    requires Placed(s, facts, profile, recordType) && facts.appName != ""
    ensures (forall r :: !IsAskedFor(s, facts, r)) ==> Resolve(s, facts) == Unresolved(facts, "APP_CONTEXT_INVALID")
    ensures ((exists r :: IsAskedFor(s, facts, r)) &&
             (forall r, k :: OnlyAskedFor(s, facts, r) ==> !OnlyApp(s, facts.apps[r], k))) ==>
              Resolve(s, facts) == Unresolved(facts, "APP_CONTEXT_ERROR")
    ensures forall r, k :: OnlyAskedFor(s, facts, r) && OnlyApp(s, facts.apps[r], k) ==>
              Resolve(s, facts) == AppOutcome(s, facts, profile, recordType, s.apps[k])
  {
    ReadyExactly(s, facts, profile, recordType);
    SelectedByName(s, facts);
    var selected := Selected(s, facts);
    forall r | OnlyAskedFor(s, facts, r)
      ensures AllSingle(selected) <==> exists k :: OnlyApp(s, facts.apps[r], k)
      ensures forall k :: OnlyApp(s, facts.apps[r], k) ==>
                Resolve(s, facts) == AppOutcome(s, facts, profile, recordType, s.apps[k])
    {
      EntriesOf(s, facts.apps[r]);
      if AllSingle(selected) {
        NamedIsItsApp(s, facts);
      }
    }
  }

  /** The answers of the user's apps, each known to the snapshot once. */
  ghost predicate AnswersAre(s: Snapshot, facts: Facts, profile: string, recordType: string, answers: seq<Resolution>) {
    |answers| == |facts.apps| && forall r :: 0 <= r < |answers| ==>
      exists k :: OnlyApp(s, facts.apps[r], k) && answers[r] == AppOutcome(s, facts, profile, recordType, s.apps[k])
  }

  predicate SameForm(a: Resolution, b: Resolution) {
    a.formSource == b.formSource && a.page == b.page && a.reason == b.reason
  }

  /** Without a named app the user needs an app, ... */
  lemma NoApps(s: Snapshot, facts: Facts, profile: string, recordType: string)
    requires Placed(s, facts, profile, recordType) && facts.appName == "" && facts.apps == []
    ensures Resolve(s, facts) == Unresolved(facts, "APP_CONTEXT_INVALID")
  {
    ReadyExactly(s, facts, profile, recordType);
  }

  /** ... and every app has to be known to the snapshot once. */
  lemma UnknownApp(s: Snapshot, facts: Facts, profile: string, recordType: string, r: nat)
    requires Placed(s, facts, profile, recordType) && facts.appName == ""
    requires r < |facts.apps| && forall k :: !OnlyApp(s, facts.apps[r], k)
    ensures Resolve(s, facts) == Unresolved(facts, "APP_CONTEXT_ERROR")
  {
    ReadyExactly(s, facts, profile, recordType);
    EntriesOf(s, facts.apps[r]);
    assert |Available(s, facts.apps)[r]| != 1;
  }

  lemma ResolveConverges(s: Snapshot, facts: Facts, profile: string, recordType: string, answers: seq<Resolution>)
    requires Placed(s, facts, profile, recordType) && facts.appName == "" && facts.apps != []
    requires AnswersAre(s, facts, profile, recordType, answers)
    ensures Resolve(s, facts) == Converge(facts, answers)
  {
    ReadyExactly(s, facts, profile, recordType);
    var available := Available(s, facts.apps);
    forall r | 0 <= r < |answers|
      ensures |available[r]| == 1 && answers[r] == AppOutcome(s, facts, profile, recordType, available[r][0])
    {
      EntriesOf(s, facts.apps[r]);
    }
    assert answers == Outcomes(s, facts, profile, recordType, available);
  }

  lemma ConvergeToFirst(facts: Facts, answers: seq<Resolution>, r: nat)
    requires r < |answers| && answers[r].status != RESOLVED
    requires forall q :: 0 <= q < r ==> answers[q].status == RESOLVED
    ensures Converge(facts, answers) == answers[r]
  {
    FirstFailure(answers, r);
  }

  lemma ConvergeToCommon(facts: Facts, answers: seq<Resolution>)
    requires answers != [] && forall r :: 0 <= r < |answers| ==> answers[r].status == RESOLVED
    ensures Converge(facts, answers) ==
      if exists r :: 0 <= r < |answers| && !SameForm(answers[0], answers[r]) then
        Ambiguous(facts, "APP_CONTEXT_REQUIRED")
      else if |answers| == 1 then answers[0]
      else answers[0].(app := None, assignmentSource := Some("APPLICABLE_APPS_CONVERGED"))
  {
    FirstUnresolvedMeaning(answers);
    forall r ensures 0 <= r < |answers| && !SameForm(answers[0], answers[r]) <==>
                     0 <= r < |answers| && !Agrees(answers[0], answers[r]) {}
  }

  /** The first app without an answer speaks for all; answers that differ call for an app to be
      named; and a common answer of several apps is no single app's. */
  lemma AllAppsAnswer(s: Snapshot, facts: Facts, profile: string, recordType: string, answers: seq<Resolution>)
    requires Placed(s, facts, profile, recordType) && facts.appName == "" && facts.apps != []
    requires AnswersAre(s, facts, profile, recordType, answers)
    ensures forall r :: (0 <= r < |answers| && answers[r].status != RESOLVED &&
                         forall q :: 0 <= q < r ==> answers[q].status == RESOLVED) ==> Resolve(s, facts) == answers[r]
    ensures (forall r :: 0 <= r < |answers| ==> answers[r].status == RESOLVED) ==>
              Resolve(s, facts) == (if exists r :: 0 <= r < |answers| && !SameForm(answers[0], answers[r]) then
                                      Ambiguous(facts, "APP_CONTEXT_REQUIRED")
                                    else if |answers| == 1 then answers[0]
                                    else answers[0].(app := None,
                                                     assignmentSource := Some("APPLICABLE_APPS_CONVERGED")))
  {
    ResolveConverges(s, facts, profile, recordType, answers);
    if forall r :: 0 <= r < |answers| ==> answers[r].status == RESOLVED {
      ConvergeToCommon(facts, answers);
    }
    forall r | 0 <= r < |answers| && answers[r].status != RESOLVED &&
               forall q :: 0 <= q < r ==> answers[q].status == RESOLVED
      ensures Resolve(s, facts) == answers[r]
    {
      ConvergeToFirst(facts, answers, r);
    }
  }

  lemma {:induction false} FirstFailure(outcomes: seq<Resolution>, r: nat)
    requires r < |outcomes| && outcomes[r].status != RESOLVED
    requires forall q :: 0 <= q < r ==> outcomes[q].status == RESOLVED
    ensures FirstUnresolved(outcomes) == Some(outcomes[r])
  {
    if r > 0 {
      FirstFailure(outcomes[1..], r - 1);
    }
  }
}

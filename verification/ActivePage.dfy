/** Which page a user sees: the assignment rows of the snapshot, ranked by how specific they
    are, for each of the user's apps. */
module ActivePage {
  import opened Wrappers

  datatype Action = New | View
  datatype PageType = DefaultType | StandardType | FlexipageType | OtherType(name: string)
  datatype Assignment = Assignment(app: Option<string>, profile: Option<string>, recordType: Option<string>,
                                   formFactor: Option<string>, action: Action, pageType: PageType,
                                   page: Option<string>, source: string)
  datatype App = App(appId: string, developerName: string, fullName: string)
  datatype Named = Named(id: string, fullName: string)
  datatype FormSource = PAGE_LAYOUT | DYNAMIC_FORMS | MIXED | CUSTOM_OVERRIDE | AMBIGUOUS_SOURCE | UNRESOLVED_SOURCE
  datatype PageEntry = PageEntry(fullName: string, formSource: FormSource, unsupported: seq<string>)
  datatype Snapshot = Snapshot(objectApiName: string, apps: seq<App>, profiles: seq<Named>, recordTypes: seq<Named>,
                               assignments: seq<Assignment>, pages: seq<PageEntry>)

  datatype AppRef = AppRef(appId: string, developerName: string)
  /** `appName` is empty when the request names no app. */
  datatype Facts = Facts(profileId: string, recordTypeId: string, formFactor: string, apps: seq<AppRef>,
                         appName: string)

  datatype Status = RESOLVED | AMBIGUOUS | UNRESOLVED
  datatype Resolution = Resolution(formSource: FormSource, status: Status, page: Option<string>, app: Option<string>,
                                   assignmentSource: Option<string>, reason: Option<string>)

  function Failure(facts: Facts, reason: string, ambiguous: bool): Resolution {
    Resolution(if ambiguous then AMBIGUOUS_SOURCE else UNRESOLVED_SOURCE, if ambiguous then AMBIGUOUS else UNRESOLVED,
               None, if facts.appName == "" then None else Some(facts.appName), None, Some(reason))
  }

  // ----- sequences

  function Filter<T(!new)>(p: T -> bool, xs: seq<T>): (r: seq<T>)
    ensures forall x :: x in r <==> x in xs && p(x)
  {
    if xs == [] then []
    else
      var k := |xs| - 1;
      assert xs == xs[..k] + [xs[k]];
      Filter(p, xs[..k]) + if p(xs[k]) then [xs[k]] else []
  }

  // ----- ranking

  /** The facts an assignment row is matched against. */
  datatype Target = Target(app: string, profile: string, recordType: string, formFactor: string)

  predicate Fits(pattern: Option<string>, value: string) {
    pattern.None? || pattern.value == value
  }

  predicate Matches(row: Assignment, t: Target) {
    Fits(row.app, t.app) && Fits(row.profile, t.profile) && Fits(row.recordType, t.recordType)
        && Fits(row.formFactor, t.formFactor)
  }

  function Weight(pattern: Option<string>, weight: real): real {
    if pattern.Some? then weight else 0.0
  }

  function Priority(row: Assignment): real {
    Weight(row.app, 4.0) + Weight(row.profile, 2.0) + Weight(row.recordType, 1.0) + Weight(row.formFactor, 0.5)
  }

  function Highest(rows: seq<Assignment>): (r: real)
    requires rows != []
    ensures forall row :: row in rows ==> Priority(row) <= r
    ensures exists row :: row in rows && Priority(row) == r
  {
    var k := |rows| - 1;
    var last := rows[k];
    assert rows == rows[..k] + [last];
    if k == 0 then assert last in rows; Priority(last)
    else
      var rest := Highest(rows[..k]);
      if rest >= Priority(last) then assert exists row :: row in rows[..k] && Priority(row) == rest; rest
      else assert last in rows; Priority(last)
  }

  /** The most specific rows for an action. */
  function Choose(rows: seq<Assignment>, action: Action): seq<Assignment> {
    var candidates := Filter((row: Assignment) => row.action == action, rows);
    if candidates == [] then [] else Filter((row: Assignment) => Priority(row) == Highest(candidates), candidates)
  }

  predicate Inherits(t: PageType) {
    t.DefaultType? || t.StandardType?
  }

  /** A Default row was chosen although some row of the action names a page of its own. */
  predicate InheritanceUnknown(rows: seq<Assignment>, chosen: seq<Assignment>, action: Action) {
    chosen != [] && chosen[0].pageType.DefaultType?
    && exists row :: row in rows && row.action == action && !Inherits(row.pageType)
  }

  // ----- one app

  function PageOutcome(entries: seq<PageEntry>, facts: Facts, app: App, row: Assignment): Resolution {
    if !row.pageType.FlexipageType? || row.page.None? then Failure(facts, "UNSUPPORTED_PAGE", false)
    else
      var pages := Filter((p: PageEntry) => p.fullName == row.page.value, entries);
      if |pages| != 1 then Failure(facts, "SNAPSHOT_MISSING", false)
      else if pages[0].unsupported != [] then Failure(facts, pages[0].unsupported[0], false)
      else if pages[0].formSource == UNRESOLVED_SOURCE then Failure(facts, "UNSUPPORTED_PAGE", false)
      else Resolution(pages[0].formSource, RESOLVED, Some(pages[0].fullName), Some(app.fullName), Some(row.source),
                      None)
  }

  function ViewOutcome(entries: seq<PageEntry>, facts: Facts, app: App, rows: seq<Assignment>): Resolution {
    var view := Choose(rows, View);
    if |view| > 1 then Failure(facts, "ASSIGNMENT_RESOLUTION_ERROR", true)
    else if InheritanceUnknown(rows, view, View) then Failure(facts, "ASSIGNMENT_DEFAULT_INHERITANCE_UNKNOWN", false)
    else if view == [] then Resolution(PAGE_LAYOUT, RESOLVED, None, Some(app.fullName), Some("SALESFORCE_STANDARD"),
                                       None)
    else if Inherits(view[0].pageType) then Resolution(PAGE_LAYOUT, RESOLVED, None, Some(app.fullName),
                                                       Some(view[0].source), None)
    else PageOutcome(entries, facts, app, view[0])
  }

  function RowsOutcome(entries: seq<PageEntry>, facts: Facts, app: App, rows: seq<Assignment>): Resolution {
    var creation := Choose(rows, New);
    if |creation| > 1 then Failure(facts, "ASSIGNMENT_RESOLUTION_ERROR", true)
    else if InheritanceUnknown(rows, creation, New) then Failure(facts, "ASSIGNMENT_DEFAULT_INHERITANCE_UNKNOWN", false)
    else if creation != [] && !Inherits(creation[0].pageType) then
      Resolution(CUSTOM_OVERRIDE, RESOLVED, None, Some(app.fullName), Some(creation[0].source),
                 Some("CUSTOM_OVERRIDE_NOT_EVALUATED"))
    else ViewOutcome(entries, facts, app, rows)
  }

  function MatchingRows(assignments: seq<Assignment>, t: Target): seq<Assignment> {
    Filter((row: Assignment) => Matches(row, t), assignments)
  }

  function AppOutcome(s: Snapshot, facts: Facts, profile: string, recordType: string, app: App): Resolution {
    var target := Target(app.fullName, profile, recordType, facts.formFactor);
    RowsOutcome(s.pages, facts, app, MatchingRows(s.assignments, target))
  }

  // ----- all apps

  predicate SameSalesforceId(left: string, right: string) {
    |left| >= 15 && |right| >= 15 && left[..15] == right[..15]
  }

  const MASTER_PREFIX: string := "012000000000000"

  predicate IsMaster(recordTypeId: string) {
    (if |recordTypeId| <= 15 then recordTypeId else recordTypeId[..15]) == MASTER_PREFIX
  }

  /** The snapshot entries of one app of the user. */
  function Entries(s: Snapshot, ref: AppRef): seq<App> {
    Filter((app: App) => app.appId == ref.appId && app.developerName == ref.developerName, s.apps)
  }

  function Available(s: Snapshot, refs: seq<AppRef>): (r: seq<seq<App>>)
    ensures |r| == |refs| && forall i :: 0 <= i < |r| ==> r[i] == Entries(s, refs[i])
  {
    seq(|refs|, i requires 0 <= i < |refs| => Entries(s, refs[i]))
  }

  predicate HasName(entries: seq<App>, name: string) {
    exists app :: app in entries && (app.developerName == name || app.fullName == name)
  }

  function Selected(s: Snapshot, facts: Facts): seq<seq<App>> {
    var available := Available(s, facts.apps);
    if facts.appName == "" then available else Filter((entries: seq<App>) => HasName(entries, facts.appName), available)
  }

  datatype Context = Ready(profile: string, recordType: string) | NotReady(reason: string)

  function ContextOf(s: Snapshot, facts: Facts): Context {
    var profiles := Filter((p: Named) => SameSalesforceId(p.id, facts.profileId), s.profiles);
    var recordTypes := Filter((t: Named) => SameSalesforceId(t.id, facts.recordTypeId), s.recordTypes);
    if facts.formFactor != "Large" then NotReady("UNSUPPORTED_FORM_FACTOR")
    else if |profiles| != 1 then NotReady("USER_CONTEXT_ERROR")
    else if |recordTypes| > 1 then NotReady("RECORD_TYPE_CONTEXT_ERROR")
    else if IsMaster(facts.recordTypeId) then Ready(profiles[0].fullName, s.objectApiName + ".Master")
    else if recordTypes == [] || recordTypes[0].fullName == "" then NotReady("RECORD_TYPE_CONTEXT_ERROR")
    else Ready(profiles[0].fullName, recordTypes[0].fullName)
  }

  predicate AllSingle(selected: seq<seq<App>>) {
    forall i :: 0 <= i < |selected| ==> |selected[i]| == 1
  }

  function Outcomes(s: Snapshot, facts: Facts, profile: string, recordType: string,
                    selected: seq<seq<App>>): (r: seq<Resolution>)
    requires AllSingle(selected)
    ensures |r| == |selected|
    ensures forall i :: 0 <= i < |r| ==> r[i] == AppOutcome(s, facts, profile, recordType, selected[i][0])
  {
    seq(|selected|, i requires 0 <= i < |selected| => AppOutcome(s, facts, profile, recordType, selected[i][0]))
  }

  function FirstUnresolved(outcomes: seq<Resolution>): Option<Resolution> {
    if outcomes == [] then None
    else if outcomes[0].status != RESOLVED then Some(outcomes[0])
    else FirstUnresolved(outcomes[1..])
  }

  /** What the apps have to agree on. */
  predicate Agrees(a: Resolution, b: Resolution) {
    a.formSource == b.formSource && a.page == b.page && a.reason == b.reason
  }

  function Converge(facts: Facts, outcomes: seq<Resolution>): Resolution
    requires outcomes != []
  {
    var failed := FirstUnresolved(outcomes);
    if failed.Some? then failed.value
    else if exists i :: 0 <= i < |outcomes| && !Agrees(outcomes[0], outcomes[i]) then
        Failure(facts, "APP_CONTEXT_REQUIRED", true)
    else if |outcomes| == 1 then outcomes[0]
    else outcomes[0].(app := None, assignmentSource := Some("APPLICABLE_APPS_CONVERGED"))
  }

  function Resolve(s: Snapshot, facts: Facts): Resolution {
    match ContextOf(s, facts)
    case NotReady(reason) => Failure(facts, reason, false)
    case Ready(profile, recordType) =>
      var selected := Selected(s, facts);
      if selected == [] then Failure(facts, "APP_CONTEXT_INVALID", false)
      else if !AllSingle(selected) || (facts.appName != "" && |selected| != 1) then
          Failure(facts, "APP_CONTEXT_ERROR", false)
      else Converge(facts, Outcomes(s, facts, profile, recordType, selected))
  }

  // ----- the weights rank lexicographically

  /** `a` is more specific than `b`, reading the fields in the order app, profile, record type, form factor. */
  predicate MoreSpecific(a: Assignment, b: Assignment) {
    if a.app.Some? != b.app.Some? then a.app.Some?
    else if a.profile.Some? != b.profile.Some? then a.profile.Some?
    else if a.recordType.Some? != b.recordType.Some? then a.recordType.Some?
    else a.formFactor.Some? && !b.formFactor.Some?
  }

  predicate SameKey(a: Assignment, b: Assignment) {
    a.app == b.app && a.profile == b.profile && a.recordType == b.recordType && a.formFactor == b.formFactor
  }

  lemma WeightsAreLexicographic(a: Assignment, b: Assignment)
    ensures Priority(a) > Priority(b) <==> MoreSpecific(a, b)
  {
  }

  /** Rows that match the same facts tie only when their keys are the same. */
  lemma TiesHaveTheSameKey(a: Assignment, b: Assignment, t: Target)
    requires Matches(a, t) && Matches(b, t)
    ensures Priority(a) == Priority(b) <==> SameKey(a, b)
  {
    WeightsAreLexicographic(a, b);
    WeightsAreLexicographic(b, a);
  }

  lemma HighestIsUnbeaten(rows: seq<Assignment>, row: Assignment)
    requires row in rows
    ensures Priority(row) == Highest(rows) <==> forall r :: r in rows ==> !MoreSpecific(r, row)
  {
    forall r | r in rows ensures Priority(r) > Priority(row) <==> MoreSpecific(r, row) {
      WeightsAreLexicographic(r, row);
    }
  }

  /** The chosen rows are the matching rows of the action that no other such row outranks. */
  lemma ChosenRows(assignments: seq<Assignment>, t: Target, action: Action, row: Assignment)
    ensures row in Choose(MatchingRows(assignments, t), action) <==>
        && row in assignments && Matches(row, t) && row.action == action
        && forall r :: r in assignments && Matches(r, t) && r.action == action ==> !MoreSpecific(r, row)
  {
    var candidates := Filter((r: Assignment) => r.action == action, MatchingRows(assignments, t));
    if row in candidates {
      HighestIsUnbeaten(candidates, row);
    }
  }

  /** They all share one key. */
  lemma ChosenRowsShareTheirKey(assignments: seq<Assignment>, t: Target, action: Action, a: Assignment, b: Assignment)
    requires a in Choose(MatchingRows(assignments, t), action) && b in Choose(MatchingRows(assignments, t), action)
    ensures SameKey(a, b)
  {
    TiesHaveTheSameKey(a, b, t);
  }

  // ----- the order of the rows does not matter

  lemma {:induction false} FilterCounts<T(!new)>(p: T -> bool, xs: seq<T>, x: T)
    ensures multiset(Filter(p, xs))[x] == if p(x) then multiset(xs)[x] else 0
  {
    if xs != [] {
      var k := |xs| - 1;
      FilterCounts(p, xs[..k], x);
      assert xs == xs[..k] + [xs[k]];
    }
  }

  lemma FilterPermutes<T(!new)>(p: T -> bool, xs: seq<T>, ys: seq<T>)
    requires multiset(xs) == multiset(ys)
    ensures multiset(Filter(p, xs)) == multiset(Filter(p, ys))
  {
    forall x ensures multiset(Filter(p, xs))[x] == multiset(Filter(p, ys))[x] {
      FilterCounts(p, xs, x);
      FilterCounts(p, ys, x);
    }
  }

  lemma PermutedMembers<T>(xs: seq<T>, ys: seq<T>)
    requires multiset(xs) == multiset(ys)
    ensures |xs| == |ys| && forall x :: x in xs <==> x in ys
    ensures |xs| == 1 ==> xs == ys
  {
    assert |multiset(xs)| == |xs| && |multiset(ys)| == |ys|;
    forall x ensures x in xs <==> x in ys {
      assert x in xs <==> x in multiset(xs);
      assert x in ys <==> x in multiset(ys);
    }
    if |xs| == 1 {
      assert xs[0] in ys;
    }
  }

  lemma ChoosePermutes(xs: seq<Assignment>, ys: seq<Assignment>, action: Action)
    requires multiset(xs) == multiset(ys)
    ensures multiset(Choose(xs, action)) == multiset(Choose(ys, action))
  {
    var p := (row: Assignment) => row.action == action;
    var cx, cy := Filter(p, xs), Filter(p, ys);
    FilterPermutes(p, xs, ys);
    PermutedMembers(cx, cy);
    if cx != [] {
      assert Highest(cx) == Highest(cy);
      var q := (row: Assignment) => Priority(row) == Highest(cx);
      FilterPermutes(q, cx, cy);
      SameFilter(q, (row: Assignment) => Priority(row) == Highest(cy), cy);
    }
  }

  lemma {:induction false} SameFilter<T(!new)>(p: T -> bool, q: T -> bool, xs: seq<T>)
    requires forall x :: p(x) <==> q(x)
    ensures Filter(p, xs) == Filter(q, xs)
  {
    if xs != [] {
      SameFilter(p, q, xs[..|xs| - 1]);
    }
  }

  lemma ChosenPermute(xs: seq<Assignment>, ys: seq<Assignment>, action: Action)
    requires multiset(xs) == multiset(ys)
    ensures |Choose(xs, action)| == |Choose(ys, action)|
    ensures |Choose(xs, action)| <= 1 ==>
              && Choose(xs, action) == Choose(ys, action)
              && InheritanceUnknown(xs, Choose(xs, action), action)
                  == InheritanceUnknown(ys, Choose(ys, action), action)
  {
    ChoosePermutes(xs, ys, action);
    PermutedMembers(xs, ys);
    PermutedMembers(Choose(xs, action), Choose(ys, action));
  }

  lemma ViewPermutes(entries: seq<PageEntry>, facts: Facts, app: App, xs: seq<Assignment>, ys: seq<Assignment>)
    requires multiset(xs) == multiset(ys)
    ensures ViewOutcome(entries, facts, app, xs) == ViewOutcome(entries, facts, app, ys)
  {
    ChosenPermute(xs, ys, View);
  }

  lemma RowsPermute(entries: seq<PageEntry>, facts: Facts, app: App, xs: seq<Assignment>, ys: seq<Assignment>)
    requires multiset(xs) == multiset(ys)
    ensures RowsOutcome(entries, facts, app, xs) == RowsOutcome(entries, facts, app, ys)
  {
    ChosenPermute(xs, ys, New);
    ViewPermutes(entries, facts, app, xs, ys);
  }

  lemma AppOutcomePermutes(s: Snapshot, s': Snapshot, facts: Facts, profile: string, recordType: string, app: App)
    requires s' == s.(assignments := s'.assignments) && multiset(s.assignments) == multiset(s'.assignments)
    ensures AppOutcome(s, facts, profile, recordType, app) == AppOutcome(s', facts, profile, recordType, app)
  {
    var t := Target(app.fullName, profile, recordType, facts.formFactor);
    FilterPermutes((row: Assignment) => Matches(row, t), s.assignments, s'.assignments);
    RowsPermute(s.pages, facts, app, MatchingRows(s.assignments, t), MatchingRows(s'.assignments, t));
  }

  /** Reordering the assignment rows of the snapshot never changes the answer. */
  lemma OrderOfAssignmentsIsIrrelevant(s: Snapshot, s': Snapshot, facts: Facts)
    requires s' == s.(assignments := s'.assignments) && multiset(s.assignments) == multiset(s'.assignments)
    ensures Resolve(s, facts) == Resolve(s', facts)
  {
    assert ContextOf(s, facts) == ContextOf(s', facts);
    assert Available(s, facts.apps) == Available(s', facts.apps);
    var selected := Selected(s, facts);
    if ContextOf(s, facts).Ready? && AllSingle(selected) {
      var c := ContextOf(s, facts);
      forall i | 0 <= i < |selected|
        ensures Outcomes(s, facts, c.profile, c.recordType, selected)[i]
            == Outcomes(s', facts, c.profile, c.recordType, selected)[i]
      {
        AppOutcomePermutes(s, s', facts, c.profile, c.recordType, selected[i][0]);
      }
      assert Outcomes(s, facts, c.profile, c.recordType, selected)
          == Outcomes(s', facts, c.profile, c.recordType, selected);
    }
  }

  // ----- convergence over apps

  lemma {:induction false} FirstUnresolvedMeaning(outcomes: seq<Resolution>)
    ensures FirstUnresolved(outcomes).None? <==> forall i :: 0 <= i < |outcomes| ==> outcomes[i].status == RESOLVED
    ensures FirstUnresolved(outcomes).Some? ==> FirstUnresolved(outcomes).value.status != RESOLVED
  {
    if outcomes != [] && outcomes[0].status == RESOLVED {
      FirstUnresolvedMeaning(outcomes[1..]);
      assert forall i :: 1 <= i < |outcomes| ==> outcomes[i] == outcomes[1..][i - 1];
      assert forall i :: 0 <= i < |outcomes| - 1 ==> outcomes[1..][i] == outcomes[i + 1];
    }
  }

  lemma ConvergeMeaning(facts: Facts, outcomes: seq<Resolution>)
    requires outcomes != []
    ensures Converge(facts, outcomes).status == RESOLVED <==>
              forall i :: 0 <= i < |outcomes| ==> outcomes[i].status == RESOLVED && Agrees(outcomes[0], outcomes[i])
    ensures Converge(facts, outcomes).status == RESOLVED ==> Agrees(Converge(facts, outcomes), outcomes[0])
  {
    FirstUnresolvedMeaning(outcomes);
  }

  predicate SameAnswer(a: Resolution, b: Resolution) {
    a.status == b.status && Agrees(a, b)
  }

  lemma NamingKeepsPage(entries: seq<PageEntry>, facts: Facts, named: Facts, app: App, row: Assignment)
    ensures SameAnswer(PageOutcome(entries, facts, app, row), PageOutcome(entries, named, app, row))
  {
  }

  lemma NamingKeepsView(entries: seq<PageEntry>, facts: Facts, named: Facts, app: App, rows: seq<Assignment>)
    ensures SameAnswer(ViewOutcome(entries, facts, app, rows), ViewOutcome(entries, named, app, rows))
  {
    var view := Choose(rows, View);
    if |view| == 1 && !InheritanceUnknown(rows, view, View) && !Inherits(view[0].pageType) {
      assert ViewOutcome(entries, facts, app, rows) == PageOutcome(entries, facts, app, view[0]);
      assert ViewOutcome(entries, named, app, rows) == PageOutcome(entries, named, app, view[0]);
      NamingKeepsPage(entries, facts, named, app, view[0]);
    }
  }

  lemma NamingKeepsRows(entries: seq<PageEntry>, facts: Facts, named: Facts, app: App, rows: seq<Assignment>)
    ensures SameAnswer(RowsOutcome(entries, facts, app, rows), RowsOutcome(entries, named, app, rows))
  {
    NamingKeepsView(entries, facts, named, app, rows);
  }

  /** Whether an app's outcome is resolved, and on what, does not depend on the app being named. */
  lemma NamingKeepsOutcome(s: Snapshot, facts: Facts, named: Facts, profile: string, recordType: string, app: App)
    requires named == facts.(appName := named.appName)
    ensures SameAnswer(AppOutcome(s, facts, profile, recordType, app), AppOutcome(s, named, profile, recordType, app))
  {
    NamingKeepsRows(s.pages, facts, named, app,
                    MatchingRows(s.assignments, Target(app.fullName, profile, recordType, facts.formFactor)));
  }

  /** Without a named app the answer is RESOLVED exactly when the context is clear, there is
      an app, each app has one snapshot entry, and all apps resolve to the same answer. */
  lemma ResolvedMeansAgreement(s: Snapshot, facts: Facts)
    requires facts.appName == "" && ContextOf(s, facts).Ready?
    ensures var c, available := ContextOf(s, facts), Available(s, facts.apps);
      Resolve(s, facts).status == RESOLVED <==>
        && available != [] && AllSingle(available)
        && forall i :: 0 <= i < |available| ==>
             var o := AppOutcome(s, facts, c.profile, c.recordType, available[i][0]);
             o.status == RESOLVED && Agrees(AppOutcome(s, facts, c.profile, c.recordType, available[0][0]), o)
  {
    var c, available := ContextOf(s, facts), Available(s, facts.apps);
    if available != [] && AllSingle(available) {
      ConvergeMeaning(facts, Outcomes(s, facts, c.profile, c.recordType, available));
    }
  }

  /** If the answer without a named app is RESOLVED, naming any app that selects one entry
      gives the same form source, page and reason. */
  lemma NamingAnAppAgrees(s: Snapshot, facts: Facts, name: string)
    requires facts.appName == "" && name != "" && Resolve(s, facts).status == RESOLVED
    requires |Selected(s, facts.(appName := name))| == 1
    ensures SameAnswer(Resolve(s, facts), Resolve(s, facts.(appName := name)))
  {
    var named := facts.(appName := name);
    var c := ContextOf(s, facts);
    var k := NamedApp(s, facts, named);
    ResolvedIsShared(s, facts, k);
    NamedIsItsApp(s, named);
    NamingKeepsOutcome(s, facts, named, c.profile, c.recordType, Selected(s, named)[0][0]);
  }

  /** The one entry list a named app selects is that of some app of the user. */
  lemma NamedApp(s: Snapshot, facts: Facts, named: Facts) returns (k: nat)
    requires named == facts.(appName := named.appName) && named.appName != "" && |Selected(s, named)| == 1
    ensures k < |facts.apps| && Available(s, facts.apps)[k] == Selected(s, named)[0]
    ensures ContextOf(s, named) == ContextOf(s, facts)
  {
    var available := Available(s, facts.apps);
    assert Selected(s, named)[0] in available;
    k :| 0 <= k < |available| && available[k] == Selected(s, named)[0];
  }

  lemma ResolvedIsShared(s: Snapshot, facts: Facts, k: nat)
    requires facts.appName == "" && Resolve(s, facts).status == RESOLVED && k < |facts.apps|
    ensures var c, available := ContextOf(s, facts), Available(s, facts.apps);
      c.Ready? && |available[k]| == 1
        && SameAnswer(Resolve(s, facts), AppOutcome(s, facts, c.profile, c.recordType, available[k][0]))
  {
    var c, available := ContextOf(s, facts), Available(s, facts.apps);
    ConvergeMeaning(facts, Outcomes(s, facts, c.profile, c.recordType, available));
  }

  lemma NamedIsItsApp(s: Snapshot, named: Facts)
    requires named.appName != "" && |Selected(s, named)| == 1 && |Selected(s, named)[0]| == 1
        && ContextOf(s, named).Ready?
    ensures var c := ContextOf(s, named);
      Resolve(s, named) == AppOutcome(s, named, c.profile, c.recordType, Selected(s, named)[0][0])
  {
    var c := ContextOf(s, named);
    var outcomes := Outcomes(s, named, c.profile, c.recordType, Selected(s, named));
    FirstUnresolvedMeaning(outcomes);
    assert outcomes[1..] == [];
  }
}

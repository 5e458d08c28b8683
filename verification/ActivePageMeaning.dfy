/** What page a user gets, from the rows of the snapshot: which row governs an action for an app,
    and what the app, and the user's apps together, then resolve to. */
module ActivePageMeaning {
  import opened Wrappers
  import opened ActivePage

  // ----- one of many

  /** `i` is the only place of `xs` where `p` holds. */
  ghost predicate Only<T(!new)>(p: T -> bool, xs: seq<T>, i: int) {
    0 <= i < |xs| && p(xs[i]) && forall j :: 0 <= j < |xs| && p(xs[j]) ==> j == i
  }

  lemma {:induction false} FilterOne<T(!new)>(p: T -> bool, xs: seq<T>, i: int)
    requires Only(p, xs, i)
    ensures Filter(p, xs) == [xs[i]]
  {
    var k := |xs| - 1;
    if i < k {
      assert Only(p, xs[..k], i);
      FilterOne(p, xs[..k], i);
    } else {
      FilterNone(p, xs[..k]);
    }
  }

  lemma {:induction false} FilterNone<T(!new)>(p: T -> bool, xs: seq<T>)
    requires forall i :: 0 <= i < |xs| ==> !p(xs[i])
    ensures Filter(p, xs) == []
  {
    if xs != [] {
      FilterNone(p, xs[..|xs| - 1]);
    }
  }

  lemma {:induction false} FilterSome<T(!new)>(p: T -> bool, xs: seq<T>, i: int)
    requires 0 <= i < |xs| && p(xs[i])
    ensures Filter(p, xs) != []
  {
    assert xs[i] in xs;
  }

  lemma {:induction false} FilterSeveral<T(!new)>(p: T -> bool, xs: seq<T>, i: int, j: int)
    requires 0 <= i < j < |xs| && p(xs[i]) && p(xs[j])
    ensures |Filter(p, xs)| > 1
  {
    var k := |xs| - 1;
    if j < k {
      FilterSeveral(p, xs[..k], i, j);
    } else {
      FilterSome(p, xs[..k], i);
    }
  }

  /** The size of the filtered sequence tells at how many places `p` holds. */
  lemma FilterSize<T(!new)>(p: T -> bool, xs: seq<T>)
    ensures Filter(p, xs) == [] <==> forall i :: 0 <= i < |xs| ==> !p(xs[i])
    ensures |Filter(p, xs)| == 1 <==> exists i :: Only(p, xs, i)
    ensures |Filter(p, xs)| > 1 <==> exists i, j :: 0 <= i < j < |xs| && p(xs[i]) && p(xs[j])
  {
    if i, j :| 0 <= i < j < |xs| && p(xs[i]) && p(xs[j]) {
      FilterSeveral(p, xs, i, j);
      assert !exists i' :: Only(p, xs, i');
    } else if i :| 0 <= i < |xs| && p(xs[i]) {
      assert Only(p, xs, i);
      FilterOne(p, xs, i);
    } else {
      FilterNone(p, xs);
    }
  }

  lemma {:induction false} FilterTwice<T(!new)>(p: T -> bool, q: T -> bool, both: T -> bool, xs: seq<T>)
    requires forall x :: x in xs ==> (both(x) <==> p(x) && q(x))
    ensures Filter(q, Filter(p, xs)) == Filter(both, xs)
  {
    if xs != [] {
      var k := |xs| - 1;
      assert xs == xs[..k] + [xs[k]];
      FilterTwice(p, q, both, xs[..k]);
      var rest := Filter(p, xs[..k]);
      if p(xs[k]) {
        assert Filter(p, xs) == rest + [xs[k]];
        FilterSnoc(q, rest, xs[k]);
      } else {
        assert Filter(p, xs) == rest;
      }
    }
  }

  lemma FilterSnoc<T(!new)>(q: T -> bool, xs: seq<T>, x: T)
    ensures Filter(q, xs + [x]) == Filter(q, xs) + if q(x) then [x] else []
  {
    assert (xs + [x])[..|xs|] == xs;
  }

  // ----- who governs an action

  /** Where the assignment is asked for. */
  datatype Place = Place(app: string, profile: string, recordType: string, formFactor: string)

  /** The row is about this action, and names the place or leaves it open, part by part. */
  predicate Applies(row: Assignment, place: Place, action: Action) {
    && row.action == action
    && (row.app == None || row.app == Some(place.app))
    && (row.profile == None || row.profile == Some(place.profile))
    && (row.recordType == None || row.recordType == Some(place.recordType))
    && (row.formFactor == None || row.formFactor == Some(place.formFactor))
  }

  /** The row applies and no applying row is more specific. */
  predicate Governing(rows: seq<Assignment>, place: Place, action: Action, row: Assignment) {
    && Applies(row, place, action)
    && forall r :: r in rows && Applies(r, place, action) ==> !MoreSpecific(r, row)
  }

  predicate Governs(rows: seq<Assignment>, place: Place, action: Action, i: int) {
    0 <= i < |rows| && Governing(rows, place, action, rows[i])
  }

  ghost predicate Sole(rows: seq<Assignment>, place: Place, action: Action, i: int) {
    Governs(rows, place, action, i) && forall j :: Governs(rows, place, action, j) ==> j == i
  }

  ghost predicate Tied(rows: seq<Assignment>, place: Place, action: Action) {
    exists i, j :: 0 <= i < j < |rows| && Governs(rows, place, action, i) && Governs(rows, place, action, j)
  }

  predicate NoRow(rows: seq<Assignment>, place: Place, action: Action) {
    forall i :: 0 <= i < |rows| ==> !Applies(rows[i], place, action)
  }

  predicate Standard(t: PageType) {
    t == DefaultType || t == StandardType
  }

  /** The sole row says Default, while some applying row names a page of its own. */
  ghost predicate Doubtful(rows: seq<Assignment>, place: Place, action: Action, i: int) {
    && Sole(rows, place, action, i) && rows[i].pageType == DefaultType
    && exists j :: 0 <= j < |rows| && Applies(rows[j], place, action) && !Standard(rows[j].pageType)
  }

  /** Nothing but the standard page is asked for. */
  ghost predicate LeavesStandard(rows: seq<Assignment>, place: Place, action: Action) {
    || NoRow(rows, place, action)
    || exists i :: Sole(rows, place, action, i) && Standard(rows[i].pageType) && !Doubtful(rows, place, action, i)
  }

  /** The sole row names something other than the standard page. */
  ghost predicate Departs(rows: seq<Assignment>, place: Place, action: Action, i: int) {
    Sole(rows, place, action, i) && !Standard(rows[i].pageType)
  }

  function TargetOf(place: Place): Target {
    Target(place.app, place.profile, place.recordType, place.formFactor)
  }

  lemma NoneChosen(rows: seq<Assignment>, place: Place, action: Action)
    ensures Choose(MatchingRows(rows, TargetOf(place)), action) == [] <==> NoRow(rows, place, action)
  {
    ChosenAreFiltered(rows, place, action);
    FilterSize((row: Assignment) => Governing(rows, place, action, row), rows);
    SomeRowGoverns(rows, place, action);
  }

  lemma TiedAreSeveral(rows: seq<Assignment>, place: Place, action: Action)
    ensures var governing := (row: Assignment) => Governing(rows, place, action, row);
      |Filter(governing, rows)| > 1 <==> Tied(rows, place, action)
  {
    var governing := (row: Assignment) => Governing(rows, place, action, row);
    FilterSize(governing, rows);
    if i, j :| 0 <= i < j < |rows| && governing(rows[i]) && governing(rows[j]) {
      assert Governs(rows, place, action, i) && Governs(rows, place, action, j);
    }
    if i, j :| 0 <= i < j < |rows| && Governs(rows, place, action, i) && Governs(rows, place, action, j) {
      assert governing(rows[i]) && governing(rows[j]);
    }
  }

  lemma TiedChosen(rows: seq<Assignment>, place: Place, action: Action)
    ensures |Choose(MatchingRows(rows, TargetOf(place)), action)| > 1 <==> Tied(rows, place, action)
  {
    TiedAreSeveral(rows, place, action);
    ChosenAreFiltered(rows, place, action);
  }

  lemma OneChosen(rows: seq<Assignment>, place: Place, action: Action) returns (i: int)
    requires |Choose(MatchingRows(rows, TargetOf(place)), action)| == 1
    ensures Sole(rows, place, action, i)
  {
    var governing := (row: Assignment) => Governing(rows, place, action, row);
    ChosenAreFiltered(rows, place, action);
    FilterSize(governing, rows);
    i :| Only(governing, rows, i);
  }

  lemma SoleIsOnly(rows: seq<Assignment>, place: Place, action: Action, i: int)
    requires Sole(rows, place, action, i)
    ensures Filter((row: Assignment) => Governing(rows, place, action, row), rows) == [rows[i]]
  {
    var governing := (row: Assignment) => Governing(rows, place, action, row);
    forall j | 0 <= j < |rows| && governing(rows[j]) ensures j == i {
      assert Governs(rows, place, action, j);
    }
    FilterOne(governing, rows, i);
  }

  lemma SoleIsChosen(rows: seq<Assignment>, place: Place, action: Action, i: int)
    requires Sole(rows, place, action, i)
    ensures Choose(MatchingRows(rows, TargetOf(place)), action) == [rows[i]]
  {
    SoleIsOnly(rows, place, action, i);
    ChosenAreFiltered(rows, place, action);
  }

  lemma CandidatesGovern(rows: seq<Assignment>, place: Place, action: Action, row: Assignment)
    requires row in rows && Applies(row, place, action)
    ensures var candidates := Candidates(rows, place, action);
      candidates != [] && (Priority(row) == Highest(candidates) <==> Governing(rows, place, action, row))
  {
    var candidates := Candidates(rows, place, action);
    assert row in candidates;
    HighestIsUnbeaten(candidates, row);
  }

  /** The rows that apply. */
  function Candidates(rows: seq<Assignment>, place: Place, action: Action): seq<Assignment> {
    Filter((row: Assignment) => Applies(row, place, action), rows)
  }

  lemma CandidatesMatch(rows: seq<Assignment>, place: Place, action: Action)
    ensures Filter((row: Assignment) => row.action == action, MatchingRows(rows, TargetOf(place)))
         == Candidates(rows, place, action)
  {
    var t := TargetOf(place);
    FilterTwice((row: Assignment) => Matches(row, t), (row: Assignment) => row.action == action,
                (row: Assignment) => Applies(row, place, action), rows);
  }

  lemma NoCandidates(rows: seq<Assignment>, place: Place, action: Action)
    requires Candidates(rows, place, action) == []
    ensures Filter((row: Assignment) => Governing(rows, place, action, row), rows) == []
  {
    var candidates := Candidates(rows, place, action);
    forall i | 0 <= i < |rows| ensures !Applies(rows[i], place, action) {
      assert rows[i] in candidates <==> Applies(rows[i], place, action);
    }
    FilterNone((row: Assignment) => Governing(rows, place, action, row), rows);
  }

  lemma BestGovern(rows: seq<Assignment>, place: Place, action: Action)
    requires Candidates(rows, place, action) != []
    ensures var candidates := Candidates(rows, place, action);
      Filter((row: Assignment) => Priority(row) == Highest(candidates), candidates)
         == Filter((row: Assignment) => Governing(rows, place, action, row), rows)
  {
    var candidates := Candidates(rows, place, action);
    forall row | row in rows && Applies(row, place, action)
      ensures Priority(row) == Highest(candidates) <==> Governing(rows, place, action, row)
    {
      CandidatesGovern(rows, place, action, row);
    }
    FilterTwice((row: Assignment) => Applies(row, place, action),
                (row: Assignment) => Priority(row) == Highest(candidates),
                (row: Assignment) => Governing(rows, place, action, row), rows);
  }

  lemma ChosenAreFiltered(rows: seq<Assignment>, place: Place, action: Action)
    ensures Choose(MatchingRows(rows, TargetOf(place)), action)
         == Filter((row: Assignment) => Governing(rows, place, action, row), rows)
  {
    CandidatesMatch(rows, place, action);
    if Candidates(rows, place, action) == [] {
      NoCandidates(rows, place, action);
    } else {
      BestGovern(rows, place, action);
    }
  }

  lemma SomeRowGoverns(rows: seq<Assignment>, place: Place, action: Action)
    ensures NoRow(rows, place, action) <==> forall row :: row in rows ==> !Governing(rows, place, action, row)
  {
    var candidates := Candidates(rows, place, action);
    FilterSize((row: Assignment) => Applies(row, place, action), rows);
    if candidates != [] {
      var row :| row in candidates && Priority(row) == Highest(candidates);
      HighestIsUnbeaten(candidates, row);
      assert Governing(rows, place, action, row);
    }
  }

  // ----- the answer for one app

  function Unresolved(facts: Facts, reason: string): Resolution {
    Resolution(UNRESOLVED_SOURCE, UNRESOLVED, None, if facts.appName == "" then None else Some(facts.appName), None,
               Some(reason))
  }

  function Ambiguous(facts: Facts, reason: string): Resolution {
    Resolution(AMBIGUOUS_SOURCE, AMBIGUOUS, None, if facts.appName == "" then None else Some(facts.appName), None,
               Some(reason))
  }

  /** The standard page layout, on the word of `source`. */
  function Layout(app: App, source: string): Resolution {
    Resolution(PAGE_LAYOUT, RESOLVED, None, Some(app.fullName), Some(source), None)
  }

  function Here(facts: Facts, profile: string, recordType: string, app: App): Place {
    Place(app.fullName, profile, recordType, facts.formFactor)
  }

  /** `k` is the only entry for the page. */
  ghost predicate OnlyEntry(pages: seq<PageEntry>, page: string, k: int) {
    0 <= k < |pages| && pages[k].fullName == page
    && forall l :: 0 <= l < |pages| && pages[l].fullName == page ==> l == k
  }

  /** How an action's rows stand: they tie, they leave the standard page, the sole row is
      doubtful, or the sole row departs from the standard page. */
  datatype Way = Ties | Leaves | Doubts(i: int) | Parts(i: int)

  /** Exactly one of the four holds. */
  lemma WayOf(rows: seq<Assignment>, place: Place, action: Action) returns (way: Way)
    ensures Tied(rows, place, action) <==> way == Ties
    ensures LeavesStandard(rows, place, action) <==> way == Leaves
    ensures forall i :: Doubtful(rows, place, action, i) <==> way == Doubts(i)
    ensures forall i :: Departs(rows, place, action, i) <==> way == Parts(i)
  {
    NoneChosen(rows, place, action);
    TiedChosen(rows, place, action);
    var chosen := Choose(MatchingRows(rows, TargetOf(place)), action);
    forall i | Sole(rows, place, action, i) ensures |chosen| == 1 {
      SoleIsChosen(rows, place, action, i);
    }
    if |chosen| == 1 {
      var i := OneChosen(rows, place, action);
      way := if Doubtful(rows, place, action, i) then Doubts(i)
             else if Standard(rows[i].pageType) then Leaves else Parts(i);
    } else {
      way := if |chosen| == 0 then Leaves else Ties;
    }
  }

  /** What the chosen row of an action looks like to the resolver. */
  lemma SoleRow(rows: seq<Assignment>, place: Place, action: Action, i: int)
    requires Sole(rows, place, action, i)
    ensures var matching := MatchingRows(rows, TargetOf(place)); var chosen := Choose(matching, action);
      && chosen == [rows[i]]
      && (InheritanceUnknown(matching, chosen, action) <==> Doubtful(rows, place, action, i))
      && (Inherits(chosen[0].pageType) <==> Standard(rows[i].pageType))
  {
    SoleIsChosen(rows, place, action, i);
    DoubtMeaning(rows, place, action, rows[i]);
  }

  lemma DoubtMeaning(rows: seq<Assignment>, place: Place, action: Action, row: Assignment)
    ensures InheritanceUnknown(MatchingRows(rows, TargetOf(place)), [row], action) <==>
      && row.pageType == DefaultType
      && exists j :: 0 <= j < |rows| && Applies(rows[j], place, action) && !Standard(rows[j].pageType)
  {
    PagesOfTheirOwn(rows, place, action);
  }

  lemma PagesOfTheirOwn(rows: seq<Assignment>, place: Place, action: Action)
    ensures (exists row :: row in MatchingRows(rows, TargetOf(place)) && row.action == action
                           && !Inherits(row.pageType))
       <==> (exists j :: 0 <= j < |rows| && Applies(rows[j], place, action) && !Standard(rows[j].pageType))
  {
    var matching := MatchingRows(rows, TargetOf(place));
    if row :| row in matching && row.action == action && !Inherits(row.pageType) {
      var j :| 0 <= j < |rows| && rows[j] == row;
      assert Applies(rows[j], place, action);
    }
    if j :| 0 <= j < |rows| && Applies(rows[j], place, action) && !Standard(rows[j].pageType) {
      assert rows[j] in matching;
    }
  }

  /** One New row settles the answer, unless it says no more than the standard page. */
  lemma CreationRow(entries: seq<PageEntry>, facts: Facts, app: App, matching: seq<Assignment>, row: Assignment)
    requires Choose(matching, New) == [row]
    ensures var outcome, doubt := RowsOutcome(entries, facts, app, matching), InheritanceUnknown(matching, [row], New);
      && (doubt ==> outcome == Unresolved(facts, "ASSIGNMENT_DEFAULT_INHERITANCE_UNKNOWN"))
      && (!doubt && !Standard(row.pageType) ==>
            outcome == Resolution(CUSTOM_OVERRIDE, RESOLVED, None, Some(app.fullName), Some(row.source),
                                  Some("CUSTOM_OVERRIDE_NOT_EVALUATED")))
      && (!doubt && Standard(row.pageType) ==> outcome == ViewOutcome(entries, facts, app, matching))
  {
  }

  lemma ViewRow(entries: seq<PageEntry>, facts: Facts, app: App, matching: seq<Assignment>, row: Assignment)
    requires Choose(matching, View) == [row]
    ensures var outcome, doubt := ViewOutcome(entries, facts, app, matching), InheritanceUnknown(matching, [row], View);
      && (doubt ==> outcome == Unresolved(facts, "ASSIGNMENT_DEFAULT_INHERITANCE_UNKNOWN"))
      && (!doubt && Standard(row.pageType) ==> outcome == Layout(app, row.source))
      && (!doubt && !Standard(row.pageType) ==> outcome == PageOutcome(entries, facts, app, row))
  {
  }

  lemma NamedPage(entries: seq<PageEntry>, facts: Facts, app: App, row: Assignment, entry: PageEntry)
    requires row.pageType == FlexipageType && row.page.Some?
    requires Filter((p: PageEntry) => p.fullName == row.page.value, entries) == [entry]
    ensures PageOutcome(entries, facts, app, row) ==
      if entry.unsupported != [] then Unresolved(facts, entry.unsupported[0])
      else if entry.formSource == UNRESOLVED_SOURCE then Unresolved(facts, "UNSUPPORTED_PAGE")
      else Resolution(entry.formSource, RESOLVED, row.page, Some(app.fullName), Some(row.source), None)
  {
    assert entry in Filter((p: PageEntry) => p.fullName == row.page.value, entries);
  }

  /** The New rows come first: a tie, a doubtful default and a custom page each settle it. */
  lemma CreationDecides(s: Snapshot, facts: Facts, profile: string, recordType: string, app: App)
    ensures var rows, place := s.assignments, Here(facts, profile, recordType, app);
      var outcome := AppOutcome(s, facts, profile, recordType, app);
      && (Tied(rows, place, New) ==> outcome == Ambiguous(facts, "ASSIGNMENT_RESOLUTION_ERROR"))
      && (forall i :: Doubtful(rows, place, New, i) ==>
            outcome == Unresolved(facts, "ASSIGNMENT_DEFAULT_INHERITANCE_UNKNOWN"))
      && (forall i :: Departs(rows, place, New, i) ==>
            outcome == Resolution(CUSTOM_OVERRIDE, RESOLVED, None, Some(app.fullName), Some(rows[i].source),
                                  Some("CUSTOM_OVERRIDE_NOT_EVALUATED")))
  {
    var rows, place := s.assignments, Here(facts, profile, recordType, app);
    var outcome := AppOutcome(s, facts, profile, recordType, app);
    TiedChosen(rows, place, New);
    forall i | Sole(rows, place, New, i)
      ensures Doubtful(rows, place, New, i) ==> outcome == Unresolved(facts, "ASSIGNMENT_DEFAULT_INHERITANCE_UNKNOWN")
      ensures Departs(rows, place, New, i) ==>
                outcome == Resolution(CUSTOM_OVERRIDE, RESOLVED, None, Some(app.fullName), Some(rows[i].source),
                                      Some("CUSTOM_OVERRIDE_NOT_EVALUATED"))
    {
      SoleRow(rows, place, New, i);
      CreationRow(s.pages, facts, app, MatchingRows(rows, TargetOf(place)), rows[i]);
    }
  }

  lemma CreationPasses(s: Snapshot, facts: Facts, profile: string, recordType: string, app: App)
    requires LeavesStandard(s.assignments, Here(facts, profile, recordType, app), New)
    ensures AppOutcome(s, facts, profile, recordType, app) == ViewOutcome(s.pages, facts, app,
              MatchingRows(s.assignments, TargetOf(Here(facts, profile, recordType, app))))
  {
    var rows, place := s.assignments, Here(facts, profile, recordType, app);
    NoneChosen(rows, place, New);
    if i :| Sole(rows, place, New, i) && Standard(rows[i].pageType) && !Doubtful(rows, place, New, i) {
      SoleRow(rows, place, New, i);
      CreationRow(s.pages, facts, app, MatchingRows(rows, TargetOf(place)), rows[i]);
    }
  }

  /** Then the View rows: a tie, a doubtful default, and the standard page. */
  lemma ViewDecides(s: Snapshot, facts: Facts, profile: string, recordType: string, app: App)
    requires LeavesStandard(s.assignments, Here(facts, profile, recordType, app), New)
    ensures var rows, place := s.assignments, Here(facts, profile, recordType, app);
      var outcome := AppOutcome(s, facts, profile, recordType, app);
      && (Tied(rows, place, View) ==> outcome == Ambiguous(facts, "ASSIGNMENT_RESOLUTION_ERROR"))
      && (forall i :: Doubtful(rows, place, View, i) ==>
            outcome == Unresolved(facts, "ASSIGNMENT_DEFAULT_INHERITANCE_UNKNOWN"))
      && (NoRow(rows, place, View) ==> outcome == Layout(app, "SALESFORCE_STANDARD"))
      && (forall i :: Sole(rows, place, View, i) && Standard(rows[i].pageType) && !Doubtful(rows, place, View, i) ==>
            outcome == Layout(app, rows[i].source))
  {
    var rows, place := s.assignments, Here(facts, profile, recordType, app);
    var outcome := AppOutcome(s, facts, profile, recordType, app);
    CreationPasses(s, facts, profile, recordType, app);
    TiedChosen(rows, place, View);
    NoneChosen(rows, place, View);
    forall i | Sole(rows, place, View, i)
      ensures Doubtful(rows, place, View, i) ==> outcome == Unresolved(facts, "ASSIGNMENT_DEFAULT_INHERITANCE_UNKNOWN")
      ensures Standard(rows[i].pageType) && !Doubtful(rows, place, View, i) ==> outcome == Layout(app, rows[i].source)
    {
      SoleRow(rows, place, View, i);
      ViewRow(s.pages, facts, app, MatchingRows(rows, TargetOf(place)), rows[i]);
    }
  }

  /** Then the page the View row names: it has to be a page of the snapshot, once, with nothing
      unsupported on it. */
  lemma PageDecides(s: Snapshot, facts: Facts, profile: string, recordType: string, app: App, i: int)
    requires LeavesStandard(s.assignments, Here(facts, profile, recordType, app), New)
    requires Departs(s.assignments, Here(facts, profile, recordType, app), View, i)
    ensures var row, outcome := s.assignments[i], AppOutcome(s, facts, profile, recordType, app);
      && (row.pageType != FlexipageType || row.page == None ==> outcome == Unresolved(facts, "UNSUPPORTED_PAGE"))
      && (row.pageType == FlexipageType && row.page.Some? ==>
            && ((!exists k :: OnlyEntry(s.pages, row.page.value, k)) ==>
                  outcome == Unresolved(facts, "SNAPSHOT_MISSING"))
            && (forall k :: OnlyEntry(s.pages, row.page.value, k) ==>
                  outcome == (if s.pages[k].unsupported != [] then Unresolved(facts, s.pages[k].unsupported[0])
                              else if s.pages[k].formSource == UNRESOLVED_SOURCE then
                                Unresolved(facts, "UNSUPPORTED_PAGE")
                              else Resolution(s.pages[k].formSource, RESOLVED, row.page, Some(app.fullName),
                                              Some(row.source), None))))
  {
    var row := s.assignments[i];
    CreationPasses(s, facts, profile, recordType, app);
    var place := Here(facts, profile, recordType, app);
    SoleRow(s.assignments, place, View, i);
    ViewRow(s.pages, facts, app, MatchingRows(s.assignments, TargetOf(place)), row);
    if row.pageType.FlexipageType? && row.page.Some? {
      EntriesOfPage(s.pages, row.page.value);
      forall k | OnlyEntry(s.pages, row.page.value, k)
        ensures PageOutcome(s.pages, facts, app, row) ==
                (if s.pages[k].unsupported != [] then Unresolved(facts, s.pages[k].unsupported[0])
                 else if s.pages[k].formSource == UNRESOLVED_SOURCE then Unresolved(facts, "UNSUPPORTED_PAGE")
                 else Resolution(s.pages[k].formSource, RESOLVED, row.page, Some(app.fullName), Some(row.source), None))
      {
        NamedPage(s.pages, facts, app, row, s.pages[k]);
      }
    }
  }

  lemma EntriesOfPage(pages: seq<PageEntry>, page: string)
    ensures var named := Filter((p: PageEntry) => p.fullName == page, pages);
      && (|named| == 1 <==> exists k :: OnlyEntry(pages, page, k))
      && (forall k :: OnlyEntry(pages, page, k) ==> named == [pages[k]])
  {
    var isNamed := (p: PageEntry) => p.fullName == page;
    FilterSize(isNamed, pages);
    forall k ensures Only(isNamed, pages, k) <==> OnlyEntry(pages, page, k) {}
    forall k | Only(isNamed, pages, k) ensures Filter(isNamed, pages) == [pages[k]] {
      FilterOne(isNamed, pages, k);
    }
  }

  // ----- when an app's answer is which

  /** The View row's page may be used as it is. */
  ghost predicate Usable(s: Snapshot, row: Assignment) {
    row.pageType == FlexipageType && row.page.Some?
    && exists k :: OnlyEntry(s.pages, row.page.value, k) && s.pages[k].unsupported == []
                   && s.pages[k].formSource != UNRESOLVED_SOURCE
  }

  /** The answer from the ways of the two actions. */
  predicate Answers(s: Snapshot, facts: Facts, app: App, creation: Way, view: Way, usable: bool, outcome: Resolution) {
    match creation
    case Ties => outcome.status == AMBIGUOUS && outcome.page == None && outcome.formSource == AMBIGUOUS_SOURCE
    case Doubts(_) => outcome.status == UNRESOLVED && outcome.page == None && outcome.formSource == UNRESOLVED_SOURCE
    case Parts(_) => outcome.status == RESOLVED && outcome.page == None && outcome.formSource == CUSTOM_OVERRIDE
    case Leaves =>
      match view
      case Ties => outcome.status == AMBIGUOUS && outcome.page == None && outcome.formSource == AMBIGUOUS_SOURCE
      case Doubts(_) => outcome.status == UNRESOLVED && outcome.page == None && outcome.formSource == UNRESOLVED_SOURCE
      case Leaves => outcome.status == RESOLVED && outcome.page == None && outcome.formSource == PAGE_LAYOUT
      case Parts(i) =>
        && 0 <= i < |s.assignments|
        && (if usable then outcome.status == RESOLVED && outcome.page.Some? && outcome.page == s.assignments[i].page
            else outcome.status == UNRESOLVED && outcome.page == None && outcome.formSource == UNRESOLVED_SOURCE)
  }

  lemma PageFits(s: Snapshot, facts: Facts, profile: string, recordType: string, app: App, i: int)
    requires LeavesStandard(s.assignments, Here(facts, profile, recordType, app), New)
    requires Departs(s.assignments, Here(facts, profile, recordType, app), View, i)
    ensures Answers(s, facts, app, Leaves, Parts(i), Usable(s, s.assignments[i]),
                    AppOutcome(s, facts, profile, recordType, app))
  {
    PageDecides(s, facts, profile, recordType, app, i);
  }

  lemma Ways(s: Snapshot, facts: Facts, profile: string, recordType: string, app: App)
    returns (creation: Way, view: Way, usable: bool)
    ensures var rows, place := s.assignments, Here(facts, profile, recordType, app);
      && (Tied(rows, place, New) <==> creation == Ties)
      && (LeavesStandard(rows, place, New) <==> creation == Leaves)
      && (forall i :: Departs(rows, place, New, i) <==> creation == Parts(i))
      && (Tied(rows, place, View) <==> view == Ties)
      && (LeavesStandard(rows, place, View) <==> view == Leaves)
      && (forall i :: Departs(rows, place, View, i) <==> view == Parts(i))
      && (view.Parts? ==> 0 <= view.i < |rows| && (usable <==> Usable(s, rows[view.i])))
    ensures Answers(s, facts, app, creation, view, usable, AppOutcome(s, facts, profile, recordType, app))
  {
    var rows, place := s.assignments, Here(facts, profile, recordType, app);
    creation := WayOf(rows, place, New);
    view := WayOf(rows, place, View);
    usable := view.Parts? && Departs(rows, place, View, view.i) && Usable(s, rows[view.i]);
    CreationDecides(s, facts, profile, recordType, app);
    if creation == Leaves {
      ViewDecides(s, facts, profile, recordType, app);
      if view.Parts? {
        PageFits(s, facts, profile, recordType, app, view.i);
      }
    }
  }

  /** Only tied rows make an app's answer ambiguous: of New, or of View if New leaves the standard page. */
  lemma AmbiguousExactly(s: Snapshot, facts: Facts, profile: string, recordType: string, app: App)
    ensures var rows, place := s.assignments, Here(facts, profile, recordType, app);
      AppOutcome(s, facts, profile, recordType, app).status == AMBIGUOUS <==>
        Tied(rows, place, New) || (LeavesStandard(rows, place, New) && Tied(rows, place, View))
  {
    var creation, view, usable := Ways(s, facts, profile, recordType, app);
  }

  /** A custom page for New is what makes an app's answer the custom override. */
  lemma CustomOverrideExactly(s: Snapshot, facts: Facts, profile: string, recordType: string, app: App)
    ensures var outcome := AppOutcome(s, facts, profile, recordType, app);
      outcome.formSource == CUSTOM_OVERRIDE && outcome.page == None <==>
        exists i :: Departs(s.assignments, Here(facts, profile, recordType, app), New, i)
  {
    var creation, view, usable := Ways(s, facts, profile, recordType, app);
    if creation.Parts? {
      assert Departs(s.assignments, Here(facts, profile, recordType, app), New, creation.i);
    }
  }

  /** The page layout is the answer when both actions leave the standard page. */
  lemma PageLayoutExactly(s: Snapshot, facts: Facts, profile: string, recordType: string, app: App)
    ensures var rows, place := s.assignments, Here(facts, profile, recordType, app);
      var outcome := AppOutcome(s, facts, profile, recordType, app);
      outcome.formSource == PAGE_LAYOUT && outcome.page == None <==>
        LeavesStandard(rows, place, New) && LeavesStandard(rows, place, View)
  {
    var creation, view, usable := Ways(s, facts, profile, recordType, app);
  }

  /** A page of its own is the answer when New leaves the standard page and the sole View row
      names a usable page; it is that page. */
  lemma OwnPageExactly(s: Snapshot, facts: Facts, profile: string, recordType: string, app: App, page: string)
    ensures var rows, place := s.assignments, Here(facts, profile, recordType, app);
      AppOutcome(s, facts, profile, recordType, app).page == Some(page) <==>
        && LeavesStandard(rows, place, New)
        && exists i :: Departs(rows, place, View, i) && Usable(s, rows[i]) && rows[i].page == Some(page)
  {
    var creation, view, usable := Ways(s, facts, profile, recordType, app);
    if view.Parts? {
      assert Departs(s.assignments, Here(facts, profile, recordType, app), View, view.i);
    }
  }
}

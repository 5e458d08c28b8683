/** What the FlexiPage walk guarantees on any region graph. */
module FlexiPageProperties {
  import opened Wrappers
  import opened FlexiPage
  import opened Visibility
  import opened VisibilityRules
  import opened EffectiveFields

  // ----- where an emitted field comes from

  predicate IsRoot(regions: seq<Region>, name: string) {
    exists k :: 0 <= k < |regions| && regions[k].isRoot && regions[k].name == Some(name)
  }

  /** Component `c` of region `from` refers to region `to`. */
  predicate Hop(regions: seq<Region>, from: string, c: Component, to: string) {
    var region := Find(regions, from);
    && region.Some?
    && (exists i :: 0 <= i < |region.value.items| && region.value.items[i].component == Some(c))
    && !c.kind.MobileDetail? && to in c.refs
  }

  /** `path` is a simple path from a root region, following the references of `trail`. */
  predicate PathOk(regions: seq<Region>, path: seq<string>, trail: seq<Component>) {
    && |path| == |trail| + 1 <= MAX_ANCESTRY + 1
    && IsRoot(regions, path[0])
    && (forall i, j :: 0 <= i < j < |path| ==> path[i] != path[j])
    && (forall h :: 0 <= h < |trail| ==> Hop(regions, path[h], trail[h], path[h + 1]))
  }

  predicate FieldOk(regions: seq<Region>, f: Field) {
    && PathOk(regions, f.ancestry, f.trail)
    && var region := Find(regions, f.ancestry[|f.ancestry| - 1]);
    && region.Some?
    && exists i :: 0 <= i < |region.value.items| && FieldOf(region.value.items[i], f)
  }

  /** The item's own field, with the container rules of the trail followed by its own. */
  predicate FieldOf(item: Item, f: Field) {
    && item.field.Some? && item.field.value.node == f.node && item.field.value.apiName == Some(f.apiName)
    && f.rules == TrailRules(f.trail) + FieldRules(item.field.value)
    && f.required == item.field.value.behavior.Required? && f.readOnly == item.field.value.behavior.ReadOnly?
  }

  predicate FieldsOk(regions: seq<Region>, w: Walk) {
    forall i :: 0 <= i < |w.fields| ==> w.fields[i].order == i && FieldOk(regions, w.fields[i])
  }

  predicate Emitted(fields: seq<Field>, node: nat) {
    exists i :: 0 <= i < |fields| && fields[i].node == node
  }

  /** Only placed fields are visited, and a visited field is emitted unless its placement is flagged. */
  predicate VisitedOk(regions: seq<Region>, w: Walk) {
    && (forall v :: v in w.visited ==> v in PlacedNodes(regions))
    && (forall v :: v in w.visited && UNSUPPORTED_FIELD_PLACEMENT !in w.unsupported ==> Emitted(w.fields, v))
    && (forall i :: 0 <= i < |w.fields| ==> w.fields[i].node in w.visited)
  }

  predicate WalkOk(regions: seq<Region>, w: Walk) {
    FieldsOk(regions, w) && VisitedOk(regions, w) && UNREACHABLE_FIELDS !in w.unsupported
  }

  // ----- placed nodes

  lemma {:induction false} FieldNodeListed(items: seq<Item>, i: nat)
    requires i < |items| && items[i].field.Some?
    ensures items[i].field.value.node in FieldNodes(items)
  {
    var k := |items| - 1;
    if i < k {
      assert items[..k][i] == items[i];
      FieldNodeListed(items[..k], i);
    }
  }

  lemma {:induction false} FoundNodeListed(regions: seq<Region>, name: string, i: nat)
    requires Find(regions, name).Some? && i < |Find(regions, name).value.items|
    requires Find(regions, name).value.items[i].field.Some?
    ensures Find(regions, name).value.items[i].field.value.node in PlacedNodes(regions)
  {
    var k := |regions| - 1;
    if RegionKey(regions[k]) == Some(name) {
      FieldNodeListed(regions[k].items, i);
    } else {
      FoundNodeListed(regions[..k], name, i);
    }
  }

  // ----- one field

  lemma TakeFieldKeeps(regions: seq<Region>, i: nat, path: seq<string>, ctx: Context, trail: seq<Component>, w: Walk)
    requires PathOk(regions, path, trail) && ctx.rules == TrailRules(trail) && WalkOk(regions, w)
    requires var region := Find(regions, path[|path| - 1]); region.Some? && i < |region.value.items|
    ensures WalkOk(regions, TakeField(Find(regions, path[|path| - 1]).value.items[i], path, ctx, trail, w))
  {
    var item := Find(regions, path[|path| - 1]).value.items[i];
    if item.field.Some? {
      FoundNodeListed(regions, path[|path| - 1], i);
      var w' := TakeField(item, path, ctx, trail, w);
      if Placed(item.field.value, ctx) {
        var f := w'.fields[|w.fields|];
        assert FieldOf(item, f) && FieldOk(regions, f);
      }
      TakenEmitted(item, path, ctx, trail, w);
    }
  }

  lemma TakenEmitted(item: Item, path: seq<string>, ctx: Context, trail: seq<Component>, w: Walk)
    requires item.field.Some?
    requires forall v :: v in w.visited && UNSUPPORTED_FIELD_PLACEMENT !in w.unsupported ==> Emitted(w.fields, v)
    ensures var w' := TakeField(item, path, ctx, trail, w);
      forall v :: v in w'.visited && UNSUPPORTED_FIELD_PLACEMENT !in w'.unsupported ==> Emitted(w'.fields, v)
  {
    var w' := TakeField(item, path, ctx, trail, w);
    forall v | v in w'.visited && UNSUPPORTED_FIELD_PLACEMENT !in w'.unsupported ensures Emitted(w'.fields, v) {
      if v == item.field.value.node {
        assert w'.fields[|w.fields|].node == v;
      } else {
        var i :| 0 <= i < |w.fields| && w.fields[i].node == v;
        assert w'.fields[i].node == v;
      }
    }
  }

  // ----- the walk, call by call

  /** A visit to `name` is about to start: from the roots, or through the last component of the trail. */
  predicate Arrives(regions: seq<Region>, name: string, ancestry: seq<string>, trail: seq<Component>) {
    if ancestry == [] then trail == [] && IsRoot(regions, name)
    else
      && |trail| == |ancestry| && PathOk(regions, ancestry, trail[..|trail| - 1])
      && Hop(regions, ancestry[|ancestry| - 1], trail[|trail| - 1], name)
  }

  lemma ArrivalExtendsPath(regions: seq<Region>, name: string, ancestry: seq<string>, trail: seq<Component>)
    requires Arrives(regions, name, ancestry, trail) && name !in ancestry && |ancestry| <= MAX_ANCESTRY
    ensures PathOk(regions, ancestry + [name], trail)
  {
    var path := ancestry + [name];
    if ancestry != [] {
      forall h | 0 <= h < |trail| ensures Hop(regions, path[h], trail[h], path[h + 1]) {
        if h < |trail| - 1 {
          assert trail[..|trail| - 1][h] == trail[h];
        }
      }
    }
  }

  lemma {:induction false} VisitKeeps(regions: seq<Region>, name: string, ancestry: seq<string>, ctx: Context,
                                      trail: seq<Component>, w: Walk)
    requires Arrives(regions, name, ancestry, trail) && ctx.rules == TrailRules(trail) && WalkOk(regions, w)
    ensures var r := Visit(regions, name, ancestry, ctx, trail, w); r.Got? ==> WalkOk(regions, r.value)
    decreases MAX_STEPS + 1 - w.steps, 0, 0
  {
    if Visit(regions, name, ancestry, ctx, trail, w).Got? {
      ArrivalExtendsPath(regions, name, ancestry, trail);
      VisitItemsKeeps(regions, 0, ancestry + [name], ctx, trail, w.(steps := w.steps + 1));
    }
  }

  lemma {:induction false} VisitItemsKeeps(regions: seq<Region>, i: nat, path: seq<string>, ctx: Context,
                                           trail: seq<Component>, w: Walk)
    requires PathOk(regions, path, trail) && ctx.rules == TrailRules(trail) && WalkOk(regions, w)
        && w.steps <= MAX_STEPS
    requires var region := Find(regions, path[|path| - 1]); region.Some? && i <= |region.value.items|
    ensures var r := VisitItems(regions, Find(regions, path[|path| - 1]).value.items, i, path, ctx, trail, w);
      r.Got? ==> WalkOk(regions, r.value)
    decreases MAX_STEPS + 1 - w.steps, 3, |Find(regions, path[|path| - 1]).value.items| - i
  {
    var items := Find(regions, path[|path| - 1]).value.items;
    if i < |items| {
      VisitItemKeeps(regions, i, path, ctx, trail, w);
      var r := VisitItem(regions, items[i], i, path, ctx, trail, w);
      if r.Got? {
        VisitItemsKeeps(regions, i + 1, path, ctx, trail, r.value);
      }
    }
  }

  lemma {:induction false} VisitItemKeeps(regions: seq<Region>, i: nat, path: seq<string>, ctx: Context,
                                          trail: seq<Component>, w: Walk)
    requires PathOk(regions, path, trail) && ctx.rules == TrailRules(trail) && WalkOk(regions, w)
        && w.steps <= MAX_STEPS
    requires var region := Find(regions, path[|path| - 1]); region.Some? && i < |region.value.items|
    ensures var r := VisitItem(regions, Find(regions, path[|path| - 1]).value.items[i], i, path, ctx, trail, w);
      r.Got? ==> WalkOk(regions, r.value)
    decreases MAX_STEPS + 1 - w.steps, 2, 0
  {
    var item := Find(regions, path[|path| - 1]).value.items[i];
    TakeFieldKeeps(regions, i, path, ctx, trail, w);
    var w1 := TakeField(item, path, ctx, trail, w);
    if !Skips(item, ctx) {
      var c := item.component.value;
      assert (trail + [c])[..|trail|] == trail;
      var ctx1 := Enter(c, ctx, w1.sectionCounter);
      VisitRefsKeeps(regions, c, 0, i, path, ctx1, trail + [c], EnterWalk(c, w1));
    }
  }

  lemma {:induction false} VisitRefsKeeps(regions: seq<Region>, c: Component, j: nat, i: nat, path: seq<string>,
                                          ctx: Context, trail: seq<Component>, w: Walk)
    requires |trail| > 0 && trail[|trail| - 1] == c && PathOk(regions, path, trail[..|trail| - 1])
    requires var region := Find(regions, path[|path| - 1]);
      region.Some? && i < |region.value.items| && region.value.items[i].component == Some(c)
    requires !c.kind.MobileDetail? && j <= |c.refs|
    requires ctx.rules == TrailRules(trail) && WalkOk(regions, w) && w.steps <= MAX_STEPS
    ensures var r := VisitRefs(regions, c, j, i, path, ctx, trail, w); r.Got? ==> WalkOk(regions, r.value)
    decreases MAX_STEPS + 1 - w.steps, 1, |c.refs| - j
  {
    if j < |c.refs| {
      var ctx1 := ctx.(column := ColumnOf(c, i, j, ctx.column));
      VisitKeeps(regions, c.refs[j], path, ctx1, trail, w);
      var r := Visit(regions, c.refs[j], path, ctx1, trail, w);
      if r.Got? {
        VisitRefsKeeps(regions, c, j + 1, i, path, ctx, trail, r.value);
      }
    }
  }

  lemma {:induction false} VisitRootsKeeps(regions: seq<Region>, k: nat, w: Walk)
    requires k <= |regions| && WalkOk(regions, w) && w.steps <= MAX_STEPS
    ensures var r := VisitRoots(regions, k, w); r.Got? ==> WalkOk(regions, r.value)
    decreases |regions| - k
  {
    if k < |regions| {
      if regions[k].isRoot && regions[k].name.Some? {
        VisitKeeps(regions, regions[k].name.value, [], StartContext(), [], w);
        var r := Visit(regions, regions[k].name.value, [], StartContext(), [], w);
        if r.Got? {
          VisitRootsKeeps(regions, k + 1, r.value);
        }
      } else {
        VisitRootsKeeps(regions, k + 1, w);
      }
    }
  }

  // ----- the page

  /** No two items place the same field object. */
  predicate NodesDistinct(regions: seq<Region>) {
    forall i, j :: 0 <= i < j < |PlacedNodes(regions)| ==> PlacedNodes(regions)[i] != PlacedNodes(regions)[j]
  }

  function Elements(s: seq<nat>): (r: set<nat>)
    ensures forall x :: x in r <==> x in s
  {
    set x | x in s
  }

  lemma {:induction false} DistinctCount(s: seq<nat>)
    requires forall i, j :: 0 <= i < j < |s| ==> s[i] != s[j]
    ensures |Elements(s)| == |s|
  {
    if s != [] {
      var k := |s| - 1;
      DistinctCount(s[..k]);
      assert s == s[..k] + [s[k]];
      assert Elements(s) == Elements(s[..k]) + {s[k]};
    }
  }

  lemma SubsetOfSameSize(a: set<nat>, b: set<nat>)
    requires a <= b
    ensures |a| == |b| <==> a == b
  {
    assert b == a + (b - a);
    assert |b| == |a| + |b - a|;
  }

  /** The walk of a parsed page. */
  function WalkOf(page: RawPage): Result<Walk> {
    VisitRoots(page.regions, 0, StartWalk(page))
  }

  /** The guarantees of a parsed page: at most 3000 visits; every field in its place in the
      order, on a simple path from a root with the rules of the containers passed; and, when
      no field object is placed twice, UNREACHABLE_FIELDS exactly when some placed field was
      not visited. */
  lemma ParsedPageSound(page: RawPage)
    requires Parse(page).Got?
    ensures WalkOf(page).Got? && WalkOf(page).value.steps <= MAX_STEPS
    ensures var p := Parse(page).value; forall i :: 0 <= i < |p.fields| ==>
        p.fields[i].order == i && FieldOk(page.regions, p.fields[i])
    ensures NodesDistinct(page.regions) ==>
              (UNREACHABLE_FIELDS !in Parse(page).value.unsupported <==>
               forall v :: v in PlacedNodes(page.regions) ==> v in WalkOf(page).value.visited)
  {
    VisitRootsKeeps(page.regions, 0, StartWalk(page));
    var w := WalkOf(page).value;
    if NodesDistinct(page.regions) {
      var placed := Elements(PlacedNodes(page.regions));
      DistinctCount(PlacedNodes(page.regions));
      assert w.visited <= placed;
      SubsetOfSameSize(w.visited, placed);
      assert w.visited == placed <==> forall v :: v in PlacedNodes(page.regions) ==> v in w.visited;
    }
  }

  /** A page without the two markers shows every field it places. */
  lemma UnmarkedPageIsComplete(page: RawPage, node: nat)
    requires Parse(page).Got? && NodesDistinct(page.regions) && node in PlacedNodes(page.regions)
    requires UNREACHABLE_FIELDS !in Parse(page).value.unsupported
    requires UNSUPPORTED_FIELD_PLACEMENT !in Parse(page).value.unsupported
    ensures Emitted(Parse(page).value.fields, node)
  {
    ParsedPageSound(page);
    VisitRootsKeeps(page.regions, 0, StartWalk(page));
  }

  // ----- containers govern their contents

  lemma {:induction false} TrailRuleInherited(trail: seq<Component>, k: nat, sr: ScopedRule)
    requires k < |trail| && sr in ContainerRules(trail[k])
    ensures sr in TrailRules(trail)
  {
    var last := |trail| - 1;
    if k < last {
      assert trail[..last][k] == trail[k];
      TrailRuleInherited(trail[..last], k, sr);
    }
  }

  lemma EmittedRules(page: RawPage, i: nat)
    requires Parse(page).Got? && i < |Parse(page).value.fields|
    ensures var f := Parse(page).value.fields[i]; forall sr :: sr in TrailRules(f.trail) ==> sr in f.rules
  {
    ParsedPageSound(page);
  }

  /** Every component passed on the way of an emitted field did refer to a region. */
  lemma TrailRefers(page: RawPage, i: nat, k: nat)
    requires Parse(page).Got? && i < |Parse(page).value.fields| && k < |Parse(page).value.fields[i].trail|
    ensures var f := Parse(page).value.fields[i]; k + 1 < |f.ancestry| && f.ancestry[k + 1] in f.trail[k].refs
  {
    ParsedPageSound(page);
    var f := Parse(page).value.fields[i];
    assert FieldOk(page.regions, f);
    assert Hop(page.regions, f.ancestry[k], f.trail[k], f.ancestry[k + 1]);
  }

  /** A field below a HIDDEN container is HIDDEN, and a field below a component that is no
      known container but refers to regions is HIDDEN or UNKNOWN, whatever its other rules say. */
  lemma ContainersGovern(page: RawPage, i: nat, k: nat, facts: Facts)
    requires Parse(page).Got? && i < |Parse(page).value.fields| && k < |Parse(page).value.fields[i].trail|
    ensures var f := Parse(page).value.fields[i];
      var c := f.trail[k];
      && (c.rule.Some? && Evaluate(c.rule.value, facts, CONTAINER).state == HIDDEN ==>
          InstanceState(f.rules, facts) == HIDDEN)
      && (!KnownContainer(c.kind) ==>
            InstanceState(f.rules, facts) == HIDDEN || InstanceState(f.rules, facts) == UNKNOWN)
  {
    var f := Parse(page).value.fields[i];
    var c := f.trail[k];
    EmittedRules(page, i);
    InstanceMeaning(f.rules, facts);
    if c.rule.Some? {
      var sr := ScopedRule.ScopedRule(CONTAINER, c.rule.value);
      assert ContainerRules(c)[0] == sr;
      TrailRuleInherited(f.trail, k, sr);
    }
    TrailRefers(page, i, k);
    if !KnownContainer(c.kind) {
      var sr := ScopedRule.ScopedRule(CONTAINER, UNSUPPORTED_RULE);
      assert ContainerRules(c)[|ContainerRules(c)| - 1] == sr;
      TrailRuleInherited(f.trail, k, sr);
    }
  }
}

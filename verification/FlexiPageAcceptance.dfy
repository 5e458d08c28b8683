/** Which FlexiPages are accepted: a page is refused only for a reason. The walk gets to its end
    exactly when every chain of references is free of repetition, short enough and leads to a
    region that exists, and the visits it takes are within the bound. */
module FlexiPageAcceptance {
  import opened Wrappers
  import opened FlexiPage
  import opened FlexiPageProperties
  import opened FlexiPageChains
  import opened FlexiPagePlaces

  // ----- how many visits a region takes

  /** The item is left before its references are followed. */
  predicate LeavesEarly(item: Item, inSection: bool) {
    || (item.field.Some? && !(item.field.value.apiName.Some? && inSection))
    || item.component.None? || item.component.value.kind.MobileDetail?
  }

  predicate OpenBelow(c: Component, inSection: bool) {
    if c.kind.FieldSection? then c.caption != Some("") else inSection
  }

  /** The visits of a region and of everything it leads to, down to `depth` references. */
  function Visits(regions: seq<Region>, name: string, inSection: bool, depth: nat): nat
    decreases depth, 0, 0
  {
    1 + match Find(regions, name)
        case None => 0
        case Some(region) => if depth == 0 then 0 else VisitsOfItems(regions, region.items, 0, inSection, depth - 1)
  }

  function VisitsOfItems(regions: seq<Region>, items: seq<Item>, i: nat, inSection: bool, depth: nat): nat
    requires i <= |items|
    decreases depth, 2, |items| - i
  {
    if i == |items| then 0
    else
      (if LeavesEarly(items[i], inSection) then 0
       else VisitsOfRefs(regions, items[i].component.value, 0, OpenBelow(items[i].component.value, inSection), depth))
      + VisitsOfItems(regions, items, i + 1, inSection, depth)
  }

  function VisitsOfRefs(regions: seq<Region>, c: Component, j: nat, inSection: bool, depth: nat): nat
    requires j <= |c.refs|
    decreases depth, 1, |c.refs| - j
  {
    if j == |c.refs| then 0
    else Visits(regions, c.refs[j], inSection, depth) + VisitsOfRefs(regions, c, j + 1, inSection, depth)
  }

  function VisitsOfRoots(regions: seq<Region>, k: nat): nat
    requires k <= |regions|
    decreases |regions| - k
  {
    if k == |regions| then 0
    else
      (if regions[k].isRoot && regions[k].name.Some? then
         Visits(regions, regions[k].name.value, false, MAX_ANCESTRY + 1)
       else 0) + VisitsOfRoots(regions, k + 1)
  }

  // ----- chains without fault

  /** The chain does not come back to a region and is not too long. */
  predicate IsSimple(path: seq<string>) {
    path != [] && |path| <= 26 && path[|path| - 1] !in path[..|path| - 1]
  }

  ghost predicate ChainsSimple(regions: seq<Region>) {
    forall path, trail :: Chain(regions, path, trail) ==> IsSimple(path)
  }

  /** Some chain leads to a region that does not exist. */
  ghost predicate Dangles(regions: seq<Region>) {
    exists path, trail :: DanglingChain(regions, path, trail)
  }

  predicate DanglingChain(regions: seq<Region>, path: seq<string>, trail: seq<Component>) {
    Chain(regions, path, trail) && Find(regions, path[|path| - 1]).None?
  }

  /** The walk takes this many steps, or runs out of them, or comes upon a missing region. */
  ghost predicate Takes(regions: seq<Region>, w: Walk, r: Result<Walk>, visits: nat) {
    || (r == Threw(MISSING_REGION) && Dangles(regions))
    || (if w.steps + visits <= MAX_STEPS then r.Got? && r.value.steps == w.steps + visits
        else r == Threw(CYCLE_OR_BOUND))
  }

  lemma {:induction false} VisitTakes(regions: seq<Region>, name: string, ancestry: seq<string>, ctx: Context,
                                      trail: seq<Component>, w: Walk, depth: nat)
    requires ChainsSimple(regions) && Approaches(regions, name, ancestry, trail)
    requires (InOpenSection(ctx) <==> InSection(trail)) && |ancestry| + depth == MAX_ANCESTRY + 1
    requires w.steps <= MAX_STEPS
    ensures Takes(regions, w, Visit(regions, name, ancestry, ctx, trail, w),
                  Visits(regions, name, InSection(trail), depth))
    decreases MAX_STEPS + 1 - w.steps, 0, 0
  {
    ApproachExtendsChain(regions, name, ancestry, trail);
    var path := ancestry + [name];
    assert IsSimple(path) && path[..|path| - 1] == ancestry;
    if Find(regions, name).None? {
      assert DanglingChain(regions, path, trail);
    } else if w.steps < MAX_STEPS {
      VisitItemsTakes(regions, 0, path, ctx, trail, w.(steps := w.steps + 1), depth - 1);
    }
  }

  lemma {:induction false} VisitItemsTakes(regions: seq<Region>, i: nat, path: seq<string>, ctx: Context,
                                           trail: seq<Component>, w: Walk, depth: nat)
    requires ChainsSimple(regions) && Chain(regions, path, trail)
    requires (InOpenSection(ctx) <==> InSection(trail)) && |path| + depth == MAX_ANCESTRY + 1
    requires w.steps <= MAX_STEPS
    requires var region := Find(regions, path[|path| - 1]); region.Some? && i <= |region.value.items|
    ensures var items := Find(regions, path[|path| - 1]).value.items;
      Takes(regions, w, VisitItems(regions, items, i, path, ctx, trail, w),
            VisitsOfItems(regions, items, i, InSection(trail), depth))
    decreases MAX_STEPS + 1 - w.steps, 3, |Find(regions, path[|path| - 1]).value.items| - i
  {
    var items := Find(regions, path[|path| - 1]).value.items;
    if i < |items| {
      VisitItemTakes(regions, i, path, ctx, trail, w, depth);
      var r := VisitItem(regions, items[i], i, path, ctx, trail, w);
      if r.Got? {
        VisitItemsTakes(regions, i + 1, path, ctx, trail, r.value, depth);
      }
    }
  }

  function VisitsOfItem(regions: seq<Region>, item: Item, inSection: bool, depth: nat): nat {
    if LeavesEarly(item, inSection) then 0
    else VisitsOfRefs(regions, item.component.value, 0, OpenBelow(item.component.value, inSection), depth)
  }

  lemma {:induction false} VisitItemTakes(regions: seq<Region>, i: nat, path: seq<string>, ctx: Context,
                                          trail: seq<Component>, w: Walk, depth: nat)
    requires ChainsSimple(regions) && Chain(regions, path, trail)
    requires (InOpenSection(ctx) <==> InSection(trail)) && |path| + depth == MAX_ANCESTRY + 1
    requires w.steps <= MAX_STEPS
    requires var region := Find(regions, path[|path| - 1]); region.Some? && i < |region.value.items|
    ensures var item := Find(regions, path[|path| - 1]).value.items[i];
      Takes(regions, w, VisitItem(regions, item, i, path, ctx, trail, w),
            VisitsOfItem(regions, item, InSection(trail), depth))
    decreases MAX_STEPS + 1 - w.steps, 2, 0
  {
    var item := Find(regions, path[|path| - 1]).value.items[i];
    var w1 := TakeField(item, path, ctx, trail, w);
    assert Skips(item, ctx) <==> LeavesEarly(item, InSection(trail));
    if !Skips(item, ctx) {
      VisitRefsTakes(regions, item.component.value, 0, i, path, ctx, w1.sectionCounter, trail,
                     EnterWalk(item.component.value, w1), depth);
    }
  }

  lemma {:induction false} VisitRefsTakes(regions: seq<Region>, c: Component, j: nat, i: nat, path: seq<string>,
                                          ctx: Context, sectionCounter: nat, trail: seq<Component>, w: Walk,
                                          depth: nat)
    requires ChainsSimple(regions) && Chain(regions, path, trail)
    requires (InOpenSection(ctx) <==> InSection(trail)) && |path| + depth == MAX_ANCESTRY + 1
    requires j <= |c.refs| && w.steps <= MAX_STEPS && !c.kind.MobileDetail?
    requires var region := Find(regions, path[|path| - 1]);
      && region.Some? && i < |region.value.items| && region.value.items[i].component == Some(c)
      && (region.value.items[i].field.Some? ==> Supported(region.value.items[i].field.value, trail))
    ensures Takes(regions, w, VisitRefs(regions, c, j, i, path, Enter(c, ctx, sectionCounter), trail + [c], w),
                  VisitsOfRefs(regions, c, j, OpenBelow(c, InSection(trail)), depth))
    decreases MAX_STEPS + 1 - w.steps, 1, |c.refs| - j
  {
    if j < |c.refs| {
      var inner := Enter(c, ctx, sectionCounter);
      var below := inner.(column := ColumnOf(c, i, j, inner.column));
      SectionFollows(c, ctx, sectionCounter, trail);
      InSectionSnoc(trail, c);
      assert (trail + [c])[..|trail|] == trail;
      assert Passes(Find(regions, path[|path| - 1]).value.items[i], trail, c, c.refs[j]);
      VisitTakes(regions, c.refs[j], path, below, trail + [c], w, depth);
      var r := Visit(regions, c.refs[j], path, below, trail + [c], w);
      if r.Got? {
        VisitRefsTakes(regions, c, j + 1, i, path, ctx, sectionCounter, trail, r.value, depth);
      }
    }
  }

  lemma {:induction false} VisitRootsTakes(regions: seq<Region>, k: nat, w: Walk)
    requires ChainsSimple(regions) && k <= |regions| && w.steps <= MAX_STEPS
    ensures Takes(regions, w, VisitRoots(regions, k, w), VisitsOfRoots(regions, k))
    decreases |regions| - k
  {
    if k < |regions| {
      if regions[k].isRoot && regions[k].name.Some? {
        VisitTakes(regions, regions[k].name.value, [], StartContext(), [], w, MAX_ANCESTRY + 1);
        var r := Visit(regions, regions[k].name.value, [], StartContext(), [], w);
        if r.Got? {
          VisitRootsTakes(regions, k + 1, r.value);
        }
      } else {
        VisitRootsTakes(regions, k + 1, w);
      }
    }
  }

  // ----- a missing region is reported only for a chain that dangles

  ghost predicate RefusedRightly(regions: seq<Region>, r: Result<Walk>) {
    r.Threw? ==> r.error == CYCLE_OR_BOUND || (r.error == MISSING_REGION && Dangles(regions))
  }

  lemma {:induction false} VisitMisses(regions: seq<Region>, name: string, ancestry: seq<string>, ctx: Context,
                                       trail: seq<Component>, w: Walk)
    requires Approaches(regions, name, ancestry, trail) && (InOpenSection(ctx) <==> InSection(trail))
    ensures RefusedRightly(regions, Visit(regions, name, ancestry, ctx, trail, w))
    decreases MAX_STEPS + 1 - w.steps, 0, 0
  {
    ApproachExtendsChain(regions, name, ancestry, trail);
    var path := ancestry + [name];
    if Find(regions, name).None? {
      assert DanglingChain(regions, path, trail);
    } else if w.steps < MAX_STEPS {
      VisitItemsMisses(regions, 0, path, ctx, trail, w.(steps := w.steps + 1));
    }
  }

  lemma {:induction false} VisitItemsMisses(regions: seq<Region>, i: nat, path: seq<string>, ctx: Context,
                                            trail: seq<Component>, w: Walk)
    requires Chain(regions, path, trail) && (InOpenSection(ctx) <==> InSection(trail)) && w.steps <= MAX_STEPS
    requires var region := Find(regions, path[|path| - 1]); region.Some? && i <= |region.value.items|
    ensures var items := Find(regions, path[|path| - 1]).value.items;
      RefusedRightly(regions, VisitItems(regions, items, i, path, ctx, trail, w))
    decreases MAX_STEPS + 1 - w.steps, 3, |Find(regions, path[|path| - 1]).value.items| - i
  {
    var items := Find(regions, path[|path| - 1]).value.items;
    if i < |items| {
      var w1 := TakeField(items[i], path, ctx, trail, w);
      if !Skips(items[i], ctx) {
        VisitRefsMisses(regions, items[i].component.value, 0, i, path, ctx, w1.sectionCounter, trail,
                        EnterWalk(items[i].component.value, w1));
      }
      var r := VisitItem(regions, items[i], i, path, ctx, trail, w);
      if r.Got? {
        VisitItemsMisses(regions, i + 1, path, ctx, trail, r.value);
      }
    }
  }

  lemma {:induction false} VisitRefsMisses(regions: seq<Region>, c: Component, j: nat, i: nat, path: seq<string>,
                                           ctx: Context, sectionCounter: nat, trail: seq<Component>, w: Walk)
    requires Chain(regions, path, trail) && (InOpenSection(ctx) <==> InSection(trail))
    requires j <= |c.refs| && w.steps <= MAX_STEPS && !c.kind.MobileDetail?
    requires var region := Find(regions, path[|path| - 1]);
      && region.Some? && i < |region.value.items| && region.value.items[i].component == Some(c)
      && (region.value.items[i].field.Some? ==> Supported(region.value.items[i].field.value, trail))
    ensures RefusedRightly(regions, VisitRefs(regions, c, j, i, path, Enter(c, ctx, sectionCounter), trail + [c], w))
    decreases MAX_STEPS + 1 - w.steps, 1, |c.refs| - j
  {
    if j < |c.refs| {
      var inner := Enter(c, ctx, sectionCounter);
      var below := inner.(column := ColumnOf(c, i, j, inner.column));
      SectionFollows(c, ctx, sectionCounter, trail);
      assert (trail + [c])[..|trail|] == trail;
      assert Passes(Find(regions, path[|path| - 1]).value.items[i], trail, c, c.refs[j]);
      VisitMisses(regions, c.refs[j], path, below, trail + [c], w);
      var r := Visit(regions, c.refs[j], path, below, trail + [c], w);
      if r.Got? {
        VisitRefsMisses(regions, c, j + 1, i, path, ctx, sectionCounter, trail, r.value);
      }
    }
  }

  lemma {:induction false} VisitRootsMisses(regions: seq<Region>, k: nat, w: Walk)
    requires k <= |regions| && w.steps <= MAX_STEPS
    ensures RefusedRightly(regions, VisitRoots(regions, k, w))
    decreases |regions| - k
  {
    if k < |regions| {
      if regions[k].isRoot && regions[k].name.Some? {
        VisitMisses(regions, regions[k].name.value, [], StartContext(), [], w);
        var r := Visit(regions, regions[k].name.value, [], StartContext(), [], w);
        if r.Got? {
          VisitRootsMisses(regions, k + 1, r.value);
        }
      } else {
        VisitRootsMisses(regions, k + 1, w);
      }
    }
  }

  // ----- what is accepted

  /** The walk of a page gets to its end exactly when its chains are simple and lead to regions
      that exist and its visits are within the bound; it then took exactly these visits. A walk
      that does not reports a missing region only for a chain to one, and does report it when
      nothing else is wrong. */
  lemma WalkedExactly(page: RawPage)
    ensures var regions, walk := page.regions, WalkOf(page);
      var simple, dangles, bounded := ChainsSimple(regions), Dangles(regions), VisitsOfRoots(regions, 0) <= MAX_STEPS;
      && (walk.Got? <==> simple && !dangles && bounded)
      && (walk.Got? ==> walk.value.steps == VisitsOfRoots(regions, 0))
      && (walk == Threw(MISSING_REGION) ==> dangles)
      && (simple && bounded && dangles ==> walk == Threw(MISSING_REGION))
      && (!dangles && !(simple && bounded) ==> walk == Threw(CYCLE_OR_BOUND))
  {
    var regions := page.regions;
    VisitRootsMisses(regions, 0, StartWalk(page));
    if WalkOf(page).Got? {
      forall path, trail | Chain(regions, path, trail) ensures IsSimple(path) && !DanglingChain(regions, path, trail) {
        ParsedChainsAreSimple(page, path, trail);
        assert forall g :: 0 <= g < |path| - 1 ==> path[g] != path[|path| - 1];
      }
    }
    if ChainsSimple(regions) {
      VisitRootsTakes(regions, 0, StartWalk(page));
    }
  }

  /** A page is accepted exactly when it has at most 500 regions with different names, its walk
      gets to its end, and it shows at most 1000 fields with at most 30 rules each. */
  lemma AcceptedExactly(page: RawPage)
    ensures Parse(page).Got? <==>
      && |page.regions| <= 500
      && (forall i, j :: 0 <= i < j < |page.regions| ==> RegionKey(page.regions[i]) != RegionKey(page.regions[j]))
      && ChainsSimple(page.regions) && !Dangles(page.regions) && VisitsOfRoots(page.regions, 0) <= 3000
      && (WalkOf(page).Got? ==> |WalkOf(page).value.fields| <= 1000
                                && forall f :: f in WalkOf(page).value.fields ==> |f.rules| <= 30)
  {
    WalkedExactly(page);
  }
}

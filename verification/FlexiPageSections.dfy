/** The numbers of the sections of a FlexiPage: each time the walk enters a section it takes the
    next number, so fields with one section number were reached through one and the same section. */
module FlexiPageSections {
  import opened Wrappers
  import opened FlexiPage
  import opened FlexiPageProperties
  import opened FlexiPageChains

  /** The trail up to and including its last section; nothing when it has none. */
  function UpToSection(trail: seq<Component>): (r: seq<Component>)
    ensures |r| <= |trail| && r == trail[..|r|]
    ensures r != [] ==> r[|r| - 1].kind.FieldSection?
    ensures forall h :: |r| <= h < |trail| ==> !trail[h].kind.FieldSection?
  {
    if trail == [] || trail[|trail| - 1].kind.FieldSection? then trail
    else
      var r := UpToSection(trail[..|trail| - 1]);
      assert r == trail[..|r|];
      r
  }

  /** The way to a section: its regions and its containers. */
  datatype Way = Way(regions: seq<string>, trail: seq<Component>)

  function WayTo(path: seq<string>, trail: seq<Component>): Way
    requires |path| >= |trail|
  {
    Way(path[..|UpToSection(trail)|], UpToSection(trail))
  }

  predicate Below(f: Field, way: Way) {
    |f.ancestry| >= |f.trail| && WayTo(f.ancestry, f.trail) == way
  }

  /** The fields so far: one number means one way, and all numbers are taken. */
  ghost predicate WellNumbered(w: Walk) {
    && (forall f :: f in w.fields ==> f.sectionOrder < w.sectionCounter && |f.ancestry| >= |f.trail|)
    && (forall f, g :: f in w.fields && g in w.fields && f.sectionOrder == g.sectionOrder ==>
          Below(f, WayTo(g.ancestry, g.trail)))
  }

  /** The context stands in the section that its number says. */
  ghost predicate Stands(ctx: Context, way: Way, w: Walk) {
    if way.trail == [] then ctx.section == NoSection
    else
      && ctx.sectionOrder < w.sectionCounter
      && forall f :: f in w.fields && f.sectionOrder == ctx.sectionOrder ==> Below(f, way)
  }

  /** From `w` to `w'` fields were added in the section of the context or in sections entered since. */
  ghost predicate Adds(ctx: Context, way: Way, w: Walk, w': Walk) {
    && w.sectionCounter <= w'.sectionCounter
    && forall f :: f in w'.fields ==>
         || f in w.fields
         || w.sectionCounter <= f.sectionOrder
         || (way.trail != [] && f.sectionOrder == ctx.sectionOrder && Below(f, way))
  }

  lemma StandsStill(ctx: Context, way: Way, w: Walk, w': Walk)
    requires Stands(ctx, way, w) && Adds(ctx, way, w, w')
    ensures Stands(ctx, way, w')
  {
  }

  lemma AddsCompose(ctx: Context, way: Way, w: Walk, w1: Walk, w2: Walk)
    requires Adds(ctx, way, w, w1) && Adds(ctx, way, w1, w2)
    ensures Adds(ctx, way, w, w2)
  {
  }

  lemma TakeFieldNumbers(item: Item, path: seq<string>, ctx: Context, trail: seq<Component>, w: Walk)
    requires |path| >= |trail| && WellNumbered(w) && Stands(ctx, WayTo(path, trail), w)
    ensures var w' := TakeField(item, path, ctx, trail, w);
      WellNumbered(w') && Adds(ctx, WayTo(path, trail), w, w') && w'.sectionCounter == w.sectionCounter
  {
    if item.field.Some? && Placed(item.field.value, ctx) {
      var w' := TakeField(item, path, ctx, trail, w);
      var f := w'.fields[|w.fields|];
      assert w'.fields == w.fields + [f] && Below(f, WayTo(path, trail));
      forall g | g in w.fields && g.sectionOrder == f.sectionOrder
        ensures Below(g, WayTo(f.ancestry, f.trail)) && Below(f, WayTo(g.ancestry, g.trail))
      {
        assert Below(g, WayTo(path, trail));
      }
    }
  }

  /** Entering a component keeps the section, or opens one under a number not used before. */
  lemma EnterNumbers(c: Component, path: seq<string>, ctx: Context, trail: seq<Component>, w: Walk)
    requires |path| == |trail| + 1 && WellNumbered(w) && Stands(ctx, WayTo(path, trail), w)
    ensures var w' := EnterWalk(c, w); var inner := Enter(c, ctx, w.sectionCounter);
      && WellNumbered(w') && Stands(inner, WayTo(path, trail + [c]), w')
      && (if c.kind.FieldSection? then inner.sectionOrder == w.sectionCounter
          else inner.sectionOrder == ctx.sectionOrder && WayTo(path, trail + [c]) == WayTo(path, trail))
  {
    assert (trail + [c])[..|trail|] == trail;
  }

  lemma AddsOutside(c: Component, path: seq<string>, ctx: Context, trail: seq<Component>, w: Walk, w': Walk)
    requires |path| == |trail| + 1 && WellNumbered(w) && Stands(ctx, WayTo(path, trail), w)
    requires Adds(Enter(c, ctx, w.sectionCounter), WayTo(path, trail + [c]), EnterWalk(c, w), w')
    ensures Adds(ctx, WayTo(path, trail), w, w')
  {
    EnterNumbers(c, path, ctx, trail, w);
  }

  // ----- the walk, call by call

  lemma {:induction false} VisitNumbers(regions: seq<Region>, name: string, ancestry: seq<string>, ctx: Context,
                                        trail: seq<Component>, w: Walk)
    requires |ancestry| == |trail| && WellNumbered(w) && Stands(ctx, WayTo(ancestry, trail), w)
    requires Visit(regions, name, ancestry, ctx, trail, w).Got?
    ensures var w' := Visit(regions, name, ancestry, ctx, trail, w).value;
      WellNumbered(w') && Adds(ctx, WayTo(ancestry, trail), w, w')
    decreases MAX_STEPS + 1 - w.steps, 0, 0
  {
    var path := ancestry + [name];
    assert path[..|UpToSection(trail)|] == ancestry[..|UpToSection(trail)|];
    VisitItemsNumbers(regions, Find(regions, name).value.items, 0, path, ctx, trail, w.(steps := w.steps + 1));
  }

  lemma {:induction false} VisitItemsNumbers(regions: seq<Region>, items: seq<Item>, i: nat, path: seq<string>,
                                             ctx: Context, trail: seq<Component>, w: Walk)
    requires |path| == |trail| + 1 && WellNumbered(w) && Stands(ctx, WayTo(path, trail), w)
    requires i <= |items| && w.steps <= MAX_STEPS && VisitItems(regions, items, i, path, ctx, trail, w).Got?
    ensures var w' := VisitItems(regions, items, i, path, ctx, trail, w).value;
      WellNumbered(w') && Adds(ctx, WayTo(path, trail), w, w')
    decreases MAX_STEPS + 1 - w.steps, 3, |items| - i
  {
    if i < |items| {
      var way := WayTo(path, trail);
      VisitItemNumbers(regions, items[i], i, path, ctx, trail, w);
      var w1 := VisitItem(regions, items[i], i, path, ctx, trail, w).value;
      StandsStill(ctx, way, w, w1);
      VisitItemsNumbers(regions, items, i + 1, path, ctx, trail, w1);
      AddsCompose(ctx, way, w, w1, VisitItems(regions, items, i, path, ctx, trail, w).value);
    }
  }

  lemma {:induction false} VisitItemNumbers(regions: seq<Region>, item: Item, index: nat, path: seq<string>,
                                            ctx: Context, trail: seq<Component>, w: Walk)
    requires |path| == |trail| + 1 && WellNumbered(w) && Stands(ctx, WayTo(path, trail), w)
    requires w.steps <= MAX_STEPS && VisitItem(regions, item, index, path, ctx, trail, w).Got?
    ensures var w' := VisitItem(regions, item, index, path, ctx, trail, w).value;
      WellNumbered(w') && Adds(ctx, WayTo(path, trail), w, w')
    decreases MAX_STEPS + 1 - w.steps, 2, 0
  {
    var way, w1 := WayTo(path, trail), TakeField(item, path, ctx, trail, w);
    TakeFieldNumbers(item, path, ctx, trail, w);
    if !Skips(item, ctx) {
      var c := item.component.value;
      StandsStill(ctx, way, w, w1);
      EnterNumbers(c, path, ctx, trail, w1);
      VisitRefsNumbers(regions, c, 0, index, path, Enter(c, ctx, w1.sectionCounter), trail + [c], EnterWalk(c, w1));
      var w2 := VisitItem(regions, item, index, path, ctx, trail, w).value;
      AddsOutside(c, path, ctx, trail, w1, w2);
      AddsCompose(ctx, way, w, w1, w2);
    }
  }

  lemma {:induction false} VisitRefsNumbers(regions: seq<Region>, c: Component, j: nat, index: nat, path: seq<string>,
                                            ctx: Context, trail: seq<Component>, w: Walk)
    requires |path| == |trail| && WellNumbered(w) && Stands(ctx, WayTo(path, trail), w)
    requires j <= |c.refs| && w.steps <= MAX_STEPS && VisitRefs(regions, c, j, index, path, ctx, trail, w).Got?
    ensures var w' := VisitRefs(regions, c, j, index, path, ctx, trail, w).value;
      WellNumbered(w') && Adds(ctx, WayTo(path, trail), w, w')
    decreases MAX_STEPS + 1 - w.steps, 1, |c.refs| - j
  {
    if j < |c.refs| {
      var way, below := WayTo(path, trail), ctx.(column := ColumnOf(c, index, j, ctx.column));
      VisitNumbers(regions, c.refs[j], path, below, trail, w);
      var w1 := Visit(regions, c.refs[j], path, below, trail, w).value;
      assert Adds(ctx, way, w, w1);
      StandsStill(ctx, way, w, w1);
      VisitRefsNumbers(regions, c, j + 1, index, path, ctx, trail, w1);
      AddsCompose(ctx, way, w, w1, VisitRefs(regions, c, j, index, path, ctx, trail, w).value);
    }
  }

  lemma {:induction false} VisitRootsNumbers(regions: seq<Region>, k: nat, w: Walk)
    requires WellNumbered(w) && k <= |regions| && w.steps <= MAX_STEPS && VisitRoots(regions, k, w).Got?
    ensures WellNumbered(VisitRoots(regions, k, w).value)
    decreases |regions| - k
  {
    if k < |regions| {
      if regions[k].isRoot && regions[k].name.Some? {
        VisitNumbers(regions, regions[k].name.value, [], StartContext(), [], w);
        VisitRootsNumbers(regions, k + 1, Visit(regions, regions[k].name.value, [], StartContext(), [], w).value);
      } else {
        VisitRootsNumbers(regions, k + 1, w);
      }
    }
  }

  /** Two fields of a parsed page with one section number were reached through the same section,
      by the same way: `n` containers, of which the last is the section. */
  lemma SectionNumbersIdentify(page: RawPage, i: nat, j: nat) returns (n: nat)
    requires Parse(page).Got? && i < |Parse(page).value.fields| && j < |Parse(page).value.fields|
    requires Parse(page).value.fields[i].sectionOrder == Parse(page).value.fields[j].sectionOrder
    ensures var f, g := Parse(page).value.fields[i], Parse(page).value.fields[j];
      && n <= |f.trail| && n <= |g.trail| && n <= |f.ancestry| && n <= |g.ancestry|
      && f.trail[..n] == g.trail[..n] && f.ancestry[..n] == g.ancestry[..n]
      && (n > 0 ==> f.trail[n - 1].kind.FieldSection?)
      && (forall h :: n <= h < |f.trail| ==> !f.trail[h].kind.FieldSection?)
      && (forall h :: n <= h < |g.trail| ==> !g.trail[h].kind.FieldSection?)
  {
    VisitRootsNumbers(page.regions, 0, StartWalk(page));
    var f, g := Parse(page).value.fields[i], Parse(page).value.fields[j];
    assert f in WalkOf(page).value.fields && g in WalkOf(page).value.fields;
    n := |UpToSection(f.trail)|;
    assert Below(f, WayTo(g.ancestry, g.trail));
  }
}

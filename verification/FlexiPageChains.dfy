/** Which region graphs the FlexiPage walk refuses: on a page it accepts, no chain of references
    that starts at a root region comes back to a region or grows too long. */
module FlexiPageChains {
  import opened Wrappers
  import opened FlexiPage
  import opened FlexiPageProperties

  /** Below these containers a field counts as placed: the last section has no empty caption. */
  predicate InSection(trail: seq<Component>) {
    trail != [] &&
    var k := |trail| - 1;
    if trail[k].kind.FieldSection? then trail[k].caption != Some("") else InSection(trail[..k])
  }

  predicate InOpenSection(ctx: Context) {
    ctx.section != NoSection && ctx.section != Captioned("")
  }

  /** The item is not left early and its component refers to region `to`. */
  predicate Passes(item: Item, trail: seq<Component>, c: Component, to: string) {
    && item.component == Some(c) && !c.kind.MobileDetail? && to in c.refs
    && (item.field.Some? ==> item.field.value.apiName.Some? && InSection(trail))
  }

  predicate Refers(regions: seq<Region>, from: string, trail: seq<Component>, c: Component, to: string) {
    var region := Find(regions, from);
    region.Some? && exists i :: 0 <= i < |region.value.items| && Passes(region.value.items[i], trail, c, to)
  }

  /** A chain of references through `trail` from a root region. */
  predicate Chain(regions: seq<Region>, path: seq<string>, trail: seq<Component>) {
    && |path| == |trail| + 1
    && IsRoot(regions, path[0])
    && forall h :: 0 <= h < |trail| ==> Refers(regions, path[h], trail[..h], trail[h], path[h + 1])
  }

  // ----- nothing that was noted is lost

  predicate Grows(w: Walk, w': Walk) {
    && w.fields <= w'.fields && w.unsupported <= w'.unsupported && w.visited <= w'.visited
    && (w.desktopDetail ==> w'.desktopDetail)
  }

  lemma {:induction false} VisitGrows(regions: seq<Region>, name: string, ancestry: seq<string>, ctx: Context,
                                      trail: seq<Component>, w: Walk)
    requires Visit(regions, name, ancestry, ctx, trail, w).Got?
    ensures Grows(w, Visit(regions, name, ancestry, ctx, trail, w).value)
    decreases MAX_STEPS + 1 - w.steps, 0, 0
  {
    VisitItemsGrows(regions, Find(regions, name).value.items, 0, ancestry + [name], ctx, trail,
                    w.(steps := w.steps + 1));
  }

  lemma {:induction false} VisitItemsGrows(regions: seq<Region>, items: seq<Item>, i: nat, path: seq<string>,
                                           ctx: Context, trail: seq<Component>, w: Walk)
    requires i <= |items| && w.steps <= MAX_STEPS && VisitItems(regions, items, i, path, ctx, trail, w).Got?
    ensures Grows(w, VisitItems(regions, items, i, path, ctx, trail, w).value)
    decreases MAX_STEPS + 1 - w.steps, 3, |items| - i
  {
    if i < |items| {
      VisitItemGrows(regions, items[i], i, path, ctx, trail, w);
      VisitItemsGrows(regions, items, i + 1, path, ctx, trail,
                      VisitItem(regions, items[i], i, path, ctx, trail, w).value);
    }
  }

  lemma {:induction false} VisitItemGrows(regions: seq<Region>, item: Item, index: nat, path: seq<string>, ctx: Context,
                                          trail: seq<Component>, w: Walk)
    requires w.steps <= MAX_STEPS && VisitItem(regions, item, index, path, ctx, trail, w).Got?
    ensures var w1 := TakeField(item, path, ctx, trail, w);
      && Grows(w, w1) && Grows(w1, VisitItem(regions, item, index, path, ctx, trail, w).value)
      && (!Skips(item, ctx) && item.component.value.kind.DesktopDetail? ==>
            VisitItem(regions, item, index, path, ctx, trail, w).value.desktopDetail)
    decreases MAX_STEPS + 1 - w.steps, 2, 0
  {
    var w1 := TakeField(item, path, ctx, trail, w);
    if !Skips(item, ctx) {
      var c := item.component.value;
      VisitRefsGrows(regions, c, 0, index, path, Enter(c, ctx, w1.sectionCounter), trail + [c], EnterWalk(c, w1));
    }
  }

  lemma {:induction false} VisitRefsGrows(regions: seq<Region>, c: Component, j: nat, index: nat, path: seq<string>,
                                          ctx: Context, trail: seq<Component>, w: Walk)
    requires j <= |c.refs| && w.steps <= MAX_STEPS && VisitRefs(regions, c, j, index, path, ctx, trail, w).Got?
    ensures Grows(w, VisitRefs(regions, c, j, index, path, ctx, trail, w).value)
    decreases MAX_STEPS + 1 - w.steps, 1, |c.refs| - j
  {
    if j < |c.refs| {
      var below := ctx.(column := ColumnOf(c, index, j, ctx.column));
      VisitGrows(regions, c.refs[j], path, below, trail, w);
      VisitRefsGrows(regions, c, j + 1, index, path, ctx, trail,
                     Visit(regions, c.refs[j], path, below, trail, w).value);
    }
  }

  lemma {:induction false} VisitRootsGrows(regions: seq<Region>, k: nat, w: Walk)
    requires k <= |regions| && w.steps <= MAX_STEPS && VisitRoots(regions, k, w).Got?
    ensures Grows(w, VisitRoots(regions, k, w).value)
    decreases |regions| - k
  {
    if k < |regions| {
      if regions[k].isRoot && regions[k].name.Some? {
        VisitGrows(regions, regions[k].name.value, [], StartContext(), [], w);
        VisitRootsGrows(regions, k + 1, Visit(regions, regions[k].name.value, [], StartContext(), [], w).value);
      } else {
        VisitRootsGrows(regions, k + 1, w);
      }
    }
  }

  // ----- what an accepted walk has visited

  lemma {:induction false} RootVisited(regions: seq<Region>, k: nat, w: Walk, root: nat) returns (w': Walk)
    requires k <= root < |regions| && w.steps <= MAX_STEPS && VisitRoots(regions, k, w).Got?
    requires regions[root].isRoot && regions[root].name.Some?
    ensures Visit(regions, regions[root].name.value, [], StartContext(), [], w').Got?
    ensures Grows(Visit(regions, regions[root].name.value, [], StartContext(), [], w').value,
                  VisitRoots(regions, k, w).value)
    decreases root - k
  {
    if k == root {
      w' := w;
      VisitRootsGrows(regions, k + 1, Visit(regions, regions[root].name.value, [], StartContext(), [], w).value);
    } else if regions[k].isRoot && regions[k].name.Some? {
      w' := RootVisited(regions, k + 1, Visit(regions, regions[k].name.value, [], StartContext(), [], w).value, root);
    } else {
      w' := RootVisited(regions, k + 1, w, root);
    }
  }

  lemma {:induction false} ItemVisited(regions: seq<Region>, items: seq<Item>, i: nat, path: seq<string>, ctx: Context,
                                       trail: seq<Component>, w: Walk, at: nat) returns (w': Walk)
    requires i <= at < |items| && w.steps <= MAX_STEPS && VisitItems(regions, items, i, path, ctx, trail, w).Got?
    ensures w'.steps <= MAX_STEPS && VisitItem(regions, items[at], at, path, ctx, trail, w').Got?
    ensures Grows(VisitItem(regions, items[at], at, path, ctx, trail, w').value,
                  VisitItems(regions, items, i, path, ctx, trail, w).value)
    decreases at - i
  {
    if i == at {
      w' := w;
      VisitItemsGrows(regions, items, i + 1, path, ctx, trail,
                      VisitItem(regions, items[at], at, path, ctx, trail, w).value);
    } else {
      w' := ItemVisited(regions, items, i + 1, path, ctx, trail,
                        VisitItem(regions, items[i], i, path, ctx, trail, w).value, at);
    }
  }

  lemma {:induction false} RefVisited(regions: seq<Region>, c: Component, j: nat, index: nat, path: seq<string>,
                                      ctx: Context, trail: seq<Component>, w: Walk, at: nat)
    returns (column: nat, w': Walk)
    requires j <= at < |c.refs| && w.steps <= MAX_STEPS && VisitRefs(regions, c, j, index, path, ctx, trail, w).Got?
    ensures Visit(regions, c.refs[at], path, ctx.(column := column), trail, w').Got?
    ensures Grows(Visit(regions, c.refs[at], path, ctx.(column := column), trail, w').value,
                  VisitRefs(regions, c, j, index, path, ctx, trail, w).value)
    decreases at - j
  {
    if j == at {
      column, w' := ColumnOf(c, index, j, ctx.column), w;
      VisitRefsGrows(regions, c, j + 1, index, path, ctx, trail,
                     Visit(regions, c.refs[j], path, ctx.(column := column), trail, w).value);
    } else {
      var below := ctx.(column := ColumnOf(c, index, j, ctx.column));
      column, w' := RefVisited(regions, c, j + 1, index, path, ctx, trail,
                               Visit(regions, c.refs[j], path, below, trail, w).value, at);
    }
  }

  lemma SectionFollows(c: Component, ctx: Context, sectionCounter: nat, trail: seq<Component>)
    requires InOpenSection(ctx) <==> InSection(trail)
    ensures InOpenSection(Enter(c, ctx, sectionCounter)) <==> InSection(trail + [c])
  {
    InSectionSnoc(trail, c);
    EnterSection(c, ctx, sectionCounter);
  }

  lemma InSectionSnoc(trail: seq<Component>, c: Component)
    ensures InSection(trail + [c]) <==> if c.kind.FieldSection? then c.caption != Some("") else InSection(trail)
  {
    assert (trail + [c])[..|trail|] == trail;
  }

  lemma EnterSection(c: Component, ctx: Context, sectionCounter: nat)
    ensures InOpenSection(Enter(c, ctx, sectionCounter)) <==>
              if c.kind.FieldSection? then c.caption != Some("") else InOpenSection(ctx)
  {
  }

  /** From a visited region the walk goes on to every region it refers to. */
  lemma ReferenceVisited(regions: seq<Region>, from: string, ancestry: seq<string>, ctx: Context, trail: seq<Component>,
                         w: Walk, c: Component, to: string) returns (ctx': Context, w': Walk)
    requires Visit(regions, from, ancestry, ctx, trail, w).Got? && (InOpenSection(ctx) <==> InSection(trail))
    requires Refers(regions, from, trail, c, to)
    ensures Visit(regions, to, ancestry + [from], ctx', trail + [c], w').Got?
    ensures Grows(Visit(regions, to, ancestry + [from], ctx', trail + [c], w').value,
                  Visit(regions, from, ancestry, ctx, trail, w).value)
    ensures InOpenSection(ctx') <==> InSection(trail + [c])
  {
    var items := Find(regions, from).value.items;
    var i :| 0 <= i < |items| && Passes(items[i], trail, c, to);
    var path := ancestry + [from];
    var w1 := ItemVisited(regions, items, 0, path, ctx, trail, w.(steps := w.steps + 1), i);
    var w2 := TakeField(items[i], path, ctx, trail, w1);
    var j :| 0 <= j < |c.refs| && c.refs[j] == to;
    var inside := Enter(c, ctx, w2.sectionCounter);
    SectionFollows(c, ctx, w2.sectionCounter, trail);
    var column, w3 := RefVisited(regions, c, 0, i, path, inside, trail + [c], EnterWalk(c, w2), j);
    ctx', w' := inside.(column := column), w3;
  }

  lemma {:induction false} ChainVisited(page: RawPage, path: seq<string>, trail: seq<Component>, h: nat)
    returns (ctx: Context, w: Walk)
    requires WalkOf(page).Got? && Chain(page.regions, path, trail) && h <= |trail|
    ensures Visit(page.regions, path[h], path[..h], ctx, trail[..h], w).Got?
    ensures Grows(Visit(page.regions, path[h], path[..h], ctx, trail[..h], w).value, WalkOf(page).value)
    ensures InOpenSection(ctx) <==> InSection(trail[..h])
  {
    if h == 0 {
      var root :| 0 <= root < |page.regions| && page.regions[root].isRoot && page.regions[root].name == Some(path[0]);
      w := RootVisited(page.regions, 0, StartWalk(page), root);
      ctx := StartContext();
      assert path[..0] == [] && trail[..0] == [];
    } else {
      var k := h - 1;
      var ctx1, w1 := ChainVisited(page, path, trail, k);
      ctx, w := ReferenceVisited(page.regions, path[k], path[..k], ctx1, trail[..k], w1, trail[k], path[h]);
      assert path[..k] + [path[k]] == path[..h] && trail[..k] + [trail[k]] == trail[..h];
    }
  }

  /** On a page that is walked to the end every chain of references from a root region, through
      items that are not left early, is free of repetition and at most 26 regions long: cyclic
      pages are refused. */
  lemma ParsedChainsAreSimple(page: RawPage, path: seq<string>, trail: seq<Component>)
    requires WalkOf(page).Got? && Chain(page.regions, path, trail)
    ensures forall g, h :: 0 <= g < h < |path| ==> path[g] != path[h]
    ensures |path| <= MAX_ANCESTRY + 1
    ensures forall h :: 0 <= h < |path| ==> Find(page.regions, path[h]).Some?
  {
    forall h | 0 <= h < |path| ensures path[h] !in path[..h] && h <= MAX_ANCESTRY && Find(page.regions, path[h]).Some? {
      var ctx, w := ChainVisited(page, path, trail, h);
    }
    assert path[|trail|] !in path[..|trail|];
    forall g, h | 0 <= g < h < |path| ensures path[g] != path[h] {
      assert path[..h][g] == path[g];
    }
  }

  /** So a page with a chain that comes back to a region is never accepted. */
  lemma CyclicPageIsRefused(page: RawPage, path: seq<string>, trail: seq<Component>, g: nat, h: nat)
    requires Chain(page.regions, path, trail) && g < h < |path| && path[g] == path[h]
    ensures Parse(page).Threw?
  {
    if Parse(page).Got? {
      ParsedChainsAreSimple(page, path, trail);
    }
  }
}

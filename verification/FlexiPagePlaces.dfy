/** What a parsed FlexiPage shows and where: the emitted fields are those that chains of references
    from a root region lead to inside a section, each in the section and column that its chain
    gives it, and the markers and the form source say what else the chains met. */
module FlexiPagePlaces {
  import opened Wrappers
  import opened FlexiPage
  import opened FlexiPageProperties
  import opened FlexiPageChains
  import VisibilityRules
  import EffectiveFields

  // ----- what a chain leads to

  /** A chain of references leads to a region that holds the item. */
  ghost predicate Site(regions: seq<Region>, path: seq<string>, trail: seq<Component>, item: Item) {
    Chain(regions, path, trail)
    && var region := Find(regions, path[|path| - 1]);
    region.Some? && item in region.value.items
  }

  /** The field has the supported form and lies in a section. */
  predicate Supported(f: FieldNode, trail: seq<Component>) {
    f.apiName.Some? && InSection(trail)
  }

  /** The section is the last one of the trail: by its caption, or by its number for want of one. */
  predicate SectionIs(trail: seq<Component>, section: Section, order: nat) {
    if trail == [] then section == NoSection && order == 0
    else
      var k := |trail| - 1;
      if trail[k].kind.FieldSection? then
        section == match trail[k].caption
                   case Some(caption) => Captioned(caption)
                   case None => Numbered(order + 1)
      else SectionIs(trail[..k], section, order)
  }

  /** The column is given by the last column or section of the trail: by the place of the column
      component in its region, or by which reference of the section is followed. */
  predicate ColumnIs(regions: seq<Region>, path: seq<string>, trail: seq<Component>, column: nat)
    requires |path| == |trail| + 1
  {
    if trail == [] then column == 0
    else
      var k := |trail| - 1;
      if trail[k].kind.Column? then
        var region := Find(regions, path[k]);
        region.Some? && column < |region.value.items| && region.value.items[column].component == Some(trail[k])
      else if trail[k].kind.FieldSection? then column < |trail[k].refs| && trail[k].refs[column] == path[k + 1]
      else ColumnIs(regions, path[..k + 1], trail[..k], column)
  }

  predicate FieldFrom(item: Item, f: Field) {
    item.field.Some? && item.field.value.node == f.node && item.field.value.apiName == Some(f.apiName)
  }

  ghost predicate FieldPlaced(regions: seq<Region>, f: Field) {
    && (exists item :: Site(regions, f.ancestry, f.trail, item) && FieldFrom(item, f))
    && InSection(f.trail)
    && SectionIs(f.trail, f.section, f.sectionOrder)
    && |f.ancestry| == |f.trail| + 1 && ColumnIs(regions, f.ancestry, f.trail, f.column)
  }

  ghost predicate MeetsField(regions: seq<Region>, node: nat) {
    exists path, trail, item :: Site(regions, path, trail, item) && item.field.Some? && item.field.value.node == node
  }

  ghost predicate MeetsMisplaced(regions: seq<Region>) {
    exists path, trail, item ::
      Site(regions, path, trail, item) && item.field.Some? && !Supported(item.field.value, trail)
  }

  ghost predicate MeetsOddBehavior(regions: seq<Region>) {
    exists path, trail, item ::
      Site(regions, path, trail, item) && item.field.Some? && Supported(item.field.value, trail)
      && item.field.value.behavior.UnknownBehavior?
  }

  predicate IsDetail(item: Item, trail: seq<Component>) {
    && item.component.Some? && item.component.value.kind.DesktopDetail?
    && (item.field.Some? ==> Supported(item.field.value, trail))
  }

  ghost predicate MeetsDetail(regions: seq<Region>) {
    exists path, trail, item :: Site(regions, path, trail, item) && IsDetail(item, trail)
  }

  const OF_FIELDS: set<Marker> := {UNSUPPORTED_FIELD_PLACEMENT, UNSUPPORTED_UI_BEHAVIOR}

  /** Everything the walk noted was met on some chain. */
  ghost predicate Explained(regions: seq<Region>, markers: set<Marker>, w: Walk) {
    && (forall f :: f in w.fields ==> FieldPlaced(regions, f))
    && (forall v :: v in w.visited ==> MeetsField(regions, v))
    && (UNSUPPORTED_FIELD_PLACEMENT in w.unsupported ==> MeetsMisplaced(regions))
    && (UNSUPPORTED_UI_BEHAVIOR in w.unsupported ==> MeetsOddBehavior(regions))
    && (w.desktopDetail ==> MeetsDetail(regions))
    && w.unsupported - OF_FIELDS == markers
  }

  // ----- one item

  predicate ContextIs(regions: seq<Region>, path: seq<string>, trail: seq<Component>, ctx: Context)
    requires |path| == |trail| + 1
  {
    SectionIs(trail, ctx.section, ctx.sectionOrder) && ColumnIs(regions, path, trail, ctx.column)
  }

  lemma {:induction false} SectionIsOpen(trail: seq<Component>, ctx: Context)
    requires SectionIs(trail, ctx.section, ctx.sectionOrder)
    ensures InOpenSection(ctx) <==> InSection(trail)
  {
    if trail != [] && !trail[|trail| - 1].kind.FieldSection? {
      SectionIsOpen(trail[..|trail| - 1], ctx);
    }
  }

  lemma TakeFieldExplained(regions: seq<Region>, markers: set<Marker>, item: Item, path: seq<string>, ctx: Context,
                           trail: seq<Component>, w: Walk)
    requires Site(regions, path, trail, item) && ContextIs(regions, path, trail, ctx) && Explained(regions, markers, w)
    ensures Explained(regions, markers, TakeField(item, path, ctx, trail, w))
  {
    SectionIsOpen(trail, ctx);
    if item.field.Some? {
      var w' := TakeField(item, path, ctx, trail, w);
      assert MeetsField(regions, item.field.value.node);
      if Placed(item.field.value, ctx) {
        assert Supported(item.field.value, trail);
        var f := w'.fields[|w.fields|];
        assert FieldFrom(item, f) && FieldPlaced(regions, f);
        assert w'.fields == w.fields + [f];
        assert item.field.value.behavior.UnknownBehavior? ==> MeetsOddBehavior(regions);
      } else {
        assert !Supported(item.field.value, trail);
        assert MeetsMisplaced(regions);
      }
    }
  }

  lemma EnterExplained(regions: seq<Region>, markers: set<Marker>, item: Item, path: seq<string>,
                       trail: seq<Component>, w: Walk)
    requires Site(regions, path, trail, item) && Explained(regions, markers, w)
    requires item.component.Some? && (item.field.Some? ==> Supported(item.field.value, trail))
    ensures Explained(regions, markers, EnterWalk(item.component.value, w))
  {
    if item.component.value.kind.DesktopDetail? {
      assert IsDetail(item, trail);
    }
  }

  // ----- the walk, call by call

  /** A visit to `name` is about to start: from the roots, or through the last component of the trail. */
  ghost predicate Approaches(regions: seq<Region>, name: string, ancestry: seq<string>, trail: seq<Component>) {
    if ancestry == [] then trail == [] && IsRoot(regions, name)
    else
      && |trail| == |ancestry| && Chain(regions, ancestry, trail[..|trail| - 1])
      && Refers(regions, ancestry[|ancestry| - 1], trail[..|trail| - 1], trail[|trail| - 1], name)
  }

  lemma ApproachExtendsChain(regions: seq<Region>, name: string, ancestry: seq<string>, trail: seq<Component>)
    requires Approaches(regions, name, ancestry, trail)
    ensures Chain(regions, ancestry + [name], trail)
  {
    var path := ancestry + [name];
    forall h | 0 <= h < |trail| ensures Refers(regions, path[h], trail[..h], trail[h], path[h + 1]) {
      if h < |trail| - 1 {
        assert trail[..|trail| - 1][..h] == trail[..h];
      }
    }
  }

  lemma InsideContext(regions: seq<Region>, path: seq<string>, trail: seq<Component>, ctx: Context, c: Component,
                      index: nat, j: nat, sectionCounter: nat)
    requires |path| == |trail| + 1 && ContextIs(regions, path, trail, ctx) && j < |c.refs|
    requires var region := Find(regions, path[|path| - 1]);
      region.Some? && index < |region.value.items| && region.value.items[index].component == Some(c)
    ensures var inner := Enter(c, ctx, sectionCounter);
      ContextIs(regions, path + [c.refs[j]], trail + [c], inner.(column := ColumnOf(c, index, j, inner.column)))
  {
    var k := |trail|;
    assert (trail + [c])[..k] == trail;
    assert (path + [c.refs[j]])[..k + 1] == path;
  }

  lemma {:induction false} VisitExplained(regions: seq<Region>, markers: set<Marker>, name: string,
                                          ancestry: seq<string>, ctx: Context, trail: seq<Component>, w: Walk)
    requires Approaches(regions, name, ancestry, trail) && |trail| == |ancestry|
    requires ContextIs(regions, ancestry + [name], trail, ctx) && Explained(regions, markers, w)
    ensures var r := Visit(regions, name, ancestry, ctx, trail, w); r.Got? ==> Explained(regions, markers, r.value)
    decreases MAX_STEPS + 1 - w.steps, 0, 0
  {
    if Visit(regions, name, ancestry, ctx, trail, w).Got? {
      ApproachExtendsChain(regions, name, ancestry, trail);
      VisitItemsExplained(regions, markers, 0, ancestry + [name], ctx, trail, w.(steps := w.steps + 1));
    }
  }

  lemma {:induction false} VisitItemsExplained(regions: seq<Region>, markers: set<Marker>, i: nat, path: seq<string>,
                                               ctx: Context, trail: seq<Component>, w: Walk)
    requires Chain(regions, path, trail) && ContextIs(regions, path, trail, ctx) && Explained(regions, markers, w)
    requires w.steps <= MAX_STEPS
    requires var region := Find(regions, path[|path| - 1]); region.Some? && i <= |region.value.items|
    ensures var r := VisitItems(regions, Find(regions, path[|path| - 1]).value.items, i, path, ctx, trail, w);
      r.Got? ==> Explained(regions, markers, r.value)
    decreases MAX_STEPS + 1 - w.steps, 3, |Find(regions, path[|path| - 1]).value.items| - i
  {
    var items := Find(regions, path[|path| - 1]).value.items;
    if i < |items| {
      VisitItemExplained(regions, markers, i, path, ctx, trail, w);
      var r := VisitItem(regions, items[i], i, path, ctx, trail, w);
      if r.Got? {
        VisitItemsExplained(regions, markers, i + 1, path, ctx, trail, r.value);
      }
    }
  }

  lemma {:induction false} VisitItemExplained(regions: seq<Region>, markers: set<Marker>, i: nat, path: seq<string>,
                                              ctx: Context, trail: seq<Component>, w: Walk)
    requires Chain(regions, path, trail) && ContextIs(regions, path, trail, ctx) && Explained(regions, markers, w)
    requires w.steps <= MAX_STEPS
    requires var region := Find(regions, path[|path| - 1]); region.Some? && i < |region.value.items|
    ensures var r := VisitItem(regions, Find(regions, path[|path| - 1]).value.items[i], i, path, ctx, trail, w);
      r.Got? ==> Explained(regions, markers, r.value)
    decreases MAX_STEPS + 1 - w.steps, 2, 0
  {
    var item := Find(regions, path[|path| - 1]).value.items[i];
    assert Site(regions, path, trail, item);
    TakeFieldExplained(regions, markers, item, path, ctx, trail, w);
    if !Skips(item, ctx) {
      var w1 := TakeField(item, path, ctx, trail, w);
      SectionIsOpen(trail, ctx);
      EnterExplained(regions, markers, item, path, trail, w1);
      VisitRefsExplained(regions, markers, item.component.value, 0, i, path, ctx, w1.sectionCounter, trail,
                         EnterWalk(item.component.value, w1));
    }
  }

  lemma {:induction false} VisitRefsExplained(regions: seq<Region>, markers: set<Marker>, c: Component, j: nat, i: nat,
                                              path: seq<string>, ctx: Context, sectionCounter: nat,
                                              trail: seq<Component>, w: Walk)
    requires Chain(regions, path, trail) && ContextIs(regions, path, trail, ctx) && Explained(regions, markers, w)
    requires j <= |c.refs| && w.steps <= MAX_STEPS && !c.kind.MobileDetail?
    requires var region := Find(regions, path[|path| - 1]);
      && region.Some? && i < |region.value.items| && region.value.items[i].component == Some(c)
      && (region.value.items[i].field.Some? ==> Supported(region.value.items[i].field.value, trail))
    ensures var r := VisitRefs(regions, c, j, i, path, Enter(c, ctx, sectionCounter), trail + [c], w);
      r.Got? ==> Explained(regions, markers, r.value)
    decreases MAX_STEPS + 1 - w.steps, 1, |c.refs| - j
  {
    if j < |c.refs| {
      var inner := Enter(c, ctx, sectionCounter);
      var below := inner.(column := ColumnOf(c, i, j, inner.column));
      InsideContext(regions, path, trail, ctx, c, i, j, sectionCounter);
      assert (trail + [c])[..|trail|] == trail;
      assert Passes(Find(regions, path[|path| - 1]).value.items[i], trail, c, c.refs[j]);
      VisitExplained(regions, markers, c.refs[j], path, below, trail + [c], w);
      var r := Visit(regions, c.refs[j], path, below, trail + [c], w);
      if r.Got? {
        VisitRefsExplained(regions, markers, c, j + 1, i, path, ctx, sectionCounter, trail, r.value);
      }
    }
  }

  lemma {:induction false} VisitRootsExplained(regions: seq<Region>, markers: set<Marker>, k: nat, w: Walk)
    requires k <= |regions| && Explained(regions, markers, w) && w.steps <= MAX_STEPS
    ensures var r := VisitRoots(regions, k, w); r.Got? ==> Explained(regions, markers, r.value)
    decreases |regions| - k
  {
    if k < |regions| {
      if regions[k].isRoot && regions[k].name.Some? {
        VisitExplained(regions, markers, regions[k].name.value, [], StartContext(), [], w);
        var r := Visit(regions, regions[k].name.value, [], StartContext(), [], w);
        if r.Got? {
          VisitRootsExplained(regions, markers, k + 1, r.value);
        }
      } else {
        VisitRootsExplained(regions, markers, k + 1, w);
      }
    }
  }

  // ----- a parsed page

  lemma WalkExplained(page: RawPage)
    requires WalkOf(page).Got?
    ensures Explained(page.regions, StartWalk(page).unsupported, WalkOf(page).value)
  {
    VisitRootsExplained(page.regions, StartWalk(page).unsupported, 0, StartWalk(page));
  }

  /** What a chain leads to was visited, and what was noted there is in the result. */
  lemma SiteVisited(page: RawPage, path: seq<string>, trail: seq<Component>, item: Item)
    returns (i: nat, ctx: Context, w: Walk)
    requires Parse(page).Got? && Site(page.regions, path, trail, item)
    ensures InOpenSection(ctx) <==> InSection(trail)
    ensures w.steps <= MAX_STEPS && VisitItem(page.regions, item, i, path, ctx, trail, w).Got?
    ensures Grows(TakeField(item, path, ctx, trail, w), WalkOf(page).value)
    ensures Grows(VisitItem(page.regions, item, i, path, ctx, trail, w).value, WalkOf(page).value)
  {
    var regions, k := page.regions, |trail|;
    var w0;
    ctx, w0 := ChainVisited(page, path, trail, k);
    assert path[..k] + [path[k]] == path && trail[..k] == trail;
    var items := Find(regions, path[k]).value.items;
    i :| 0 <= i < |items| && items[i] == item;
    w := ItemVisited(regions, items, 0, path, ctx, trail, w0.(steps := w0.steps + 1), i);
    VisitItemGrows(regions, item, i, path, ctx, trail, w);
  }

  /** Every supported field that a chain leads to is emitted for that chain. */
  lemma SupportedIsEmitted(page: RawPage, path: seq<string>, trail: seq<Component>, item: Item) returns (n: nat)
    requires Parse(page).Got? && Site(page.regions, path, trail, item)
    requires item.field.Some? && Supported(item.field.value, trail)
    ensures var fields := Parse(page).value.fields;
      n < |fields| && FieldFrom(item, fields[n]) && fields[n].ancestry == path && fields[n].trail == trail
  {
    var i, ctx, w := SiteVisited(page, path, trail, item);
    n := |w.fields|;
    var taken := TakeField(item, path, ctx, trail, w);
    assert |taken.fields| == n + 1 && taken.fields[n] == WalkOf(page).value.fields[n];
  }

  /** The emitted fields are exactly the supported fields that chains lead to: each stands in the
      section and the column that its chain gives it, and each is emitted for every such chain. */
  lemma EmittedExactly(page: RawPage, path: seq<string>, trail: seq<Component>, node: nat)
    requires Parse(page).Got?
    ensures forall f :: f in Parse(page).value.fields ==> FieldPlaced(page.regions, f)
    ensures (exists f :: f in Parse(page).value.fields && f.ancestry == path && f.trail == trail && f.node == node) <==>
            (exists item :: Site(page.regions, path, trail, item) && item.field.Some?
                            && item.field.value.node == node && Supported(item.field.value, trail))
  {
    WalkExplained(page);
    if item :| && Site(page.regions, path, trail, item) && item.field.Some?
               && item.field.value.node == node && Supported(item.field.value, trail) {
      var n := SupportedIsEmitted(page, path, trail, item);
      assert Parse(page).value.fields[n] in Parse(page).value.fields;
    }
    if f :| f in Parse(page).value.fields && f.ancestry == path && f.trail == trail && f.node == node {
      assert FieldPlaced(page.regions, f);
      var item :| Site(page.regions, f.ancestry, f.trail, item) && FieldFrom(item, f);
      assert Supported(item.field.value, trail);
    }
  }

  lemma NotedIsInResult(page: RawPage, path: seq<string>, trail: seq<Component>, item: Item)
    requires Parse(page).Got? && Site(page.regions, path, trail, item)
    ensures var w := WalkOf(page).value;
      && (item.field.Some? ==> item.field.value.node in w.visited)
      && (item.field.Some? && !Supported(item.field.value, trail) ==> UNSUPPORTED_FIELD_PLACEMENT in w.unsupported)
      && (item.field.Some? && Supported(item.field.value, trail) && item.field.value.behavior.UnknownBehavior? ==>
            UNSUPPORTED_UI_BEHAVIOR in w.unsupported)
      && (IsDetail(item, trail) ==> w.desktopDetail)
  {
    var i, ctx, w := SiteVisited(page, path, trail, item);
    var taken := TakeField(item, path, ctx, trail, w);
    assert taken.unsupported <= WalkOf(page).value.unsupported && taken.visited <= WalkOf(page).value.visited;
    VisitItemGrows(page.regions, item, i, path, ctx, trail, w);
  }

  /** What each marker says about the page. */
  lemma MarkersExactly(page: RawPage)
    requires Parse(page).Got?
    ensures var unsupported := Parse(page).value.unsupported;
      && (INHERITED_PAGE_UNSUPPORTED in unsupported <==> page.inherited)
      && (UNSUPPORTED_PAGE in unsupported <==> !page.supported)
      && (UNSUPPORTED_FIELD_PLACEMENT in unsupported <==> MeetsMisplaced(page.regions))
      && (UNSUPPORTED_UI_BEHAVIOR in unsupported <==> MeetsOddBehavior(page.regions))
  {
    WalkExplained(page);
    var w := WalkOf(page).value;
    forall path, trail, item | Site(page.regions, path, trail, item)
      ensures item.field.Some? && !Supported(item.field.value, trail) ==> UNSUPPORTED_FIELD_PLACEMENT in w.unsupported
      ensures item.field.Some? && Supported(item.field.value, trail) && item.field.value.behavior.UnknownBehavior? ==>
                UNSUPPORTED_UI_BEHAVIOR in w.unsupported
    {
      NotedIsInResult(page, path, trail, item);
    }
    forall m | m in {INHERITED_PAGE_UNSUPPORTED, UNSUPPORTED_PAGE}
      ensures m in w.unsupported <==> m in StartWalk(page).unsupported
    {
      assert m in w.unsupported <==> m in w.unsupported - OF_FIELDS;
    }
  }

  /** Every field object that chains lead to is counted as visited, and no other. */
  lemma VisitedExactly(page: RawPage, node: nat)
    requires Parse(page).Got?
    ensures node in WalkOf(page).value.visited <==> MeetsField(page.regions, node)
  {
    WalkExplained(page);
    if path, trail, item :| && Site(page.regions, path, trail, item) && item.field.Some?
                            && item.field.value.node == node {
      NotedIsInResult(page, path, trail, item);
    }
  }

  ghost predicate MeetsSupported(regions: seq<Region>) {
    exists path, trail, item ::
      Site(regions, path, trail, item) && item.field.Some? && Supported(item.field.value, trail)
  }

  /** The form source tells what the chains met: supported fields, a desktop record detail, both or neither. */
  lemma FormSourceExactly(page: RawPage)
    requires Parse(page).Got?
    ensures var source, fields, detail :=
                Parse(page).value.formSource, MeetsSupported(page.regions), MeetsDetail(page.regions);
      && (source == DYNAMIC_FORMS <==> fields && !detail)
      && (source == MIXED <==> fields && detail)
      && (source == PAGE_LAYOUT <==> !fields && detail)
      && (source == UNRESOLVED <==> !fields && !detail)
  {
    WalkExplained(page);
    var w := WalkOf(page).value;
    if path, trail, item :| && Site(page.regions, path, trail, item) && item.field.Some?
                            && Supported(item.field.value, trail) {
      var n := SupportedIsEmitted(page, path, trail, item);
    }
    if w.fields != [] {
      var f := w.fields[0];
      assert FieldPlaced(page.regions, f);
      var item :| Site(page.regions, f.ancestry, f.trail, item) && FieldFrom(item, f);
      assert Supported(item.field.value, f.trail);
    }
    if path, trail, item :| Site(page.regions, path, trail, item) && IsDetail(item, trail) {
      NotedIsInResult(page, path, trail, item);
    }
  }

  // ----- the section and the column, by place in the trail

  predicate IsLast(trail: seq<Component>, k: nat, what: Component -> bool) {
    k < |trail| && what(trail[k]) && forall h :: k < h < |trail| ==> !what(trail[h])
  }

  predicate IsSection(c: Component) {
    c.kind.FieldSection?
  }

  predicate SetsColumn(c: Component) {
    c.kind.FieldSection? || c.kind.Column?
  }

  lemma {:induction false} LastSection(trail: seq<Component>, section: Section, order: nat) returns (k: nat)
    requires InSection(trail) && SectionIs(trail, section, order)
    ensures IsLast(trail, k, IsSection) && trail[k].caption != Some("")
    ensures section == match trail[k].caption case Some(caption) => Captioned(caption) case None => Numbered(order + 1)
  {
    k := |trail| - 1;
    if !trail[k].kind.FieldSection? {
      var last := k;
      k := LastSection(trail[..last], section, order);
      assert forall h :: k < h < last ==> trail[h] == trail[..last][h];
    }
  }

  lemma {:induction false} LastColumn(regions: seq<Region>, path: seq<string>, trail: seq<Component>, column: nat,
                                      k: nat)
    requires |path| == |trail| + 1 && ColumnIs(regions, path, trail, column) && IsLast(trail, k, SetsColumn)
    ensures trail[k].kind.FieldSection? ==> column < |trail[k].refs| && trail[k].refs[column] == path[k + 1]
    ensures trail[k].kind.Column? ==>
              var region := Find(regions, path[k]);
              region.Some? && column < |region.value.items| && region.value.items[column].component == Some(trail[k])
  {
    var last := |trail| - 1;
    if k < last {
      assert !SetsColumn(trail[last]);
      LastColumn(regions, path[..last + 1], trail[..last], column, k);
    }
  }

  /** The section of an emitted field is the last one on its way, with a caption or else its number. */
  lemma SectionOfField(page: RawPage, i: nat) returns (k: nat)
    requires Parse(page).Got? && i < |Parse(page).value.fields|
    ensures var f := Parse(page).value.fields[i];
      && IsLast(f.trail, k, IsSection) && f.trail[k].caption != Some("")
      && (f.trail[k].caption.Some? ==> f.section == Captioned(f.trail[k].caption.value))
      && (f.trail[k].caption.None? ==> f.section == Numbered(f.sectionOrder + 1))
  {
    WalkExplained(page);
    var f := Parse(page).value.fields[i];
    assert FieldPlaced(page.regions, f);
    k := LastSection(f.trail, f.section, f.sectionOrder);
  }

  /** Its column is the place, in its region, of the last column component on the way, or, when a
      section comes later, the number of the section's reference that leads on. */
  lemma ColumnOfField(page: RawPage, i: nat, k: nat)
    requires Parse(page).Got? && i < |Parse(page).value.fields|
    requires IsLast(Parse(page).value.fields[i].trail, k, SetsColumn)
    ensures var f := Parse(page).value.fields[i];
      && |f.ancestry| == |f.trail| + 1
      && (f.trail[k].kind.FieldSection? ==>
            f.column < |f.trail[k].refs| && f.trail[k].refs[f.column] == f.ancestry[k + 1])
      && (f.trail[k].kind.Column? ==>
            var region := Find(page.regions, f.ancestry[k]);
            region.Some? && f.column < |region.value.items|
                && region.value.items[f.column].component == Some(f.trail[k]))
  {
    WalkExplained(page);
    var f := Parse(page).value.fields[i];
    assert FieldPlaced(page.regions, f);
    LastColumn(page.regions, f.ancestry, f.trail, f.column, k);
  }

  // ----- the rules

  /** The rule is the component's own, or the one that stands for a component which refers to
      regions and is none of the containers known to do so. */
  predicate SetsRule(c: Component, sr: ScopedRule) {
    && sr.scope == VisibilityRules.CONTAINER
    && (|| c.rule == Some(sr.rule)
        || (c.refs != [] && !c.kind.FieldSection? && !c.kind.Column? && !c.kind.OtherContainer?
            && sr.rule == VisibilityRules.Rule([], VisibilityRules.NoFilter, true)))
  }

  lemma {:induction false} TrailRulesExactly(trail: seq<Component>, sr: ScopedRule)
    ensures sr in TrailRules(trail) <==> exists k :: 0 <= k < |trail| && SetsRule(trail[k], sr)
  {
    if trail != [] {
      var last := |trail| - 1;
      TrailRulesExactly(trail[..last], sr);
      assert sr in ContainerRules(trail[last]) <==> SetsRule(trail[last], sr);
      if k :| 0 <= k < last && SetsRule(trail[k], sr) {
        assert trail[..last][k] == trail[k];
      }
    }
  }

  /** The rules of an emitted field are its own and those set by the containers on its way, and it
      is required or read-only as its own behaviour says. */
  lemma RulesExactly(page: RawPage, i: nat, sr: ScopedRule) returns (item: Item)
    requires Parse(page).Got? && i < |Parse(page).value.fields|
    ensures var f := Parse(page).value.fields[i];
      && FieldFrom(item, f)
      && (f.required <==> item.field.value.behavior == Required)
      && (f.readOnly <==> item.field.value.behavior == ReadOnly)
      && (sr in f.rules <==>
            || (sr.scope == VisibilityRules.FIELD && item.field.value.rule == Some(sr.rule))
            || exists k :: 0 <= k < |f.trail| && SetsRule(f.trail[k], sr))
  {
    ParsedPageSound(page);
    var f := Parse(page).value.fields[i];
    assert FieldOk(page.regions, f);
    var items := Find(page.regions, f.ancestry[|f.ancestry| - 1]).value.items;
    var n :| 0 <= n < |items| && FieldOf(items[n], f);
    item := items[n];
    TrailRulesExactly(f.trail, sr);
    assert sr in FieldRules(item.field.value) <==>
        sr.scope == VisibilityRules.FIELD && item.field.value.rule == Some(sr.rule);
  }
}

/** `parseFlexiPage` as written: one set of accumulators updated by a recursive visit. */
module FlexiPageWalk {
  import opened Wrappers
  import opened FlexiPage
  import FlexiPageProperties

  class Walker {
    const regions: seq<Region>
    var fields: seq<Field>
    var unsupported: set<Marker>
    var visitedFields: set<nat>
    var sectionCounter: nat
    var desktopDetail: bool
    var steps: nat

    function Now(): Walk
      reads this
    {
      Walk(fields, unsupported, visitedFields, sectionCounter, desktopDetail, steps)
    }

    constructor (page: RawPage)
      ensures regions == page.regions && Now() == StartWalk(page)
    {
      regions := page.regions;
      fields, visitedFields, sectionCounter, desktopDetail, steps := [], {}, 0, false, 0;
      unsupported := (if page.inherited then {INHERITED_PAGE_UNSUPPORTED} else {})
          + (if page.supported then {} else {UNSUPPORTED_PAGE});
    }

    method VisitRegion(name: string, ancestry: seq<string>, ctx: Context, trail: seq<Component>)
      returns (error: Option<Error>)
      requires steps <= MAX_STEPS
      modifies this
      ensures error.Some? ==> Visit(regions, name, ancestry, ctx, trail, old(Now())) == Threw(error.value)
      ensures error.None? ==> Visit(regions, name, ancestry, ctx, trail, old(Now())) == Got(Now())
      decreases MAX_STEPS + 1 - steps, 0
    {
      steps := steps + 1;
      if steps > MAX_STEPS || |ancestry| > MAX_ANCESTRY || name in ancestry {
        return Some(CYCLE_OR_BOUND);
      }
      var region := Find(regions, name);
      if region.None? {
        return Some(MISSING_REGION);
      }
      var path := ancestry + [name];
      var items := region.value.items;
      var i := 0;
      ghost var start := Now();
      while i < |items|
        invariant i <= |items| && start.steps <= steps <= MAX_STEPS
        invariant VisitItems(regions, items, 0, path, ctx, trail, start)
               == VisitItems(regions, items, i, path, ctx, trail, Now())
      {
        error := VisitOne(items[i], i, path, ctx, trail);
        if error.Some? {
          return;
        }
        i := i + 1;
      }
      return None;
    }

    method VisitOne(item: Item, index: nat, path: seq<string>, ctx: Context, trail: seq<Component>)
      returns (error: Option<Error>)
      requires steps <= MAX_STEPS
      modifies this
      ensures error.Some? ==> VisitItem(regions, item, index, path, ctx, trail, old(Now())) == Threw(error.value)
      ensures error.None? ==> VisitItem(regions, item, index, path, ctx, trail, old(Now())) == Got(Now())
      decreases MAX_STEPS + 1 - steps, 2
    {
      if item.field.Some? {
        var f := item.field.value;
        visitedFields := visitedFields + {f.node};
        if !Placed(f, ctx) {
          unsupported := unsupported + {UNSUPPORTED_FIELD_PLACEMENT};
          return None;
        }
        if f.behavior.UnknownBehavior? {
          unsupported := unsupported + {UNSUPPORTED_UI_BEHAVIOR};
        }
        fields := fields + [Field(f.apiName.value, ctx.section, ctx.sectionOrder, ctx.column, |fields|, path,
                                  f.behavior.Required?, f.behavior.ReadOnly?, ctx.rules + FieldRules(f), f.node,
                                  trail)];
      }
      assert Now() == TakeField(item, path, ctx, trail, old(Now()));
      if item.component.None? || item.component.value.kind.MobileDetail? {
        return None;
      }
      error := EnterComponent(item.component.value, index, path, ctx, trail);
    }

    method EnterComponent(c: Component, index: nat, path: seq<string>, ctx: Context, trail: seq<Component>)
      returns (error: Option<Error>)
      requires steps <= MAX_STEPS
      modifies this
      ensures var r := VisitRefs(regions, c, 0, index, path, Enter(c, ctx, old(sectionCounter)), trail + [c],
                                 EnterWalk(c, old(Now())));
        r == if error.Some? then Threw(error.value) else Got(Now())
      decreases MAX_STEPS + 1 - steps, 1
    {
      if c.kind.DesktopDetail? {
        desktopDetail := true;
      }
      var inner := Enter(c, ctx, sectionCounter);
      if c.kind.FieldSection? {
        sectionCounter := sectionCounter + 1;
      }
      var j := 0;
      ghost var start := Now();
      assert start == EnterWalk(c, old(Now()));
      while j < |c.refs|
        invariant j <= |c.refs| && start.steps <= steps <= MAX_STEPS
        invariant VisitRefs(regions, c, 0, index, path, inner, trail + [c], start)
               == VisitRefs(regions, c, j, index, path, inner, trail + [c], Now())
      {
        var column := ColumnOf(c, index, j, inner.column);
        error := VisitRegion(c.refs[j], path, inner.(column := column), trail + [c]);
        if error.Some? {
          return;
        }
        j := j + 1;
      }
      return None;
    }

    method VisitAllRoots() returns (error: Option<Error>)
      requires steps <= MAX_STEPS
      modifies this
      ensures VisitRoots(regions, 0, old(Now())) == if error.Some? then Threw(error.value) else Got(Now())
    {
      var k := 0;
      while k < |regions|
        invariant k <= |regions| && steps <= MAX_STEPS
        invariant VisitRoots(regions, 0, old(Now())) == VisitRoots(regions, k, Now())
      {
        if regions[k].isRoot && regions[k].name.Some? {
          error := VisitRegion(regions[k].name.value, [], StartContext(), []);
          if error.Some? {
            return;
          }
        }
        k := k + 1;
      }
      return None;
    }
  }

  method ParsePage(page: RawPage) returns (r: Result<ParsedPage>)
    ensures r == Parse(page)
    ensures r.Got? ==> forall i :: 0 <= i < |r.value.fields| ==>
              r.value.fields[i].order == i && FlexiPageProperties.FieldOk(page.regions, r.value.fields[i])
  {
    if Parse(page).Got? {
      FlexiPageProperties.ParsedPageSound(page);
    }
    if |page.regions| > MAX_REGIONS || !KeysDistinct(page.regions) {
      return Threw(REGION_BOUND);
    }
    var walker := new Walker(page);
    var error := walker.VisitAllRoots();
    if error.Some? {
      return Threw(error.value);
    }
    ghost var w := walker.Now();
    if |PlacedNodes(page.regions)| != |walker.visitedFields| {
      walker.unsupported := walker.unsupported + {UNREACHABLE_FIELDS};
    }
    if !SchemaAccepts(walker.fields) {
      return Threw(SCHEMA);
    }
    assert w.unsupported + {} == w.unsupported;
    var source := if |walker.fields| > 0 then (if walker.desktopDetail then MIXED else DYNAMIC_FORMS)
                  else if walker.desktopDetail then PAGE_LAYOUT else UNRESOLVED;
    return Got(ParsedPage(source, walker.fields, walker.unsupported));
  }
}

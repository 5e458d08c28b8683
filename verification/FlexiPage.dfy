/** The walk over a FlexiPage's region graph: regions refer to each other by name, possibly
    shared and possibly in cycles. */
module FlexiPage {
  import opened Wrappers
  import VisibilityRules
  import EffectiveFields

  type Rule = VisibilityRules.Rule
  type ScopedRule = EffectiveFields.ScopedRule

  datatype Behavior = Normal | Required | ReadOnly | UnknownBehavior

  /** A placed field. `node` is the identity of its object; `apiName` is there when the
      field item has the supported form. */
  datatype FieldNode = FieldNode(node: nat, apiName: Option<string>, behavior: Behavior, rule: Option<Rule>)

  datatype Kind = MobileDetail | DesktopDetail | FieldSection | Column | OtherContainer | UnknownKind

  /** `caption` is the text a section would show; `refs` are the regions it names, in order. */
  datatype Component = Component(kind: Kind, caption: Option<string>, refs: seq<string>, rule: Option<Rule>)
  datatype Item = Item(field: Option<FieldNode>, component: Option<Component>)
  datatype Region = Region(name: Option<string>, isRoot: bool, items: seq<Item>)
  datatype RawPage = RawPage(regions: seq<Region>, inherited: bool, supported: bool)

  datatype Section = NoSection | Captioned(caption: string) | Numbered(n: nat)
  datatype Context = Context(section: Section, sectionOrder: nat, column: nat, rules: seq<ScopedRule>)

  /** An emitted field. `node` and `trail`, the containers passed on the way, are not part
      of the program's output; they say where it came from. */
  datatype Field = Field(
    apiName: string, section: Section, sectionOrder: nat, column: nat, order: nat, ancestry: seq<string>,
    required: bool, readOnly: bool, rules: seq<ScopedRule>, node: nat, trail: seq<Component>)

  datatype Marker =
    | INHERITED_PAGE_UNSUPPORTED | UNSUPPORTED_PAGE | UNSUPPORTED_FIELD_PLACEMENT | UNSUPPORTED_UI_BEHAVIOR
    | UNREACHABLE_FIELDS

  datatype Walk = Walk(fields: seq<Field>, unsupported: set<Marker>, visited: set<nat>, sectionCounter: nat,
                       desktopDetail: bool, steps: nat)
  datatype Error = REGION_BOUND | CYCLE_OR_BOUND | MISSING_REGION | SCHEMA
  datatype Result<T> = Threw(error: Error) | Got(value: T)

  const MAX_STEPS: nat := 3000
  const MAX_ANCESTRY: nat := 25
  const MAX_REGIONS: nat := 500

  // ----- lookup

  /** The key of a region in the name map: an empty name is no name. */
  function RegionKey(r: Region): Option<string> {
    if r.name.Some? && r.name.value != "" then r.name else None
  }

  function Find(regions: seq<Region>, name: string): Option<Region> {
    if regions == [] then None
    else
      var k := |regions| - 1;
      if RegionKey(regions[k]) == Some(name) then Some(regions[k]) else Find(regions[..k], name)
  }

  predicate KeysDistinct(regions: seq<Region>) {
    forall i, j :: 0 <= i < j < |regions| ==> RegionKey(regions[i]) != RegionKey(regions[j])
  }

  // ----- rules

  function FieldRules(f: FieldNode): seq<ScopedRule> {
    if f.rule.None? then [] else [EffectiveFields.ScopedRule(VisibilityRules.FIELD, f.rule.value)]
  }

  const UNSUPPORTED_RULE: Rule := VisibilityRules.Rule([], VisibilityRules.NoFilter, true)

  predicate KnownContainer(k: Kind) {
    k.FieldSection? || k.Column? || k.OtherContainer?
  }

  /** What a component adds to the rules of everything it refers to. */
  function ContainerRules(c: Component): seq<ScopedRule> {
    (if c.rule.None? then [] else [EffectiveFields.ScopedRule(VisibilityRules.CONTAINER, c.rule.value)])
    + (if c.refs != [] && !KnownContainer(c.kind) then
        [EffectiveFields.ScopedRule(VisibilityRules.CONTAINER, UNSUPPORTED_RULE)]
       else [])
  }

  function TrailRules(trail: seq<Component>): seq<ScopedRule> {
    if trail == [] then [] else TrailRules(trail[..|trail| - 1]) + ContainerRules(trail[|trail| - 1])
  }

  // ----- the walk

  function Visit(regions: seq<Region>, name: string, ancestry: seq<string>, ctx: Context, trail: seq<Component>,
                 w: Walk)
    : (r: Result<Walk>)
    ensures r.Got? ==> w.steps < r.value.steps <= MAX_STEPS
    decreases MAX_STEPS + 1 - w.steps, 0, 0
  {
    var w1 := w.(steps := w.steps + 1);
    if w1.steps > MAX_STEPS || |ancestry| > MAX_ANCESTRY || name in ancestry then Threw(CYCLE_OR_BOUND)
    else match Find(regions, name)
      case None => Threw(MISSING_REGION)
      case Some(region) => VisitItems(regions, region.items, 0, ancestry + [name], ctx, trail, w1)
  }

  function VisitItems(regions: seq<Region>, items: seq<Item>, i: nat, path: seq<string>, ctx: Context,
                      trail: seq<Component>, w: Walk)
    : (r: Result<Walk>)
    requires i <= |items| && w.steps <= MAX_STEPS
    ensures r.Got? ==> w.steps <= r.value.steps <= MAX_STEPS
    decreases MAX_STEPS + 1 - w.steps, 3, |items| - i
  {
    if i == |items| then Got(w)
    else match VisitItem(regions, items[i], i, path, ctx, trail, w)
      case Threw(e) => Threw(e)
      case Got(w1) => VisitItems(regions, items, i + 1, path, ctx, trail, w1)
  }

  /** A field counts as placed inside a section whose caption is not empty. */
  predicate Placed(f: FieldNode, ctx: Context) {
    f.apiName.Some? && ctx.section != NoSection && ctx.section != Captioned("")
  }

  /** The field of an item, if any: noted as visited, and emitted when its placement is supported. */
  function TakeField(item: Item, path: seq<string>, ctx: Context, trail: seq<Component>, w: Walk): Walk {
    if item.field.None? then w
    else
      var f := item.field.value;
      var w1 := w.(visited := w.visited + {f.node});
      if !Placed(f, ctx) then w1.(unsupported := w1.unsupported + {UNSUPPORTED_FIELD_PLACEMENT})
      else
        w1.(unsupported := w1.unsupported + (if f.behavior.UnknownBehavior? then {UNSUPPORTED_UI_BEHAVIOR} else {}),
            fields := w1.fields + [Field(f.apiName.value, ctx.section, ctx.sectionOrder, ctx.column, |w1.fields|, path,
                                         f.behavior.Required?, f.behavior.ReadOnly?, ctx.rules + FieldRules(f),
                                         f.node, trail)])
  }

  /** An item with an unsupported field placement is left at once. */
  predicate Skips(item: Item, ctx: Context) {
    || (item.field.Some? && !Placed(item.field.value, ctx))
    || item.component.None?
    || item.component.value.kind.MobileDetail?
  }

  function VisitItem(regions: seq<Region>, item: Item, index: nat, path: seq<string>, ctx: Context,
                     trail: seq<Component>, w: Walk)
    : (r: Result<Walk>)
    requires w.steps <= MAX_STEPS
    ensures r.Got? ==> w.steps <= r.value.steps <= MAX_STEPS
    decreases MAX_STEPS + 1 - w.steps, 2, 0
  {
    var w1 := TakeField(item, path, ctx, trail, w);
    if Skips(item, ctx) then Got(w1)
    else
      var c := item.component.value;
      VisitRefs(regions, c, 0, index, path, Enter(c, ctx, w1.sectionCounter), trail + [c], EnterWalk(c, w1))
  }

  /** The context inside a component, and what entering it changes. */
  function Enter(c: Component, ctx: Context, sectionCounter: nat): Context {
    Context(
      if !c.kind.FieldSection? then ctx.section
      else if c.caption.Some? then Captioned(c.caption.value) else Numbered(sectionCounter + 1),
      if c.kind.FieldSection? then sectionCounter else ctx.sectionOrder,
      ctx.column,
      ctx.rules + ContainerRules(c))
  }

  function EnterWalk(c: Component, w: Walk): Walk {
    w.(sectionCounter := w.sectionCounter + (if c.kind.FieldSection? then 1 else 0),
       desktopDetail := w.desktopDetail || c.kind.DesktopDetail?)
  }

  function ColumnOf(c: Component, index: nat, refIndex: nat, column: nat): nat {
    if c.kind.Column? then index else if c.kind.FieldSection? then refIndex else column
  }

  function VisitRefs(regions: seq<Region>, c: Component, j: nat, index: nat, path: seq<string>, ctx: Context,
                     trail: seq<Component>, w: Walk)
    : (r: Result<Walk>)
    requires j <= |c.refs| && w.steps <= MAX_STEPS
    ensures r.Got? ==> w.steps <= r.value.steps <= MAX_STEPS
    decreases MAX_STEPS + 1 - w.steps, 1, |c.refs| - j
  {
    if j == |c.refs| then Got(w)
    else match Visit(regions, c.refs[j], path, ctx.(column := ColumnOf(c, index, j, ctx.column)), trail, w)
      case Threw(e) => Threw(e)
      case Got(w1) => VisitRefs(regions, c, j + 1, index, path, ctx, trail, w1)
  }

  function StartContext(): Context {
    Context(NoSection, 0, 0, [])
  }

  function VisitRoots(regions: seq<Region>, k: nat, w: Walk): (r: Result<Walk>)
    requires k <= |regions| && w.steps <= MAX_STEPS
    ensures r.Got? ==> w.steps <= r.value.steps <= MAX_STEPS
    decreases |regions| - k
  {
    if k == |regions| then Got(w)
    else if regions[k].isRoot && regions[k].name.Some? then
      match Visit(regions, regions[k].name.value, [], StartContext(), [], w)
      case Threw(e) => Threw(e)
      case Got(w1) => VisitRoots(regions, k + 1, w1)
    else VisitRoots(regions, k + 1, w)
  }

  // ----- the page

  function FieldNodes(items: seq<Item>): seq<nat> {
    if items == [] then []
    else
      var k := |items| - 1;
      FieldNodes(items[..k]) + if items[k].field.Some? then [items[k].field.value.node] else []
  }

  function PlacedNodes(regions: seq<Region>): seq<nat> {
    if regions == [] then []
    else PlacedNodes(regions[..|regions| - 1]) + FieldNodes(regions[|regions| - 1].items)
  }

  datatype FormSource = DYNAMIC_FORMS | MIXED | PAGE_LAYOUT | UNRESOLVED
  datatype ParsedPage = ParsedPage(formSource: FormSource, fields: seq<Field>, unsupported: set<Marker>)

  const MAX_FIELDS: nat := 1000
  const MAX_RULES: nat := 30

  predicate SchemaAccepts(fields: seq<Field>) {
    |fields| <= MAX_FIELDS && forall f :: f in fields ==> |f.rules| <= MAX_RULES
  }

  function StartWalk(page: RawPage): Walk {
    Walk([], (if page.inherited then {INHERITED_PAGE_UNSUPPORTED} else {})
        + (if page.supported then {} else {UNSUPPORTED_PAGE}),
         {}, 0, false, 0)
  }

  function Finish(page: RawPage, w: Walk): Result<ParsedPage> {
    var unsupported := w.unsupported + if |PlacedNodes(page.regions)| != |w.visited| then {UNREACHABLE_FIELDS} else {};
    if !SchemaAccepts(w.fields) then Threw(SCHEMA)
    else
      Got(ParsedPage(
        if |w.fields| > 0 then (if w.desktopDetail then MIXED else DYNAMIC_FORMS)
        else if w.desktopDetail then PAGE_LAYOUT else UNRESOLVED,
        w.fields, unsupported))
  }

  function Parse(page: RawPage): Result<ParsedPage> {
    if |page.regions| > MAX_REGIONS || !KeysDistinct(page.regions) then Threw(REGION_BOUND)
    else match VisitRoots(page.regions, 0, StartWalk(page))
      case Threw(e) => Threw(e)
      case Got(w) => Finish(page, w)
  }
}

/** When the bounded sanitiser cuts something off, and what a cut leaves. A value is passed whole
    exactly when its nesting, its number of nodes and its arrays are within the bounds; whatever
    is cut, the output is the input up to its markers. */
module SanitizerBounds {
  import opened Wrappers
  import opened Sanitizer

  /** The nodes of a value that are walked, its nesting, and its longest array. */
  datatype Size = Size(nodes: nat, height: nat, widest: nat)

  function Max(a: nat, b: nat): nat {
    if a >= b then a else b
  }

  function Beside(a: Size, b: Size): Size {
    Size(a.nodes + b.nodes, Max(a.height, b.height), Max(a.widest, b.widest))
  }

  /** The size of a value nested at most `fuel` deep; a deeper one, or one that contains itself,
      has none. What stands under a secret key is not looked at. */
  function Measure(p: Policy, heap: Heap, v: Value, fuel: nat): Option<Size>
    decreases fuel, 0
  {
    if fuel == 0 then None
    else if v.Inline? || v.Shared? then MeasureContainer(p, heap, ContainerOf(v, heap), fuel - 1)
    else Some(Size(1, 1, 0))
  }

  /** `fuel` is what is left for the contents. */
  function MeasureContainer(p: Policy, heap: Heap, c: Container, fuel: nat): Option<Size>
    decreases fuel, 2
  {
    var inside := match c
                  case Arr(items) => MeasureItems(p, heap, items, fuel)
                  case Rec(entries) => MeasureEntries(p, heap, entries, fuel);
    var length := match c case Arr(items) => |items| case Rec(_) => 0;
    if inside.None? then None
    else Some(Size(inside.value.nodes + 1, inside.value.height + 1, Max(length, inside.value.widest)))
  }

  function MeasureItems(p: Policy, heap: Heap, items: seq<Value>, fuel: nat): Option<Size>
    decreases fuel, 1, |items|
  {
    if items == [] then Some(Size(0, 0, 0))
    else
      var k := |items| - 1;
      var rest, x := MeasureItems(p, heap, items[..k], fuel), Measure(p, heap, items[k], fuel);
      if rest.None? || x.None? then None else Some(Beside(rest.value, x.value))
  }

  function MeasureEntries(p: Policy, heap: Heap, entries: seq<Entry>, fuel: nat): Option<Size>
    decreases fuel, 1, |entries|
  {
    if entries == [] then Some(Size(0, 0, 0))
    else
      var k := |entries| - 1;
      var rest := MeasureEntries(p, heap, entries[..k], fuel);
      var x := if p.secret(entries[k].key) then Some(Size(0, 0, 0)) else Measure(p, heap, entries[k].value, fuel);
      if rest.None? || x.None? then None else Some(Beside(rest.value, x.value))
  }

  // ----- the size does not depend on the fuel, and needs as much fuel as the value is high

  lemma {:induction false} MeasureStable(p: Policy, heap: Heap, v: Value, fuel: nat, more: nat)
    requires fuel <= more && Measure(p, heap, v, fuel).Some?
    ensures Measure(p, heap, v, more) == Measure(p, heap, v, fuel)
    decreases fuel, 0
  {
    if v.Inline? || v.Shared? {
      match ContainerOf(v, heap)
      case Arr(items) => MeasureItemsStable(p, heap, items, fuel - 1, more - 1);
      case Rec(entries) => MeasureEntriesStable(p, heap, entries, fuel - 1, more - 1);
    }
  }

  lemma {:induction false} MeasureItemsStable(p: Policy, heap: Heap, items: seq<Value>, fuel: nat, more: nat)
    requires fuel <= more && MeasureItems(p, heap, items, fuel).Some?
    ensures MeasureItems(p, heap, items, more) == MeasureItems(p, heap, items, fuel)
    decreases fuel, 1, |items|
  {
    if items != [] {
      MeasureItemsStable(p, heap, items[..|items| - 1], fuel, more);
      MeasureStable(p, heap, items[|items| - 1], fuel, more);
    }
  }

  lemma {:induction false} MeasureEntriesStable(p: Policy, heap: Heap, entries: seq<Entry>, fuel: nat, more: nat)
    requires fuel <= more && MeasureEntries(p, heap, entries, fuel).Some?
    ensures MeasureEntries(p, heap, entries, more) == MeasureEntries(p, heap, entries, fuel)
    decreases fuel, 1, |entries|
  {
    if entries != [] {
      var last := entries[|entries| - 1];
      MeasureEntriesStable(p, heap, entries[..|entries| - 1], fuel, more);
      if !p.secret(last.key) {
        MeasureStable(p, heap, last.value, fuel, more);
      }
    }
  }

  lemma SameMeasure(p: Policy, heap: Heap, v: Value, fuel: nat, other: nat)
    requires Measure(p, heap, v, fuel).Some? && Measure(p, heap, v, other).Some?
    ensures Measure(p, heap, v, fuel) == Measure(p, heap, v, other)
  {
    if fuel <= other {
      MeasureStable(p, heap, v, fuel, other);
    } else {
      MeasureStable(p, heap, v, other, fuel);
    }
  }

  /** The objects on the way are higher than `height`, if they have a height at all. */
  ghost predicate Above(p: Policy, heap: Heap, seen: set<nat>, height: nat) {
    forall id, fuel :: id in seen && Measure(p, heap, Shared(id), fuel).Some? ==>
      Measure(p, heap, Shared(id), fuel).value.height > height
  }

  /** A value with a size contains neither itself nor an object on the way to it. */
  lemma Descends(p: Policy, heap: Heap, v: Value, seen: set<nat>, fuel: nat, less: nat)
    requires Measure(p, heap, v, fuel).Some? && (v.Inline? || v.Shared?)
    requires less < Measure(p, heap, v, fuel).value.height
    requires Above(p, heap, seen, Measure(p, heap, v, fuel).value.height)
    ensures !Circular(v, seen) && Above(p, heap, SeenBelow(v, seen), less)
  {
    if v.Shared? {
      forall other | Measure(p, heap, v, other).Some?
        ensures Measure(p, heap, v, other) == Measure(p, heap, v, fuel)
      {
        SameMeasure(p, heap, v, fuel, other);
      }
    }
  }

  // ----- within the bounds nothing is cut

  /** The walk passes the value whole and counts its nodes. */
  predicate Passes(st: Count, st': Count, size: Size) {
    st'.nodes == st.nodes + size.nodes && st'.truncated == st.truncated
  }

  predicate Within(st: Count, size: Size) {
    st.nodes + size.nodes <= MAX_NODES && size.widest <= MAX_ARRAY_ITEMS
  }

  lemma {:induction false} WalkPasses(p: Policy, heap: Heap, v: Value, depth: nat, st: Count, seen: set<nat>)
    requires depth <= MAX_DEPTH + 1 && Measure(p, heap, v, MAX_DEPTH + 1 - depth).Some?
    requires Within(st, Measure(p, heap, v, MAX_DEPTH + 1 - depth).value)
    requires Above(p, heap, seen, Measure(p, heap, v, MAX_DEPTH + 1 - depth).value.height)
    ensures Passes(st, Sanitize(p, heap, v, depth, st, seen).1, Measure(p, heap, v, MAX_DEPTH + 1 - depth).value)
    decreases MAX_DEPTH + 2 - depth, 0
  {
    var size := Measure(p, heap, v, MAX_DEPTH + 1 - depth).value;
    if v.Inline? || v.Shared? {
      Descends(p, heap, v, seen, MAX_DEPTH + 1 - depth, size.height - 1);
      ContainerPasses(p, heap, ContainerOf(v, heap), depth, st, SeenBelow(v, seen));
    }
  }

  lemma {:induction false} ContainerPasses(p: Policy, heap: Heap, c: Container, depth: nat, st: Count, seen: set<nat>)
    requires depth <= MAX_DEPTH && MeasureContainer(p, heap, c, MAX_DEPTH - depth).Some?
    requires Within(st, MeasureContainer(p, heap, c, MAX_DEPTH - depth).value)
    requires Above(p, heap, seen, MeasureContainer(p, heap, c, MAX_DEPTH - depth).value.height - 1)
    ensures Passes(st, SanitizeContainer(p, heap, c, depth, st, seen).1,
                   MeasureContainer(p, heap, c, MAX_DEPTH - depth).value)
    decreases MAX_DEPTH + 1 - depth, 2
  {
    var st1 := st.(nodes := st.nodes + 1);
    match c
    case Arr(items) =>
      assert First(items) == items;
      ItemsPass(p, heap, items, depth + 1, st1, seen);
    case Rec(entries) => EntriesPass(p, heap, entries, depth + 1, st1, seen);
  }

  lemma AboveLess(p: Policy, heap: Heap, seen: set<nat>, height: nat, less: nat)
    requires Above(p, heap, seen, height) && less <= height
    ensures Above(p, heap, seen, less)
  {
  }

  lemma {:induction false} ItemsPass(p: Policy, heap: Heap, items: seq<Value>, depth: nat, st: Count, seen: set<nat>)
    requires depth <= MAX_DEPTH + 1 && MeasureItems(p, heap, items, MAX_DEPTH + 1 - depth).Some?
    requires Within(st, MeasureItems(p, heap, items, MAX_DEPTH + 1 - depth).value)
    requires Above(p, heap, seen, MeasureItems(p, heap, items, MAX_DEPTH + 1 - depth).value.height)
    ensures Passes(st, SanitizeItems(p, heap, items, depth, st, seen).1,
                   MeasureItems(p, heap, items, MAX_DEPTH + 1 - depth).value)
    decreases MAX_DEPTH + 2 - depth, 1, |items|
  {
    if items != [] {
      var k, fuel := |items| - 1, MAX_DEPTH + 1 - depth;
      var height := MeasureItems(p, heap, items, fuel).value.height;
      AboveLess(p, heap, seen, height, MeasureItems(p, heap, items[..k], fuel).value.height);
      AboveLess(p, heap, seen, height, Measure(p, heap, items[k], fuel).value.height);
      ItemsPass(p, heap, items[..k], depth, st, seen);
      WalkPasses(p, heap, items[k], depth, SanitizeItems(p, heap, items[..k], depth, st, seen).1, seen);
    }
  }

  lemma {:induction false} EntriesPass(p: Policy, heap: Heap, entries: seq<Entry>, depth: nat, st: Count,
                                       seen: set<nat>)
    requires depth <= MAX_DEPTH + 1 && MeasureEntries(p, heap, entries, MAX_DEPTH + 1 - depth).Some?
    requires Within(st, MeasureEntries(p, heap, entries, MAX_DEPTH + 1 - depth).value)
    requires Above(p, heap, seen, MeasureEntries(p, heap, entries, MAX_DEPTH + 1 - depth).value.height)
    ensures Passes(st, SanitizeEntries(p, heap, entries, depth, st, seen).1,
                   MeasureEntries(p, heap, entries, MAX_DEPTH + 1 - depth).value)
    decreases MAX_DEPTH + 2 - depth, 1, |entries|
  {
    if entries != [] {
      var k, fuel := |entries| - 1, MAX_DEPTH + 1 - depth;
      var height := MeasureEntries(p, heap, entries, fuel).value.height;
      AboveLess(p, heap, seen, height, MeasureEntries(p, heap, entries[..k], fuel).value.height);
      EntriesPass(p, heap, entries[..k], depth, st, seen);
      if !p.secret(entries[k].key) {
        AboveLess(p, heap, seen, height, Measure(p, heap, entries[k].value, fuel).value.height);
        WalkPasses(p, heap, entries[k].value, depth, SanitizeEntries(p, heap, entries[..k], depth, st, seen).1, seen);
      }
    }
  }

  // ----- what is passed whole is within the bounds

  lemma {:induction false} PassedIsMeasured(p: Policy, heap: Heap, v: Value, depth: nat, st: Count, seen: set<nat>)
    requires depth <= MAX_DEPTH + 1 && st.nodes <= MAX_NODES && !Sanitize(p, heap, v, depth, st, seen).1.truncated
    ensures var size := Measure(p, heap, v, MAX_DEPTH + 1 - depth);
      size.Some? && Within(st, size.value) && Passes(st, Sanitize(p, heap, v, depth, st, seen).1, size.value)
    decreases MAX_DEPTH + 2 - depth, 0
  {
    if v.Inline? || v.Shared? {
      var st1 := st.(nodes := st.nodes + 1);
      match ContainerOf(v, heap)
      case Arr(items) =>
        assert First(items) == items;
        PassedItemsMeasured(p, heap, items, depth + 1, st1, SeenBelow(v, seen));
      case Rec(entries) => PassedEntriesMeasured(p, heap, entries, depth + 1, st1, SeenBelow(v, seen));
    }
  }

  lemma {:induction false} PassedItemsMeasured(p: Policy, heap: Heap, items: seq<Value>, depth: nat, st: Count,
                                               seen: set<nat>)
    requires depth <= MAX_DEPTH + 1 && st.nodes <= MAX_NODES
    requires !SanitizeItems(p, heap, items, depth, st, seen).1.truncated
    ensures var size := MeasureItems(p, heap, items, MAX_DEPTH + 1 - depth);
      size.Some? && Within(st, size.value) && Passes(st, SanitizeItems(p, heap, items, depth, st, seen).1, size.value)
    decreases MAX_DEPTH + 2 - depth, 1, |items|
  {
    if items != [] {
      var k := |items| - 1;
      PassedItemsMeasured(p, heap, items[..k], depth, st, seen);
      PassedIsMeasured(p, heap, items[k], depth, SanitizeItems(p, heap, items[..k], depth, st, seen).1, seen);
    }
  }

  lemma {:induction false} PassedEntriesMeasured(p: Policy, heap: Heap, entries: seq<Entry>, depth: nat, st: Count,
                                                 seen: set<nat>)
    requires depth <= MAX_DEPTH + 1 && st.nodes <= MAX_NODES
    requires !SanitizeEntries(p, heap, entries, depth, st, seen).1.truncated
    ensures var size := MeasureEntries(p, heap, entries, MAX_DEPTH + 1 - depth);
      && size.Some? && Within(st, size.value)
      && Passes(st, SanitizeEntries(p, heap, entries, depth, st, seen).1, size.value)
    decreases MAX_DEPTH + 2 - depth, 1, |entries|
  {
    if entries != [] {
      var k := |entries| - 1;
      PassedEntriesMeasured(p, heap, entries[..k], depth, st, seen);
      if !p.secret(entries[k].key) {
        PassedIsMeasured(p, heap, entries[k].value, depth, SanitizeEntries(p, heap, entries[..k], depth, st, seen).1,
                         seen);
      }
    }
  }

  /** The result is marked truncated exactly when the value is nested more than eleven levels deep
      (an object that contains itself is), or holds more than 10000 nodes, or an array of more
      than 500 items. */
  lemma TruncatedExactly(p: Policy, heap: Heap, v: Value)
    ensures Sanitize(p, heap, v, 0, Count(0, false), {}).1.truncated <==>
      match Measure(p, heap, v, 11)
      case None => true
      case Some(size) => size.nodes > 10_000 || size.widest > 500
  {
    if !Sanitize(p, heap, v, 0, Count(0, false), {}).1.truncated {
      PassedIsMeasured(p, heap, v, 0, Count(0, false), {});
    } else if Measure(p, heap, v, 11).Some? && Within(Count(0, false), Measure(p, heap, v, 11).value) {
      WalkPasses(p, heap, v, 0, Count(0, false), {});
    }
  }

  // ----- what a cut leaves

  /** `o` is the redaction of `v`, except for what the markers stand for: a value that was cut off,
      the rest of an array after its first 500 items, or an object met inside itself. */
  predicate CutOf(p: Policy, heap: Heap, v: Value, o: Value)
    decreases o
  {
    || o == Text(TRUNCATION_MARKER)
    || (o == Text(CIRCULAR_MARKER) && v.Shared?)
    || match v
       case Null => o == Null
       case Undefined => o == Null
       case Bool(_) => o == v
       case Num(_) => o == v
       case Text(s) => o == Text(p.filter(s))
       case Plain(s) => o == Text(s)
       case ErrorValue(name, message) =>
         o == Inline(Rec([Entry("name", Text(p.filter(name))), Entry("message", Text(p.filter(message)))]))
       case _ =>
         match ContainerOf(v, heap)
         case Arr(items) => o.Inline? && o.c.Arr? && CutItems(p, heap, items, o.c.items)
         case Rec(entries) => o.Inline? && o.c.Rec? && CutEntries(p, heap, entries, o.c.entries)
  }

  /** All items, or the first 500 and a marker for the rest. */
  predicate CutItems(p: Policy, heap: Heap, items: seq<Value>, os: seq<Value>)
    decreases os
  {
    && (|items| <= 500 ==> |os| == |items|)
    && (|items| > 500 ==> |os| == 501 && os[500] == Text(TRUNCATION_MARKER))
    && forall i :: 0 <= i < |items| && i < 500 && i < |os| ==> CutOf(p, heap, items[i], os[i])
  }

  /** All entries, under their keys; the secret ones redacted. */
  predicate CutEntries(p: Policy, heap: Heap, entries: seq<Entry>, os: seq<Entry>)
    decreases os
  {
    && |os| == |entries|
    && forall i :: 0 <= i < |entries| && i < |os| ==>
         && os[i].key == entries[i].key
         && (if p.secret(entries[i].key) then os[i].value == Text(REDACTION_MARKER)
             else CutOf(p, heap, entries[i].value, os[i].value))
  }

  /** Whatever was cut, the output is the redaction of the input up to the markers. */
  lemma {:induction false} OutputIsCutInput(p: Policy, heap: Heap, v: Value, depth: nat, st: Count, seen: set<nat>)
    ensures CutOf(p, heap, v, Sanitize(p, heap, v, depth, st, seen).0)
    decreases MAX_DEPTH + 2 - depth, 0
  {
    if !OverBound(depth, st) && (v.Inline? || v.Shared?) && !Circular(v, seen) {
      var st1 := st.(nodes := st.nodes + 1);
      match ContainerOf(v, heap)
      case Arr(items) =>
        ItemsAreCut(p, heap, First(items), depth + 1, st1, SeenBelow(v, seen));
        var os := SanitizeItems(p, heap, First(items), depth + 1, st1, SeenBelow(v, seen)).0;
        assert CutItems(p, heap, items, if |items| > 500 then os + [Text(TRUNCATION_MARKER)] else os);
      case Rec(entries) =>
        EntriesAreCut(p, heap, entries, depth + 1, st1, SeenBelow(v, seen));
        assert CutEntries(p, heap, entries, SanitizeEntries(p, heap, entries, depth + 1, st1, SeenBelow(v, seen)).0);
    }
  }

  lemma {:induction false} ItemsAreCut(p: Policy, heap: Heap, items: seq<Value>, depth: nat, st: Count, seen: set<nat>)
    requires depth <= MAX_DEPTH + 1
    ensures var os := SanitizeItems(p, heap, items, depth, st, seen).0;
      forall i :: 0 <= i < |items| ==> CutOf(p, heap, items[i], os[i])
    decreases MAX_DEPTH + 2 - depth, 1, |items|
  {
    if items != [] {
      var k := |items| - 1;
      ItemsAreCut(p, heap, items[..k], depth, st, seen);
      OutputIsCutInput(p, heap, items[k], depth, SanitizeItems(p, heap, items[..k], depth, st, seen).1, seen);
    }
  }

  lemma {:induction false} EntriesAreCut(p: Policy, heap: Heap, entries: seq<Entry>, depth: nat, st: Count,
                                         seen: set<nat>)
    requires depth <= MAX_DEPTH + 1
    ensures var os := SanitizeEntries(p, heap, entries, depth, st, seen).0;
      forall i :: 0 <= i < |entries| ==>
        if p.secret(entries[i].key) then os[i].value == Text(REDACTION_MARKER)
        else CutOf(p, heap, entries[i].value, os[i].value)
    decreases MAX_DEPTH + 2 - depth, 1, |entries|
  {
    if entries != [] {
      var k := |entries| - 1;
      EntriesAreCut(p, heap, entries[..k], depth, st, seen);
      if !p.secret(entries[k].key) {
        OutputIsCutInput(p, heap, entries[k].value, depth, SanitizeEntries(p, heap, entries[..k], depth, st, seen).1,
                         seen);
      }
    }
  }
}

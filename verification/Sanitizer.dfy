/** The bounded sanitiser: a walk that threads a node counter, a depth limit and a
    truncation flag through a value. */
module Sanitizer {

  const MAX_DEPTH: nat := 10
  const MAX_NODES: nat := 10_000
  const MAX_ARRAY_ITEMS: nat := 500
  const REDACTION_MARKER: string := "[REDACTED]"
  const TRUNCATION_MARKER: string := "[TRUNCATED]"
  const CIRCULAR_MARKER: string := "[CIRCULAR]"

  /** `Plain` carries the texts the walk emits unfiltered: a non-finite number, a big
      integer, a symbol, a function or a date. A container is written in place, or is the
      object `id` of the heap, which may be shared or contain itself. */
  datatype Value =
    | Null
    | Undefined
    | Bool(b: bool)
    | Num(x: real)
    | Text(s: string)
    | Plain(s: string)
    | ErrorValue(name: string, message: string)
    | Inline(c: Container)
    | Shared(id: nat)

  datatype Container = Arr(items: seq<Value>) | Rec(entries: seq<Entry>)
  datatype Entry = Entry(key: string, value: Value)

  type Heap = map<nat, Container>

  /** The text filter and the secret-key test, both pattern matches in the original. */
  datatype Policy = Policy(filter: string -> string, secret: string -> bool)
  {
    ghost predicate Sound() {
      && (forall s :: filter(filter(s)) == filter(s))
      && filter(REDACTION_MARKER) == REDACTION_MARKER
      && filter(TRUNCATION_MARKER) == TRUNCATION_MARKER
      && filter(CIRCULAR_MARKER) == CIRCULAR_MARKER
      && !secret("name") && !secret("message")
    }
  }

  datatype Count = Count(nodes: nat, truncated: bool)

  predicate OverBound(depth: nat, st: Count) {
    st.nodes + 1 > MAX_NODES || depth > MAX_DEPTH
  }

  function ContainerOf(v: Value, heap: Heap): Container
    requires v.Inline? || v.Shared?
  {
    match v
    case Inline(c) => c
    case Shared(id) => if id in heap then heap[id] else Rec([])
  }

  predicate Circular(v: Value, seen: set<nat>) {
    v.Shared? && v.id in seen
  }

  function SeenBelow(v: Value, seen: set<nat>): set<nat> {
    if v.Shared? then seen + {v.id} else seen
  }

  function First(items: seq<Value>): seq<Value> {
    if |items| > MAX_ARRAY_ITEMS then items[..MAX_ARRAY_ITEMS] else items
  }

  function ErrorRecord(p: Policy, name: string, message: string): Value {
    Inline(Rec([Entry("name", Text(p.filter(name))), Entry("message", Text(p.filter(message)))]))
  }

  // ----- the walk

  function Sanitize(p: Policy, heap: Heap, v: Value, depth: nat, st: Count, seen: set<nat>)
    : (r: (Value, Count))
    ensures st.truncated ==> r.1.truncated
    decreases MAX_DEPTH + 2 - depth, 0
  {
    var st1 := st.(nodes := st.nodes + 1);
    if OverBound(depth, st) then (Text(TRUNCATION_MARKER), st1.(truncated := true))
    else match v
      case Null => (Null, st1)
      case Undefined => (Null, st1)
      case Bool(_) => (v, st1)
      case Num(_) => (v, st1)
      case Text(s) => (Text(p.filter(s)), st1)
      case Plain(s) => (Text(s), st1)
      case ErrorValue(name, message) => (ErrorRecord(p, name, message), st1)
      case _ =>
        if Circular(v, seen) then (Text(CIRCULAR_MARKER), st1.(truncated := true))
        else SanitizeContainer(p, heap, ContainerOf(v, heap), depth, st, SeenBelow(v, seen))
  }

  function SanitizeContainer(p: Policy, heap: Heap, c: Container, depth: nat, st: Count, seen: set<nat>)
    : (r: (Value, Count))
    requires depth <= MAX_DEPTH
    ensures st.truncated ==> r.1.truncated
    decreases MAX_DEPTH + 1 - depth, 2
  {
    var st1 := st.(nodes := st.nodes + 1);
    match c
    case Arr(items) =>
      var (out, st2) := SanitizeItems(p, heap, First(items), depth + 1, st1, seen);
      if |items| > MAX_ARRAY_ITEMS then
        (Inline(Arr(out + [Text(TRUNCATION_MARKER)])), st2.(truncated := true))
      else (Inline(Arr(out)), st2)
    case Rec(entries) =>
      var (out, st2) := SanitizeEntries(p, heap, entries, depth + 1, st1, seen);
      (Inline(Rec(out)), st2)
  }

  function SanitizeItems(p: Policy, heap: Heap, items: seq<Value>, depth: nat, st: Count, seen: set<nat>)
    : (r: (seq<Value>, Count))
    requires depth <= MAX_DEPTH + 1
    ensures |r.0| == |items| && (st.truncated ==> r.1.truncated)
    decreases MAX_DEPTH + 2 - depth, 1, |items|
  {
    if items == [] then ([], st)
    else
      var k := |items| - 1;
      var (out, st1) := SanitizeItems(p, heap, items[..k], depth, st, seen);
      var (x, st2) := Sanitize(p, heap, items[k], depth, st1, seen);
      (out + [x], st2)
  }

  function SanitizeEntries(p: Policy, heap: Heap, entries: seq<Entry>, depth: nat, st: Count, seen: set<nat>)
    : (r: (seq<Entry>, Count))
    requires depth <= MAX_DEPTH + 1
    ensures st.truncated ==> r.1.truncated
    ensures |r.0| == |entries| && forall i :: 0 <= i < |entries| ==> r.0[i].key == entries[i].key
    decreases MAX_DEPTH + 2 - depth, 1, |entries|
  {
    if entries == [] then ([], st)
    else
      var k := |entries| - 1;
      var (out, st1) := SanitizeEntries(p, heap, entries[..k], depth, st, seen);
      if p.secret(entries[k].key) then (out + [Entry(entries[k].key, Text(REDACTION_MARKER))], st1)
      else
        var (x, st2) := Sanitize(p, heap, entries[k].value, depth, st1, seen);
        (out + [Entry(entries[k].key, x)], st2)
  }

  // ----- when a second pass changes nothing

  /** The walk meets no error object and no unfiltered text that the filter would change. */
  predicate Clean(p: Policy, heap: Heap, v: Value, depth: nat, st: Count, seen: set<nat>)
    decreases MAX_DEPTH + 2 - depth, 0
  {
    OverBound(depth, st) ||
    if v.Inline? || v.Shared? then
      Circular(v, seen) || CleanContainer(p, heap, ContainerOf(v, heap), depth, st, SeenBelow(v, seen))
    else (v.Plain? ==> p.filter(v.s) == v.s) && !v.ErrorValue?
  }

  predicate CleanContainer(p: Policy, heap: Heap, c: Container, depth: nat, st: Count, seen: set<nat>)
    requires depth <= MAX_DEPTH
    decreases MAX_DEPTH + 1 - depth, 2
  {
    var st1 := st.(nodes := st.nodes + 1);
    match c
    case Arr(items) => CleanItems(p, heap, First(items), depth + 1, st1, seen)
    case Rec(entries) => CleanEntries(p, heap, entries, depth + 1, st1, seen)
  }

  predicate CleanItems(p: Policy, heap: Heap, items: seq<Value>, depth: nat, st: Count, seen: set<nat>)
    requires depth <= MAX_DEPTH + 1
    decreases MAX_DEPTH + 2 - depth, 1, |items|
  {
    items == [] ||
    (var k := |items| - 1;
     && CleanItems(p, heap, items[..k], depth, st, seen)
     && Clean(p, heap, items[k], depth, SanitizeItems(p, heap, items[..k], depth, st, seen).1, seen))
  }

  predicate CleanEntries(p: Policy, heap: Heap, entries: seq<Entry>, depth: nat, st: Count, seen: set<nat>)
    requires depth <= MAX_DEPTH + 1
    decreases MAX_DEPTH + 2 - depth, 1, |entries|
  {
    entries == [] ||
    (var k := |entries| - 1;
     && CleanEntries(p, heap, entries[..k], depth, st, seen)
     && (p.secret(entries[k].key) ||
         Clean(p, heap, entries[k].value, depth, SanitizeEntries(p, heap, entries[..k], depth, st, seen).1, seen)))
  }

  // The second pass starts on the output of the first, with no heap and nothing seen. Only
  // its node count matters to what it returns.

  lemma {:induction false} TwiceIsOnce(p: Policy, heap: Heap, v: Value, depth: nat, st: Count, seen: set<nat>,
                                       st2: Count)
    requires p.Sound() && Clean(p, heap, v, depth, st, seen) && st2.nodes == st.nodes
    ensures var (o, st') := Sanitize(p, heap, v, depth, st, seen);
      var (o2, st2') := Sanitize(p, map[], o, depth, st2, {});
      o2 == o && st2'.nodes == st'.nodes
    decreases MAX_DEPTH + 2 - depth, 0
  {
    if !OverBound(depth, st) && (v.Inline? || v.Shared?) && !Circular(v, seen) {
      ContainerTwice(p, heap, ContainerOf(v, heap), depth, st, SeenBelow(v, seen), st2);
    } else {
      LeafTwice(p, heap, v, depth, st, seen, st2);
    }
  }

  /** What is not walked into is a text or a plain value afterwards, or was cut off. */
  lemma LeafTwice(p: Policy, heap: Heap, v: Value, depth: nat, st: Count, seen: set<nat>, st2: Count)
    requires p.Sound() && Clean(p, heap, v, depth, st, seen) && st2.nodes == st.nodes
    requires OverBound(depth, st) || !(v.Inline? || v.Shared?) || Circular(v, seen)
    ensures var (o, st') := Sanitize(p, heap, v, depth, st, seen);
      var (o2, st2') := Sanitize(p, map[], o, depth, st2, {});
      o2 == o && st2'.nodes == st'.nodes
  {
  }

  lemma ContainerTwice(p: Policy, heap: Heap, c: Container, depth: nat, st: Count, seen: set<nat>, st2: Count)
    requires p.Sound() && depth <= MAX_DEPTH && CleanContainer(p, heap, c, depth, st, seen) && st2.nodes == st.nodes
    ensures var (o, st') := SanitizeContainer(p, heap, c, depth, st, seen);
      && o.Inline?
      && var (o2, st2') := SanitizeContainer(p, map[], o.c, depth, st2, {});
      o2 == o && st2'.nodes == st'.nodes
    decreases MAX_DEPTH + 1 - depth, 2
  {
    match c
    case Arr(items) => ArrayTwice(p, heap, items, depth, st, seen, st2);
    case Rec(entries) => RecordTwice(p, heap, entries, depth, st, seen, st2);
  }

  lemma RecordTwice(p: Policy, heap: Heap, entries: seq<Entry>, depth: nat, st: Count, seen: set<nat>, st2: Count)
    requires p.Sound() && depth <= MAX_DEPTH && st2.nodes == st.nodes
    requires CleanEntries(p, heap, entries, depth + 1, st.(nodes := st.nodes + 1), seen)
    ensures var (o, st') := SanitizeContainer(p, heap, Rec(entries), depth, st, seen);
      && o.Inline?
      && var (o2, st2') := SanitizeContainer(p, map[], o.c, depth, st2, {});
      o2 == o && st2'.nodes == st'.nodes
    decreases MAX_DEPTH + 1 - depth, 1
  {
    var st1, st21 := st.(nodes := st.nodes + 1), st2.(nodes := st2.nodes + 1);
    EntriesTwice(p, heap, entries, depth + 1, st1, seen, st21);
    var (out, _) := SanitizeEntries(p, heap, entries, depth + 1, st1, seen);
    RecordPasses(p, heap, entries, depth, st, seen);
    RecordPasses(p, map[], out, depth, st2, {});
  }

  lemma ArrayTwice(p: Policy, heap: Heap, items: seq<Value>, depth: nat, st: Count, seen: set<nat>, st2: Count)
    requires p.Sound() && depth <= MAX_DEPTH && CleanContainer(p, heap, Arr(items), depth, st, seen)
    requires st2.nodes == st.nodes
    ensures var (o, st') := SanitizeContainer(p, heap, Arr(items), depth, st, seen);
      && o.Inline?
      && var (o2, st2') := SanitizeContainer(p, map[], o.c, depth, st2, {});
      o2 == o && st2'.nodes == st'.nodes
    decreases MAX_DEPTH + 1 - depth, 1
  {
    var st1, st21 := st.(nodes := st.nodes + 1), st2.(nodes := st2.nodes + 1);
    ItemsTwice(p, heap, First(items), depth + 1, st1, seen, st21);
    var out := SanitizeItems(p, heap, First(items), depth + 1, st1, seen).0;
    if |items| > MAX_ARRAY_ITEMS {
      assert First(out + [Text(TRUNCATION_MARKER)]) == out;
    } else {
      assert First(out) == out;
    }
  }

  lemma {:induction false} ItemsTwice(p: Policy, heap: Heap, items: seq<Value>, depth: nat, st: Count, seen: set<nat>,
                                      st2: Count)
    requires p.Sound() && depth <= MAX_DEPTH + 1 && CleanItems(p, heap, items, depth, st, seen) && st2.nodes == st.nodes
    ensures var (os, st') := SanitizeItems(p, heap, items, depth, st, seen);
      var (os2, st2') := SanitizeItems(p, map[], os, depth, st2, {});
      os2 == os && st2'.nodes == st'.nodes
    decreases MAX_DEPTH + 2 - depth, 1, |items|
  {
    if items != [] {
      var k := |items| - 1;
      ItemsTwice(p, heap, items[..k], depth, st, seen, st2);
      var (os, st1) := SanitizeItems(p, heap, items[..k], depth, st, seen);
      var (os2, st21) := SanitizeItems(p, map[], os, depth, st2, {});
      TwiceIsOnce(p, heap, items[k], depth, st1, seen, st21);
      var (x, _) := Sanitize(p, heap, items[k], depth, st1, seen);
      assert (os + [x])[..k] == os;
    }
  }

  lemma {:induction false} EntriesTwice(p: Policy, heap: Heap, entries: seq<Entry>, depth: nat, st: Count,
                                        seen: set<nat>, st2: Count)
    requires p.Sound() && depth <= MAX_DEPTH + 1 && CleanEntries(p, heap, entries, depth, st, seen)
        && st2.nodes == st.nodes
    ensures var (os, st') := SanitizeEntries(p, heap, entries, depth, st, seen);
      var (os2, st2') := SanitizeEntries(p, map[], os, depth, st2, {});
      os2 == os && st2'.nodes == st'.nodes
    decreases MAX_DEPTH + 2 - depth, 1, |entries|
  {
    if entries != [] {
      var k := |entries| - 1;
      EntriesTwice(p, heap, entries[..k], depth, st, seen, st2);
      var (os, st1) := SanitizeEntries(p, heap, entries[..k], depth, st, seen);
      var (os2, st21) := SanitizeEntries(p, map[], os, depth, st2, {});
      var all := SanitizeEntries(p, heap, entries, depth, st, seen).0;
      assert all[..k] == os;
      if !p.secret(entries[k].key) {
        TwiceIsOnce(p, heap, entries[k].value, depth, st1, seen, st21);
      }
    }
  }

  // ----- and only then: an error object costs the second pass two more nodes

  /** The second pass from `st2` over the output of the first from `st` returns that output. */
  predicate Reproduces(p: Policy, heap: Heap, v: Value, depth: nat, st: Count, seen: set<nat>, st2: Count) {
    var o := Sanitize(p, heap, v, depth, st, seen).0;
    Sanitize(p, map[], o, depth, st2, {}).0 == o
  }

  function Spent(p: Policy, heap: Heap, v: Value, depth: nat, st: Count, seen: set<nat>): int {
    Sanitize(p, heap, v, depth, st, seen).1.nodes - st.nodes
  }

  function SpentAgain(p: Policy, heap: Heap, v: Value, depth: nat, st: Count, seen: set<nat>, st2: Count): int {
    Sanitize(p, map[], Sanitize(p, heap, v, depth, st, seen).0, depth, st2, {}).1.nodes - st2.nodes
  }

  lemma {:induction false} ReproducedCost(p: Policy, heap: Heap, v: Value, depth: nat, st: Count, seen: set<nat>,
                                          st2: Count)
    requires p.Sound() && st.nodes <= st2.nodes && Reproduces(p, heap, v, depth, st, seen, st2)
    ensures Spent(p, heap, v, depth, st, seen) <= SpentAgain(p, heap, v, depth, st, seen, st2)
    ensures Spent(p, heap, v, depth, st, seen) == SpentAgain(p, heap, v, depth, st, seen, st2) ==>
              Clean(p, heap, v, depth, st, seen)
    decreases MAX_DEPTH + 2 - depth, 0
  {
    if !OverBound(depth, st) {
      if v.ErrorValue? {
        ErrorCost(p, v.name, v.message, depth, st2);
      } else if (v.Inline? || v.Shared?) && !Circular(v, seen) {
        ContainerCost(p, heap, ContainerOf(v, heap), depth, st, SeenBelow(v, seen), st2);
      }
    }
  }

  lemma TextEntryCost(p: Policy, before: seq<Entry>, key: string, s: string, depth: nat, st: Count)
    requires depth <= MAX_DEPTH + 1 && !p.secret(key)
    ensures SanitizeEntries(p, map[], before + [Entry(key, Text(s))], depth, st, {}).1.nodes
         == SanitizeEntries(p, map[], before, depth, st, {}).1.nodes + 1
  {
    assert (before + [Entry(key, Text(s))])[..|before|] == before;
  }

  lemma ErrorCost(p: Policy, name: string, message: string, depth: nat, st2: Count)
    requires p.Sound() && depth <= MAX_DEPTH && st2.nodes + 1 <= MAX_NODES
    ensures Sanitize(p, map[], ErrorRecord(p, name, message), depth, st2, {}).1.nodes == st2.nodes + 3
  {
    var st := st2.(nodes := st2.nodes + 1);
    TextEntryCost(p, [], "name", p.filter(name), depth + 1, st);
    var one := [] + [Entry("name", Text(p.filter(name)))];
    TextEntryCost(p, one, "message", p.filter(message), depth + 1, st);
    assert one + [Entry("message", Text(p.filter(message)))] == ErrorRecord(p, name, message).c.entries;
  }

  lemma ContainerCost(p: Policy, heap: Heap, c: Container, depth: nat, st: Count, seen: set<nat>, st2: Count)
    requires p.Sound() && depth <= MAX_DEPTH && st.nodes <= st2.nodes
    ensures var (o, st') := SanitizeContainer(p, heap, c, depth, st, seen);
      && o.Inline?
      && var (o2, st2') := SanitizeContainer(p, map[], o.c, depth, st2, {});
      o2 == o ==>
        && st'.nodes - st.nodes <= st2'.nodes - st2.nodes
        && (st'.nodes - st.nodes == st2'.nodes - st2.nodes ==> CleanContainer(p, heap, c, depth, st, seen))
    decreases MAX_DEPTH + 1 - depth, 2
  {
    match c
    case Arr(items) => ArrayCost(p, heap, items, depth, st, seen, st2);
    case Rec(entries) => RecordCost(p, heap, entries, depth, st, seen, st2);
  }

  lemma RecordCost(p: Policy, heap: Heap, entries: seq<Entry>, depth: nat, st: Count, seen: set<nat>, st2: Count)
    requires p.Sound() && depth <= MAX_DEPTH && st.nodes <= st2.nodes
    ensures var (o, st') := SanitizeContainer(p, heap, Rec(entries), depth, st, seen);
      && o.Inline?
      && var (o2, st2') := SanitizeContainer(p, map[], o.c, depth, st2, {});
      o2 == o ==>
        && st'.nodes - st.nodes <= st2'.nodes - st2.nodes
        && (st'.nodes - st.nodes == st2'.nodes - st2.nodes ==> CleanContainer(p, heap, Rec(entries), depth, st, seen))
    decreases MAX_DEPTH + 1 - depth, 1
  {
    var out := SanitizeEntries(p, heap, entries, depth + 1, st.(nodes := st.nodes + 1), seen).0;
    RecordPasses(p, heap, entries, depth, st, seen);
    RecordPasses(p, map[], out, depth, st2, {});
    EntriesCost(p, heap, entries, depth + 1, st.(nodes := st.nodes + 1), seen, st2.(nodes := st2.nodes + 1));
  }

  lemma RecordPasses(p: Policy, heap: Heap, entries: seq<Entry>, depth: nat, st: Count, seen: set<nat>)
    requires depth <= MAX_DEPTH
    ensures var (out, st') := SanitizeEntries(p, heap, entries, depth + 1, st.(nodes := st.nodes + 1), seen);
      SanitizeContainer(p, heap, Rec(entries), depth, st, seen) == (Inline(Rec(out)), st')
  {
  }

  /** The first pass over an array leaves the same first items to the second. */
  lemma ArrayAgain(p: Policy, heap: Heap, items: seq<Value>, depth: nat, st: Count, seen: set<nat>, st2: Count)
    requires depth <= MAX_DEPTH
    ensures var out := SanitizeItems(p, heap, First(items), depth + 1, st.(nodes := st.nodes + 1), seen).0;
      var r := SanitizeItems(p, map[], out, depth + 1, st2.(nodes := st2.nodes + 1), {});
      var o := SanitizeContainer(p, heap, Arr(items), depth, st, seen).0;
      && o.Inline?
      && var again := SanitizeContainer(p, map[], o.c, depth, st2, {});
      again.1.nodes == r.1.nodes && (again.0 == o ==> r.0 == out)
  {
    var out := SanitizeItems(p, heap, First(items), depth + 1, st.(nodes := st.nodes + 1), seen).0;
    var out2 := SanitizeItems(p, map[], out, depth + 1, st2.(nodes := st2.nodes + 1), {}).0;
    var marker := [Text(TRUNCATION_MARKER)];
    if |items| > MAX_ARRAY_ITEMS {
      assert First(out + marker) == out;
      assert (out2 + marker)[..|out|] == out2 && (out + marker)[..|out|] == out;
    } else {
      assert First(out) == out;
    }
  }

  lemma ArrayCost(p: Policy, heap: Heap, items: seq<Value>, depth: nat, st: Count, seen: set<nat>, st2: Count)
    requires p.Sound() && depth <= MAX_DEPTH && st.nodes <= st2.nodes
    ensures var (o, st') := SanitizeContainer(p, heap, Arr(items), depth, st, seen);
      && o.Inline?
      && var (o2, st2') := SanitizeContainer(p, map[], o.c, depth, st2, {});
      o2 == o ==>
        && st'.nodes - st.nodes <= st2'.nodes - st2.nodes
        && (st'.nodes - st.nodes == st2'.nodes - st2.nodes ==> CleanContainer(p, heap, Arr(items), depth, st, seen))
    decreases MAX_DEPTH + 1 - depth, 1
  {
    ArrayAgain(p, heap, items, depth, st, seen, st2);
    ItemsCost(p, heap, First(items), depth + 1, st.(nodes := st.nodes + 1), seen, st2.(nodes := st2.nodes + 1));
  }

  lemma {:induction false} ItemsCost(p: Policy, heap: Heap, items: seq<Value>, depth: nat, st: Count, seen: set<nat>,
                                     st2: Count)
    requires p.Sound() && depth <= MAX_DEPTH + 1 && st.nodes <= st2.nodes
    ensures var (os, st') := SanitizeItems(p, heap, items, depth, st, seen);
      var (os2, st2') := SanitizeItems(p, map[], os, depth, st2, {});
      os2 == os ==>
        && st'.nodes - st.nodes <= st2'.nodes - st2.nodes
        && (st'.nodes - st.nodes == st2'.nodes - st2.nodes ==> CleanItems(p, heap, items, depth, st, seen))
    decreases MAX_DEPTH + 2 - depth, 1, |items|
  {
    if items != [] {
      var k := |items| - 1;
      var (os, st1) := SanitizeItems(p, heap, items[..k], depth, st, seen);
      var (os2, st21) := SanitizeItems(p, map[], os, depth, st2, {});
      var all := SanitizeItems(p, heap, items, depth, st, seen).0;
      assert all[..k] == os;
      var again := SanitizeItems(p, map[], all, depth, st2, {}).0;
      assert again[..k] == os2;
      ItemsCost(p, heap, items[..k], depth, st, seen, st2);
      if again == all {
        assert again[k] == Sanitize(p, map[], all[k], depth, st21, {}).0;
        ReproducedCost(p, heap, items[k], depth, st1, seen, st21);
      }
    }
  }

  lemma {:induction false} EntriesCost(p: Policy, heap: Heap, entries: seq<Entry>, depth: nat, st: Count,
                                       seen: set<nat>, st2: Count)
    requires p.Sound() && depth <= MAX_DEPTH + 1 && st.nodes <= st2.nodes
    ensures var (os, st') := SanitizeEntries(p, heap, entries, depth, st, seen);
      var (os2, st2') := SanitizeEntries(p, map[], os, depth, st2, {});
      os2 == os ==>
        && st'.nodes - st.nodes <= st2'.nodes - st2.nodes
        && (st'.nodes - st.nodes == st2'.nodes - st2.nodes ==> CleanEntries(p, heap, entries, depth, st, seen))
    decreases MAX_DEPTH + 2 - depth, 1, |entries|
  {
    if entries != [] {
      var k := |entries| - 1;
      var (os, st1) := SanitizeEntries(p, heap, entries[..k], depth, st, seen);
      var (os2, st21) := SanitizeEntries(p, map[], os, depth, st2, {});
      var all := SanitizeEntries(p, heap, entries, depth, st, seen).0;
      var again := SanitizeEntries(p, map[], all, depth, st2, {}).0;
      assert all[..k] == os;
      assert again[..k] == os2;
      EntriesCost(p, heap, entries[..k], depth, st, seen, st2);
      if again == all && !p.secret(entries[k].key) {
        assert again[k].value == Sanitize(p, map[], all[k].value, depth, st21, {}).0;
        ReproducedCost(p, heap, entries[k].value, depth, st1, seen, st21);
      }
    }
  }

  /** Sanitising twice gives what sanitising once gives, node count included, exactly when
      the walk meets no error object and no unfiltered text the filter would change. On
      JSON values it meets neither. */
  lemma FixedPointExactly(p: Policy, heap: Heap, v: Value)
    requires p.Sound()
    ensures var (o, st) := Sanitize(p, heap, v, 0, Count(0, false), {});
      var (o2, st2) := Sanitize(p, map[], o, 0, Count(0, false), {});
      o2 == o && st2.nodes == st.nodes <==> Clean(p, heap, v, 0, Count(0, false), {})
  {
    var zero := Count(0, false);
    if Clean(p, heap, v, 0, zero, {}) {
      TwiceIsOnce(p, heap, v, 0, zero, {}, zero);
    }
    if Reproduces(p, heap, v, 0, zero, {}, zero) {
      ReproducedCost(p, heap, v, 0, zero, {}, zero);
    }
  }

  // ----- JSON values are clean

  /** Null, booleans, numbers, text, arrays and records, to any depth, shared or not. */
  predicate Json(v: Value) {
    match v
    case Plain(_) => false
    case ErrorValue(_, _) => false
    case Inline(Arr(items)) => forall x :: x in items ==> Json(x)
    case Inline(Rec(entries)) => forall e :: e in entries ==> Json(e.value)
    case _ => true
  }

  predicate JsonContainer(c: Container) {
    match c
    case Arr(items) => forall x :: x in items ==> Json(x)
    case Rec(entries) => forall e :: e in entries ==> Json(e.value)
  }

  predicate JsonHeap(heap: Heap) {
    forall id :: id in heap ==> JsonContainer(heap[id])
  }

  lemma {:induction false} JsonIsClean(p: Policy, heap: Heap, v: Value, depth: nat, st: Count, seen: set<nat>)
    requires Json(v) && JsonHeap(heap)
    ensures Clean(p, heap, v, depth, st, seen)
    decreases MAX_DEPTH + 2 - depth, 0
  {
    if !OverBound(depth, st) && (v.Inline? || v.Shared?) && !Circular(v, seen) {
      assert JsonContainer(ContainerOf(v, heap));
      var st1 := st.(nodes := st.nodes + 1);
      match ContainerOf(v, heap)
      case Arr(items) => JsonItemsClean(p, heap, First(items), depth + 1, st1, SeenBelow(v, seen));
      case Rec(entries) => JsonEntriesClean(p, heap, entries, depth + 1, st1, SeenBelow(v, seen));
    }
  }

  lemma {:induction false} JsonItemsClean(p: Policy, heap: Heap, items: seq<Value>, depth: nat, st: Count,
                                          seen: set<nat>)
    requires (forall x :: x in items ==> Json(x)) && JsonHeap(heap) && depth <= MAX_DEPTH + 1
    ensures CleanItems(p, heap, items, depth, st, seen)
    decreases MAX_DEPTH + 2 - depth, 1, |items|
  {
    if items != [] {
      var k := |items| - 1;
      JsonItemsClean(p, heap, items[..k], depth, st, seen);
      JsonIsClean(p, heap, items[k], depth, SanitizeItems(p, heap, items[..k], depth, st, seen).1, seen);
    }
  }

  lemma {:induction false} JsonEntriesClean(p: Policy, heap: Heap, entries: seq<Entry>, depth: nat, st: Count,
                                            seen: set<nat>)
    requires (forall e :: e in entries ==> Json(e.value)) && JsonHeap(heap) && depth <= MAX_DEPTH + 1
    ensures CleanEntries(p, heap, entries, depth, st, seen)
    decreases MAX_DEPTH + 2 - depth, 1, |entries|
  {
    if entries != [] {
      var k := |entries| - 1;
      JsonEntriesClean(p, heap, entries[..k], depth, st, seen);
      JsonIsClean(p, heap, entries[k].value, depth, SanitizeEntries(p, heap, entries[..k], depth, st, seen).1, seen);
    }
  }

  /** The fixed point on JSON values, cyclic ones included. */
  lemma JsonFixedPoint(p: Policy, heap: Heap, v: Value)
    requires p.Sound() && Json(v) && JsonHeap(heap)
    ensures var (o, st) := Sanitize(p, heap, v, 0, Count(0, false), {});
      var (o2, st2) := Sanitize(p, map[], o, 0, Count(0, false), {});
      o2 == o && st2.nodes == st.nodes
  {
    JsonIsClean(p, heap, v, 0, Count(0, false), {});
    FixedPointExactly(p, heap, v);
  }

  // ----- error objects, from the top of the walk

  /** A bare error object is written the same way again, but the second pass counts its two texts. */
  lemma BareErrorCountsTwice(p: Policy, name: string, message: string)
    requires p.Sound()
    ensures var (o, st) := Sanitize(p, map[], ErrorValue(name, message), 0, Count(0, false), {});
      var (o2, st2) := Sanitize(p, map[], o, 0, Count(0, false), {});
      o2 == o && st.nodes == 1 && st2.nodes == 3
  {
    RecordOfErrorAgain(p, name, message, 0, Count(0, false));
  }

  /** `v` inside `k` nested arrays. */
  function Nest(v: Value, k: nat): Value {
    if k == 0 then v else Inline(Arr([Nest(v, k - 1)]))
  }

  /** The walk goes down `k` arrays one node at a time and rebuilds them around what it finds. */
  lemma {:induction false} NestWalk(p: Policy, heap: Heap, v: Value, k: nat, depth: nat, st: Count, seen: set<nat>)
    requires depth + k <= MAX_DEPTH + 1 && st.nodes + k <= MAX_NODES
    ensures var (o, st') := Sanitize(p, heap, v, depth + k, st.(nodes := st.nodes + k), seen);
      Sanitize(p, heap, Nest(v, k), depth, st, seen) == (Nest(o, k), st')
    decreases k
  {
    if k > 0 {
      var inner, st1 := Nest(v, k - 1), st.(nodes := st.nodes + 1);
      NestWalk(p, heap, v, k - 1, depth + 1, st1, seen);
      OneArray(p, heap, inner, depth, st, seen);
    }
  }

  lemma OneArray(p: Policy, heap: Heap, v: Value, depth: nat, st: Count, seen: set<nat>)
    requires !OverBound(depth, st)
    ensures var (o, st') := Sanitize(p, heap, v, depth + 1, st.(nodes := st.nodes + 1), seen);
      Sanitize(p, heap, Inline(Arr([v])), depth, st, seen) == (Inline(Arr([o])), st')
  {
    assert First([v]) == [v];
    OneItem(p, heap, v, depth + 1, st.(nodes := st.nodes + 1), seen);
  }

  lemma OneItem(p: Policy, heap: Heap, v: Value, depth: nat, st: Count, seen: set<nat>)
    requires depth <= MAX_DEPTH + 1
    ensures var (o, st') := Sanitize(p, heap, v, depth, st, seen);
      SanitizeItems(p, heap, [v], depth, st, seen) == ([o], st')
  {
    var o := Sanitize(p, heap, v, depth, st, seen).0;
    assert [v][..0] == [] && [] + [o] == [o];
  }

  lemma {:induction false} NestNest(v: Value, k: nat, m: nat)
    ensures Nest(Nest(v, k), m) == Nest(v, k + m)
    decreases m
  {
    if m > 0 {
      NestNest(v, k, m - 1);
    }
  }

  lemma {:induction false} NestInjective(v: Value, w: Value, k: nat)
    ensures Nest(v, k) == Nest(w, k) <==> v == w
    decreases k
  {
    if k > 0 {
      NestInjective(v, w, k - 1);
      assert [Nest(v, k - 1)][0] == Nest(v, k - 1) && [Nest(w, k - 1)][0] == Nest(w, k - 1);
    }
  }

  /** The texts of an error's record, read again at `depth`: kept above the limit, cut off at it. */
  lemma RecordOfErrorAgain(p: Policy, name: string, message: string, depth: nat, st: Count)
    requires p.Sound() && depth <= MAX_DEPTH && st.nodes + 3 <= MAX_NODES
    ensures Sanitize(p, map[], ErrorRecord(p, name, message), depth, st, {}).0
         == if depth < MAX_DEPTH then ErrorRecord(p, name, message)
            else Inline(Rec([Entry("name", Text(TRUNCATION_MARKER)), Entry("message", Text(TRUNCATION_MARKER))]))
    ensures Sanitize(p, map[], ErrorRecord(p, name, message), depth, st, {}).1.nodes == st.nodes + 3
  {
    var first, second := Entry("name", Text(p.filter(name))), Entry("message", Text(p.filter(message)));
    TextRecordAgain(p, first, second, depth, st);
    assert ErrorRecord(p, name, message) == Inline(Rec([first, second]));
  }

  lemma TextRecordAgain(p: Policy, first: Entry, second: Entry, depth: nat, st: Count)
    requires depth <= MAX_DEPTH && StableText(p, first) && StableText(p, second) && st.nodes + 3 <= MAX_NODES
    ensures var (o, st') := Sanitize(p, map[], Inline(Rec([first, second])), depth, st, {});
      o == Inline(Rec([EntryAt(first, depth + 1), EntryAt(second, depth + 1)])) && st'.nodes == st.nodes + 3
  {
    TwoTextsAgain(p, first, second, depth + 1, st.(nodes := st.nodes + 1));
    RecordPasses(p, map[], [first, second], depth, st, {});
  }

  /** A text entry read at `depth`: kept within the limit, cut off beyond it. */
  function EntryAt(e: Entry, depth: nat): Entry {
    if depth <= MAX_DEPTH then e else Entry(e.key, Text(TRUNCATION_MARKER))
  }

  predicate StableText(p: Policy, e: Entry) {
    !p.secret(e.key) && e.value.Text? && p.filter(e.value.s) == e.value.s
  }

  lemma TwoTextsAgain(p: Policy, first: Entry, second: Entry, depth: nat, st: Count)
    requires depth <= MAX_DEPTH + 1 && StableText(p, first) && StableText(p, second) && st.nodes + 2 <= MAX_NODES
    ensures var (out, st') := SanitizeEntries(p, map[], [first, second], depth, st, {});
      out == [EntryAt(first, depth), EntryAt(second, depth)] && st'.nodes == st.nodes + 2
  {
    assert SanitizeEntries(p, map[], [], depth, st, {}) == ([], st);
    TextEntryAgain(p, [], first, depth, st);
    TextEntryAgain(p, [first], second, depth, st);
    assert [] + [first] == [first] && [first] + [second] == [first, second];
  }

  lemma TextEntryAgain(p: Policy, before: seq<Entry>, e: Entry, depth: nat, st: Count)
    requires depth <= MAX_DEPTH + 1 && StableText(p, e)
    requires SanitizeEntries(p, map[], before, depth, st, {}).1.nodes < MAX_NODES
    ensures var (out, st1) := SanitizeEntries(p, map[], before, depth, st, {});
      var (out', st') := SanitizeEntries(p, map[], before + [e], depth, st, {});
      && out' == out + [EntryAt(e, depth)]
      && st'.nodes == st1.nodes + 1
  {
    assert (before + [e])[..|before|] == before;
    TextAgain(p, e.value.s, depth, SanitizeEntries(p, map[], before, depth, st, {}).1);
  }

  lemma TextAgain(p: Policy, s: string, depth: nat, st: Count)
    requires p.filter(s) == s && st.nodes < MAX_NODES
    ensures Sanitize(p, map[], Text(s), depth, st, {}).0 == Text(if depth <= MAX_DEPTH then s else TRUNCATION_MARKER)
    ensures Sanitize(p, map[], Text(s), depth, st, {}).1.nodes == st.nodes + 1
  {
  }

  /** What the two passes make of an error object inside `k` arrays, at most at the depth limit. */
  lemma NestedErrorTwice(p: Policy, name: string, message: string, k: nat)
    requires p.Sound() && k <= MAX_DEPTH
    ensures var record := ErrorRecord(p, name, message);
      && Sanitize(p, map[], Nest(ErrorValue(name, message), k), 0, Count(0, false), {}).0 == Nest(record, k)
      && Sanitize(p, map[], Nest(record, k), 0, Count(0, false), {}).0
           == Nest(Sanitize(p, map[], record, k, Count(k, false), {}).0, k)
  {
    NestedOnce(p, ErrorValue(name, message), k);
    NestedOnce(p, ErrorRecord(p, name, message), k);
  }

  lemma NestedOnce(p: Policy, v: Value, k: nat)
    requires k <= MAX_DEPTH
    ensures Sanitize(p, map[], Nest(v, k), 0, Count(0, false), {}).0
         == Nest(Sanitize(p, map[], v, k, Count(k, false), {}).0, k)
  {
    NestWalk(p, map[], v, k, 0, Count(0, false), {});
  }

  /** Nesting beyond the depth limit is cut off there. */
  lemma CutOff(p: Policy, v: Value, k: nat, cut: nat)
    requires cut == MAX_DEPTH + 1 <= k
    ensures Sanitize(p, map[], Nest(v, k), 0, Count(0, false), {}).0 == Nest(Text(TRUNCATION_MARKER), cut)
  {
    NestNest(v, k - cut, cut);
    NestWalk(p, map[], Nest(v, k - cut), cut, 0, Count(0, false), {});
  }

  lemma DeepErrorTwice(p: Policy, v: Value, k: nat, cut: nat)
    requires cut == MAX_DEPTH + 1 <= k
    ensures Reproduces(p, map[], Nest(v, k), 0, Count(0, false), {}, Count(0, false))
  {
    CutOff(p, v, k, cut);
    CutOff(p, Text(TRUNCATION_MARKER), cut, cut);
  }

  /** An error object inside `k` arrays is given back unchanged by a second pass exactly when it
      does not lie at the depth limit: above it the texts of its record are read again, below it
      the object was cut off already, but at the limit the first pass writes texts that the
      second one cuts off. */
  lemma NestedErrorReproducedExactly(p: Policy, name: string, message: string, k: nat)
    requires p.Sound() && (p.filter(name) != TRUNCATION_MARKER || p.filter(message) != TRUNCATION_MARKER)
    ensures Reproduces(p, map[], Nest(ErrorValue(name, message), k), 0, Count(0, false), {}, Count(0, false))
        <==> k != MAX_DEPTH
  {
    if k > MAX_DEPTH {
      DeepErrorTwice(p, ErrorValue(name, message), k, MAX_DEPTH + 1);
    } else {
      var record := ErrorRecord(p, name, message);
      NestedErrorTwice(p, name, message, k);
      RecordOfErrorAgain(p, name, message, k, Count(k, false));
      NestInjective(Sanitize(p, map[], record, k, Count(k, false), {}).0, record, k);
      RecordsDiffer(p, name, message);
    }
  }

  lemma RecordsDiffer(p: Policy, name: string, message: string)
    requires p.filter(name) != TRUNCATION_MARKER || p.filter(message) != TRUNCATION_MARKER
    ensures ErrorRecord(p, name, message)
         != Inline(Rec([Entry("name", Text(TRUNCATION_MARKER)), Entry("message", Text(TRUNCATION_MARKER))]))
  {
    var entries := ErrorRecord(p, name, message).c.entries;
    assert entries[0].value == Text(p.filter(name)) && entries[1].value == Text(p.filter(message));
  }
}

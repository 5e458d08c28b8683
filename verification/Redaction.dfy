/** What the sanitiser's output means: the unbounded redaction of its input whenever
    nothing was cut off, and never a value under a secret key. */
module Redaction {
  import opened Wrappers
  import opened Sanitizer

  /** The redaction without bounds on nodes, items or sharing; `fuel` only bounds the
      nesting that this definition follows, and nothing else depends on it. */
  function Redact(p: Policy, heap: Heap, v: Value, fuel: nat): Option<Value>
    decreases fuel, 0
  {
    if fuel == 0 then None
    else match v
      case Null => Some(Null)
      case Undefined => Some(Null)
      case Bool(_) => Some(v)
      case Num(_) => Some(v)
      case Text(s) => Some(Text(p.filter(s)))
      case Plain(s) => Some(Text(s))
      case ErrorValue(name, message) => Some(ErrorRecord(p, name, message))
      case _ =>
        match ContainerOf(v, heap)
        case Arr(items) =>
          var r := RedactItems(p, heap, items, fuel - 1);
          if r.None? then None else Some(Inline(Arr(r.value)))
        case Rec(entries) =>
          var r := RedactEntries(p, heap, entries, fuel - 1);
          if r.None? then None else Some(Inline(Rec(r.value)))
  }

  function RedactItems(p: Policy, heap: Heap, items: seq<Value>, fuel: nat): Option<seq<Value>>
    decreases fuel, 1, |items|
  {
    if items == [] then Some([])
    else
      var k := |items| - 1;
      var rest, x := RedactItems(p, heap, items[..k], fuel), Redact(p, heap, items[k], fuel);
      if rest.None? || x.None? then None else Some(rest.value + [x.value])
  }

  function RedactEntries(p: Policy, heap: Heap, entries: seq<Entry>, fuel: nat): Option<seq<Entry>>
    decreases fuel, 1, |entries|
  {
    if entries == [] then Some([])
    else
      var k := |entries| - 1;
      var rest := RedactEntries(p, heap, entries[..k], fuel);
      var x := if p.secret(entries[k].key) then Some(Text(REDACTION_MARKER))
          else Redact(p, heap, entries[k].value, fuel);
      if rest.None? || x.None? then None else Some(rest.value + [Entry(entries[k].key, x.value)])
  }

  /** More fuel never changes a result. */
  lemma {:induction false} RedactStable(p: Policy, heap: Heap, v: Value, fuel: nat, more: nat)
    requires fuel <= more && Redact(p, heap, v, fuel).Some?
    ensures Redact(p, heap, v, more) == Redact(p, heap, v, fuel)
    decreases fuel, 0
  {
    if v.Inline? || v.Shared? {
      match ContainerOf(v, heap)
      case Arr(items) => RedactItemsStable(p, heap, items, fuel - 1, more - 1);
      case Rec(entries) => RedactEntriesStable(p, heap, entries, fuel - 1, more - 1);
    }
  }

  lemma {:induction false} RedactItemsStable(p: Policy, heap: Heap, items: seq<Value>, fuel: nat, more: nat)
    requires fuel <= more && RedactItems(p, heap, items, fuel).Some?
    ensures RedactItems(p, heap, items, more) == RedactItems(p, heap, items, fuel)
    decreases fuel, 1, |items|
  {
    if items != [] {
      RedactItemsStable(p, heap, items[..|items| - 1], fuel, more);
      RedactStable(p, heap, items[|items| - 1], fuel, more);
    }
  }

  lemma {:induction false} RedactEntriesStable(p: Policy, heap: Heap, entries: seq<Entry>, fuel: nat, more: nat)
    requires fuel <= more && RedactEntries(p, heap, entries, fuel).Some?
    ensures RedactEntries(p, heap, entries, more) == RedactEntries(p, heap, entries, fuel)
    decreases fuel, 1, |entries|
  {
    if entries != [] {
      var last := entries[|entries| - 1];
      RedactEntriesStable(p, heap, entries[..|entries| - 1], fuel, more);
      if !p.secret(last.key) {
        RedactStable(p, heap, last.value, fuel, more);
      }
    }
  }

  // ----- nothing cut off: the output is the redaction

  lemma {:induction false} WalkRedacts(p: Policy, heap: Heap, v: Value, depth: nat, st: Count, seen: set<nat>)
    requires depth <= MAX_DEPTH + 1 && !Sanitize(p, heap, v, depth, st, seen).1.truncated
    ensures Redact(p, heap, v, MAX_DEPTH + 1 - depth) == Some(Sanitize(p, heap, v, depth, st, seen).0)
    decreases MAX_DEPTH + 2 - depth, 0
  {
    if v.Inline? || v.Shared? {
      var st1 := st.(nodes := st.nodes + 1);
      match ContainerOf(v, heap)
      case Arr(items) =>
        assert First(items) == items;
        ItemsRedact(p, heap, items, depth + 1, st1, SeenBelow(v, seen));
      case Rec(entries) => EntriesRedact(p, heap, entries, depth + 1, st1, SeenBelow(v, seen));
    }
  }

  lemma {:induction false} ItemsRedact(p: Policy, heap: Heap, items: seq<Value>, depth: nat, st: Count, seen: set<nat>)
    requires depth <= MAX_DEPTH + 1 && !SanitizeItems(p, heap, items, depth, st, seen).1.truncated
    ensures RedactItems(p, heap, items, MAX_DEPTH + 1 - depth) == Some(SanitizeItems(p, heap, items, depth, st, seen).0)
    decreases MAX_DEPTH + 2 - depth, 1, |items|
  {
    if items != [] {
      var k := |items| - 1;
      ItemsRedact(p, heap, items[..k], depth, st, seen);
      WalkRedacts(p, heap, items[k], depth, SanitizeItems(p, heap, items[..k], depth, st, seen).1, seen);
    }
  }

  lemma {:induction false} EntriesRedact(p: Policy, heap: Heap, entries: seq<Entry>, depth: nat, st: Count,
                                         seen: set<nat>)
    requires depth <= MAX_DEPTH + 1 && !SanitizeEntries(p, heap, entries, depth, st, seen).1.truncated
    ensures RedactEntries(p, heap, entries, MAX_DEPTH + 1 - depth)
         == Some(SanitizeEntries(p, heap, entries, depth, st, seen).0)
    decreases MAX_DEPTH + 2 - depth, 1, |entries|
  {
    if entries != [] {
      var k := |entries| - 1;
      EntriesRedact(p, heap, entries[..k], depth, st, seen);
      if !p.secret(entries[k].key) {
        WalkRedacts(p, heap, entries[k].value, depth, SanitizeEntries(p, heap, entries[..k], depth, st, seen).1, seen);
      }
    }
  }

  /** A result not marked truncated is the plain redaction, whatever nesting is allowed for. */
  lemma UntruncatedIsRedaction(p: Policy, heap: Heap, v: Value, fuel: nat)
    requires fuel > MAX_DEPTH
    ensures var (o, st) := Sanitize(p, heap, v, 0, Count(0, false), {});
      !st.truncated ==> Redact(p, heap, v, fuel) == Some(o)
  {
    if !Sanitize(p, heap, v, 0, Count(0, false), {}).1.truncated {
      WalkRedacts(p, heap, v, 0, Count(0, false), {});
      RedactStable(p, heap, v, MAX_DEPTH + 1, fuel);
    }
  }

  // ----- secrets

  /** At every depth, whatever stands under a secret key is the marker. */
  predicate SecretFree(p: Policy, o: Value) {
    match o
    case Inline(Arr(items)) => forall x :: x in items ==> SecretFree(p, x)
    case Inline(Rec(entries)) => forall e :: e in entries ==> EntrySecretFree(p, e)
    case _ => !o.Shared? && !o.ErrorValue?
  }

  predicate EntrySecretFree(p: Policy, e: Entry) {
    if p.secret(e.key) then e.value == Text(REDACTION_MARKER) else SecretFree(p, e.value)
  }

  lemma {:induction false} NoSecretSurvives(p: Policy, heap: Heap, v: Value, depth: nat, st: Count, seen: set<nat>)
    requires p.Sound()
    ensures SecretFree(p, Sanitize(p, heap, v, depth, st, seen).0)
    decreases MAX_DEPTH + 2 - depth, 0
  {
    if !OverBound(depth, st) && (v.Inline? || v.Shared?) && !Circular(v, seen) {
      var st1 := st.(nodes := st.nodes + 1);
      match ContainerOf(v, heap)
      case Arr(items) => ItemsSecretFree(p, heap, First(items), depth + 1, st1, SeenBelow(v, seen));
      case Rec(entries) => EntriesSecretFree(p, heap, entries, depth + 1, st1, SeenBelow(v, seen));
    }
  }

  lemma {:induction false} ItemsSecretFree(p: Policy, heap: Heap, items: seq<Value>, depth: nat, st: Count,
                                           seen: set<nat>)
    requires p.Sound() && depth <= MAX_DEPTH + 1
    ensures forall x :: x in SanitizeItems(p, heap, items, depth, st, seen).0 ==> SecretFree(p, x)
    decreases MAX_DEPTH + 2 - depth, 1, |items|
  {
    if items != [] {
      var k := |items| - 1;
      ItemsSecretFree(p, heap, items[..k], depth, st, seen);
      NoSecretSurvives(p, heap, items[k], depth, SanitizeItems(p, heap, items[..k], depth, st, seen).1, seen);
    }
  }

  lemma {:induction false} EntriesSecretFree(p: Policy, heap: Heap, entries: seq<Entry>, depth: nat, st: Count,
                                             seen: set<nat>)
    requires p.Sound() && depth <= MAX_DEPTH + 1
    ensures forall e :: e in SanitizeEntries(p, heap, entries, depth, st, seen).0 ==> EntrySecretFree(p, e)
    decreases MAX_DEPTH + 2 - depth, 1, |entries|
  {
    if entries != [] {
      var k := |entries| - 1;
      EntriesSecretFree(p, heap, entries[..k], depth, st, seen);
      if !p.secret(entries[k].key) {
        NoSecretSurvives(p, heap, entries[k].value, depth, SanitizeEntries(p, heap, entries[..k], depth, st, seen).1,
                         seen);
      }
    }
  }
}

/** The sanitiser as written: one mutable state updated while the value is walked, and the
    bounded payload built from its result. */
module SanitizerWalk {
  import opened Wrappers
  import opened Sanitizer
  import Redaction
  import SanitizerBounds
  import Utf8

  class SanitizationState {
    const policy: Policy
    const heap: Heap
    var nodes: nat
    var truncated: bool
    var seen: set<nat>

    constructor (policy: Policy, heap: Heap)
      ensures this.policy == policy && this.heap == heap
      ensures Now() == Count(0, false) && seen == {}
    {
      this.policy, this.heap := policy, heap;
      nodes, truncated, seen := 0, false, {};
    }

    function Now(): Count
      reads this
    {
      Count(nodes, truncated)
    }

    method SanitizeValue(v: Value, depth: nat) returns (o: Value)
      modifies this
      ensures (o, Now()) == Sanitize(policy, heap, v, depth, old(Now()), old(seen))
      ensures seen == old(seen)
      decreases MAX_DEPTH + 2 - depth, 0
    {
      nodes := nodes + 1;
      if nodes > MAX_NODES || depth > MAX_DEPTH {
        truncated := true;
        return Text(TRUNCATION_MARKER);
      }
      match v
      case Null => o := Null;
      case Undefined => o := Null;
      case Bool(_) => o := v;
      case Num(_) => o := v;
      case Text(s) => o := Text(policy.filter(s));
      case Plain(s) => o := Text(s);
      case ErrorValue(name, message) => o := ErrorRecord(policy, name, message);
      case Inline(c) => o := WalkContainer(c, depth);
      case Shared(id) =>
        if id in seen {
          truncated := true;
          return Text(CIRCULAR_MARKER);
        }
        seen := seen + {id};
        o := WalkContainer(ContainerOf(v, heap), depth);
        seen := seen - {id};
    }

    method WalkContainer(c: Container, depth: nat) returns (o: Value)
      requires depth <= MAX_DEPTH && nodes > 0
      modifies this
      ensures (o, Now()) == SanitizeContainer(policy, heap, c, depth, old(Now()).(nodes := old(nodes) - 1), seen)
      ensures seen == old(seen)
      decreases MAX_DEPTH + 1 - depth, 2
    {
      match c
      case Arr(items) =>
        var out := WalkItems(First(items), depth + 1);
        if |items| > MAX_ARRAY_ITEMS {
          truncated := true;
          out := out + [Text(TRUNCATION_MARKER)];
        }
        o := Inline(Arr(out));
      case Rec(entries) =>
        var out := WalkEntries(entries, depth + 1);
        o := Inline(Rec(out));
    }

    method WalkItems(items: seq<Value>, depth: nat) returns (out: seq<Value>)
      requires depth <= MAX_DEPTH + 1
      modifies this
      ensures (out, Now()) == SanitizeItems(policy, heap, items, depth, old(Now()), seen)
      ensures seen == old(seen)
      decreases MAX_DEPTH + 2 - depth, 1
    {
      out := [];
      var i := 0;
      while i < |items|
        invariant 0 <= i <= |items| && seen == old(seen)
        invariant (out, Now()) == SanitizeItems(policy, heap, items[..i], depth, old(Now()), seen)
      {
        assert items[..i + 1][..i] == items[..i];
        var x := SanitizeValue(items[i], depth);
        out := out + [x];
        i := i + 1;
      }
      assert items[..i] == items;
    }

    method WalkEntries(entries: seq<Entry>, depth: nat) returns (out: seq<Entry>)
      requires depth <= MAX_DEPTH + 1
      modifies this
      ensures (out, Now()) == SanitizeEntries(policy, heap, entries, depth, old(Now()), seen)
      ensures seen == old(seen)
      decreases MAX_DEPTH + 2 - depth, 1
    {
      out := [];
      var i := 0;
      while i < |entries|
        invariant 0 <= i <= |entries| && seen == old(seen)
        invariant (out, Now()) == SanitizeEntries(policy, heap, entries[..i], depth, old(Now()), seen)
      {
        assert entries[..i + 1][..i] == entries[..i];
        var key, x := entries[i].key, Text(REDACTION_MARKER);
        if !policy.secret(key) {
          x := SanitizeValue(entries[i].value, depth);
        }
        out := out + [Entry(key, x)];
        i := i + 1;
      }
      assert entries[..i] == entries;
    }
  }

  /** The public walk: a fresh state, and what is promised of its result. */
  method SanitizeWithMetadata(policy: Policy, heap: Heap, v: Value) returns (o: Value, truncated: bool)
    ensures var (o1, st) := Sanitize(policy, heap, v, 0, Count(0, false), {}); o == o1 && truncated == st.truncated
    ensures !truncated ==> Redaction.Redact(policy, heap, v, MAX_DEPTH + 1) == Some(o)
    ensures SanitizerBounds.CutOf(policy, heap, v, o)
    ensures truncated <==> var size := SanitizerBounds.Measure(policy, heap, v, 11);
              size == None || size.value.nodes > 10_000 || size.value.widest > 500
    ensures policy.Sound() ==> Redaction.SecretFree(policy, o)
  {
    var state := new SanitizationState(policy, heap);
    o := state.SanitizeValue(v, 0);
    truncated := state.truncated;
    Redaction.UntruncatedIsRedaction(policy, heap, v, MAX_DEPTH + 1);
    SanitizerBounds.TruncatedExactly(policy, heap, v);
    SanitizerBounds.OutputIsCutInput(policy, heap, v, 0, Count(0, false), {});
    if policy.Sound() {
      Redaction.NoSecretSurvives(policy, heap, v, 0, Count(0, false), {});
    }
  }

  datatype EncodedPayload = EncodedPayload(
    safePayload: Option<Utf8.Utf16>, sanitizedSizeBytes: nat, storedSizeBytes: nat, truncated: bool,
    contentHash: Option<string>)

  const NO_PAYLOAD := EncodedPayload(None, 0, 0, false, None)

  /** `encodeBoundedAuditPayload` from the serialised, sanitised text on; there is none for an
      absent value and for one without a serialisation. `hash` is the content hash. */
  method EncodeBounded(encoded: Option<Utf8.Utf16>, valueTruncated: bool, maxBytes: nat, hash: Utf8.Utf16 -> string)
    returns (r: EncodedPayload)
    ensures encoded.None? <==> r.safePayload.None?
    ensures encoded.None? ==> r == NO_PAYLOAD
    ensures encoded.Some? ==>
              && Bounds(encoded.value, r.safePayload.value, maxBytes)
              && r.contentHash == Some(hash(r.safePayload.value))
              && r.sanitizedSizeBytes == |Utf8.Encode(encoded.value)|
              && r.storedSizeBytes == |Utf8.Encode(r.safePayload.value)|
              && (r.truncated <==> valueTruncated || r.safePayload != encoded)
  {
    if encoded.None? {
      return NO_PAYLOAD;
    }
    var text := encoded.value;
    var size := Utf8.ByteLength(text);
    Utf8.ByteLengthIsEncodingLength(text);
    var safe := text;
    if size > maxBytes {
      safe := Utf8.TruncateUtf8(text, maxBytes);
    }
    Utf8.ByteLengthIsEncodingLength(safe);
    if Utf8.WellFormed(text) {
      assert safe == text[..|safe|];
      Utf8.PrefixWellFormed(text, |safe|);
      Utf8.EncodingOfPrefix(text, |safe|);
    }
    r := EncodedPayload(Some(safe), size, Utf8.ByteLength(safe), valueTruncated || size > maxBytes, Some(hash(safe)));
  }

  /** `safe` is a prefix of `text` within the bound, the whole when that fits; of well-formed text
      it is the longest one that splits no pair, and its bytes are the first of the whole. */
  ghost predicate Bounds(text: Utf8.Utf16, safe: Utf8.Utf16, maxBytes: nat) {
    && safe <= text && |Utf8.Encode(safe)| <= maxBytes
    && (safe == text <==> |Utf8.Encode(text)| <= maxBytes)
    && (Utf8.WellFormed(text) ==>
          && Utf8.WellFormed(safe) && Utf8.Encode(safe) <= Utf8.Encode(text)
          && forall j :: |safe| < j <= |text| && Utf8.ByteLength(text[..j]) <= maxBytes ==> Utf8.Splits(text, j))
  }
}

/** UTF-16 text, its UTF-8 encoding and truncation to a byte bound.

    Text is a sequence of UTF-16 code units. Section 2 of RFC 2781 pairs a unit in
    D800-DBFF with a following unit in DC00-DFFF; section 3 of RFC 3629 gives a scalar
    value one to four bytes. An unpaired surrogate is encoded as U+FFFD.
 */
module Utf8 {

  type Unit = u: int | 0 <= u < 0x1_0000
  type Byte = b: int | 0 <= b < 0x100
  type Utf16 = seq<Unit>

  const REPLACEMENT: int := 0xFFFD

  predicate High(u: Unit) {
    0xD800 <= u <= 0xDBFF
  }

  predicate Low(u: Unit) {
    0xDC00 <= u <= 0xDFFF
  }

  // ----- the encoding, as the standards define it

  function PairValue(high: int, low: int): int {
    0x1_0000 + (high - 0xD800) * 0x400 + (low - 0xDC00)
  }

  predicate StartsPair(s: Utf16) {
    |s| >= 2 && High(s[0]) && Low(s[1])
  }

  /** The scalar value of the first character. */
  function FirstValue(s: Utf16): int
    requires s != []
  {
    if StartsPair(s) then PairValue(s[0], s[1]) else if High(s[0]) || Low(s[0]) then REPLACEMENT else s[0]
  }

  function ScalarValues(s: Utf16): seq<int> {
    if s == [] then [] else [FirstValue(s)] + ScalarValues(s[if StartsPair(s) then 2 else 1..])
  }

  function EncodeScalar(c: int): seq<Byte>
    requires 0 <= c < 0x11_0000
  {
    if c < 0x80 then [c]
    else if c < 0x800 then [0xC0 + c / 0x40, 0x80 + c % 0x40]
    else if c < 0x1_0000 then [0xE0 + c / 0x1000, 0x80 + c / 0x40 % 0x40, 0x80 + c % 0x40]
    else [0xF0 + c / 0x4_0000, 0x80 + c / 0x1000 % 0x40, 0x80 + c / 0x40 % 0x40, 0x80 + c % 0x40]
  }

  lemma {:induction false} ScalarValuesInRange(s: Utf16)
    ensures AllScalar(ScalarValues(s))
  {
    if s != [] {
      ScalarValuesInRange(s[if StartsPair(s) then 2 else 1..]);
    }
  }

  predicate AllScalar(cs: seq<int>) {
    forall i :: 0 <= i < |cs| ==> 0 <= cs[i] < 0x11_0000
  }

  function EncodeAll(cs: seq<int>): seq<Byte>
    requires AllScalar(cs)
  {
    if cs == [] then [] else EncodeScalar(cs[0]) + EncodeAll(cs[1..])
  }

  function Encode(s: Utf16): seq<Byte> {
    ScalarValuesInRange(s);
    EncodeAll(ScalarValues(s))
  }

  // ----- its length, unit by unit from the left

  /** Bytes that the last unit of `s` adds: the second half of a pair turns three into four. */
  function LastCost(s: Utf16): nat
    requires s != []
  {
    var k := |s| - 1;
    if s[k] < 0x80 then 1
    else if s[k] < 0x800 then 2
    else if Low(s[k]) && k > 0 && High(s[k - 1]) then 1
    else 3
  }

  function ByteLength(s: Utf16): nat {
    if s == [] then 0 else ByteLength(s[..|s| - 1]) + LastCost(s)
  }

  lemma {:induction false} ByteLengthFromFront(s: Utf16)
    requires s != []
    ensures !StartsPair(s) ==> ByteLength(s) == ByteLength(s[..1]) + ByteLength(s[1..])
    ensures StartsPair(s) ==> ByteLength(s) == 4 + ByteLength(s[2..])
  {
    var k := |s| - 1;
    if |s| >= 2 {
      ByteLengthFromFront(s[..k]);
      assert s[..k][1..] == s[1..][..k - 1];
      assert s[..1] == s[..k][..1];
      if High(s[0]) && Low(s[1]) {
        if |s| == 2 {
          assert s[..1][..0] == [] && ByteLength(s[..1]) == LastCost(s[..1]) == 3;
          assert s[2..] == [];
        } else {
          assert s[..k][2..] == s[2..][..k - 2];
        }
      }
    } else {
      assert s[..1] == s && s[1..] == [];
    }
  }

  /** The byte count is the length of the encoding. */
  lemma {:induction false} ByteLengthIsEncodingLength(s: Utf16)
    ensures ByteLength(s) == |Encode(s)|
  {
    ScalarValuesInRange(s);
    if s != [] {
      ByteLengthFromFront(s);
      var cs := ScalarValues(s);
      if StartsPair(s) {
        ByteLengthIsEncodingLength(s[2..]);
        assert cs[1..] == ScalarValues(s[2..]);
      } else {
        ByteLengthIsEncodingLength(s[1..]);
        assert cs[1..] == ScalarValues(s[1..]);
        assert s[..1][..0] == [];
        assert ByteLength(s[..1]) == LastCost(s[..1]);
      }
    }
  }

  /** Byte length strictly grows with the prefix. */
  lemma {:induction false} PrefixLengthIncreases(s: Utf16, i: nat, j: nat)
    requires i < j <= |s|
    ensures ByteLength(s[..i]) < ByteLength(s[..j])
    decreases j
  {
    assert s[..j][..j - 1] == s[..j - 1];
    if i < j - 1 {
      PrefixLengthIncreases(s, i, j - 1);
    }
  }

  // ----- well-formed text and the best cut

  /** Every surrogate is half of a pair. */
  predicate WellFormed(s: Utf16) {
    forall i :: 0 <= i < |s| ==> Paired(s, i)
  }

  predicate Paired(s: Utf16, i: nat)
    requires i < |s|
  {
    && (High(s[i]) ==> i + 1 < |s| && Low(s[i + 1]))
    && (Low(s[i]) ==> 0 < i && High(s[i - 1]))
  }

  /** Cutting `s` after `k` units does not separate the halves of a pair. */
  predicate Splits(s: Utf16, k: nat)
    requires k <= |s|
  {
    0 < k < |s| && High(s[k - 1]) && Low(s[k])
  }

  lemma PrefixWellFormed(s: Utf16, k: nat)
    requires WellFormed(s) && k <= |s|
    ensures WellFormed(s[..k]) <==> !Splits(s, k)
  {
    if Splits(s, k) {
      assert !Paired(s[..k], k - 1);
    } else {
      forall i | 0 <= i < k ensures Paired(s[..k], i) {
        assert Paired(s, i);
      }
    }
  }

  /** The length of the longest prefix of at most `maxBytes` bytes. */
  predicate LongestFitting(s: Utf16, maxBytes: nat, k: nat) {
    && k <= |s| && ByteLength(s[..k]) <= maxBytes
    && forall j :: k < j <= |s| ==> ByteLength(s[..j]) > maxBytes
  }

  /** The binary search over prefix lengths; a high surrogate left at the end is dropped. */
  method TruncateUtf8(value: Utf16, maxBytes: nat) returns (r: Utf16)
    ensures r <= value && ByteLength(r) <= maxBytes
    ensures exists k: nat :: LongestFitting(value, maxBytes, k) && |r| <= k <= |r| + 1
                     && (|r| + 1 == k <==> k > 0 && High(value[k - 1]))
    ensures WellFormed(value) ==>
              && WellFormed(r)
              && forall j :: |r| < j <= |value| && ByteLength(value[..j]) <= maxBytes ==> Splits(value, j)
  {
    var low, high := 0, |value|;
    while low < high
      invariant 0 <= low <= high <= |value|
      invariant ByteLength(value[..low]) <= maxBytes
      invariant forall j :: high < j <= |value| ==> ByteLength(value[..j]) > maxBytes
    {
      var middle := (low + high + 1) / 2;
      if ByteLength(value[..middle]) <= maxBytes {
        low := middle;
      } else {
        forall j | middle <= j <= |value| ensures ByteLength(value[..j]) > maxBytes {
          if middle < j {
            PrefixLengthIncreases(value, middle, j);
          }
        }
        high := middle - 1;
      }
    }
    ghost var k := low;
    assert LongestFitting(value, maxBytes, k);
    if low > 0 && High(value[low - 1]) {
      low := low - 1;
      PrefixLengthIncreases(value, low, k);
    }
    r := value[..low];
    if WellFormed(value) {
      PrefixWellFormed(value, low);
      assert low < k ==> Paired(value, low);
    }
  }

  // ----- a cut between characters is a cut of the encoding

  lemma {:induction false} ScalarValuesSplit(s: Utf16, k: nat)
    requires k <= |s| && !Splits(s, k)
    ensures ScalarValues(s) == ScalarValues(s[..k]) + ScalarValues(s[k..])
  {
    if k == 0 {
      assert s[..0] == [] && s[0..] == s;
    } else {
      var step := if StartsPair(s) then 2 else 1;
      StaysWhole(s, k, step);
      ScalarValuesSplit(s[step..], k - step);
      SplitAfterFirst(s, k, step);
    }
  }

  lemma StaysWhole(s: Utf16, k: nat, step: nat)
    requires 0 < k <= |s| && !Splits(s, k) && step == if StartsPair(s) then 2 else 1
    ensures step <= k && !Splits(s[step..], k - step)
  {
  }

  /** The first character goes with the left part. */
  lemma SplitAfterFirst(s: Utf16, k: nat, step: nat)
    requires step == (if StartsPair(s) then 2 else 1) && step <= k <= |s|
    requires ScalarValues(s[step..]) == ScalarValues(s[step..][..k - step]) + ScalarValues(s[step..][k - step..])
    ensures ScalarValues(s) == ScalarValues(s[..k]) + ScalarValues(s[k..])
  {
    var left, right := ScalarValues(s[step..][..k - step]), ScalarValues(s[step..][k - step..]);
    DropDrop(s, step, k);
    PrefixStarts(s, k, step);
    Unfold(s, step);
    Regroup([FirstValue(s)], left, right);
  }

  lemma DropDrop(s: Utf16, i: nat, k: nat)
    requires i <= k <= |s|
    ensures s[i..][k - i..] == s[k..]
  {
  }

  lemma Regroup<T>(a: seq<T>, b: seq<T>, c: seq<T>)
    ensures a + (b + c) == a + b + c
  {
  }

  lemma Unfold(s: Utf16, step: nat)
    requires s != [] && step == if StartsPair(s) then 2 else 1
    ensures ScalarValues(s) == [FirstValue(s)] + ScalarValues(s[step..])
  {
  }

  /** A prefix that holds the first character starts with it. */
  lemma PrefixStarts(s: Utf16, k: nat, step: nat)
    requires step == (if StartsPair(s) then 2 else 1) && step <= k <= |s|
    ensures ScalarValues(s[..k]) == [FirstValue(s)] + ScalarValues(s[step..][..k - step])
  {
    var t := s[..k];
    assert StartsPair(t) == StartsPair(s) && FirstValue(t) == FirstValue(s);
    assert t[step..] == s[step..][..k - step];
  }

  lemma {:induction false} EncodeAllSplit(cs: seq<int>, ds: seq<int>)
    requires AllScalar(cs) && AllScalar(ds)
    ensures AllScalar(cs + ds) && EncodeAll(cs + ds) == EncodeAll(cs) + EncodeAll(ds)
  {
    if cs == [] {
      assert cs + ds == ds;
    } else {
      EncodeAllSplit(cs[1..], ds);
      assert (cs + ds)[1..] == cs[1..] + ds;
      Regroup(EncodeScalar(cs[0]), EncodeAll(cs[1..]), EncodeAll(ds));
    }
  }

  /** The bytes of a prefix cut between characters are the first bytes of the whole. */
  lemma EncodingOfPrefix(s: Utf16, k: nat)
    requires k <= |s| && !Splits(s, k)
    ensures Encode(s[..k]) <= Encode(s)
  {
    ScalarValuesSplit(s, k);
    ScalarValuesInRange(s[..k]);
    ScalarValuesInRange(s[k..]);
    EncodeAllSplit(ScalarValues(s[..k]), ScalarValues(s[k..]));
  }
}

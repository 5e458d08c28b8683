/** Reading UTF-8 back: a decoder after section 3 of RFC 3629, and the round trip from well-formed
    UTF-16 text through its bytes. */
module Utf8Decoding {
  import opened Wrappers
  import opened Utf8

  /** The number of bytes of a character, by its first byte. */
  function LengthOf(lead: Byte): nat {
    if lead < 0x80 then 1 else if lead < 0xE0 then 2 else if lead < 0xF0 then 3 else 4
  }

  /** The payload bits of the first byte and of those that follow, put together. */
  function ValueOf(bs: seq<Byte>): int
    requires bs != [] && |bs| >= LengthOf(bs[0])
  {
    match LengthOf(bs[0])
    case 1 => bs[0]
    case 2 => (bs[0] as int - 0xC0) * 0x40 + (bs[1] as int - 0x80)
    case 3 => (bs[0] as int - 0xE0) * 0x1000 + (bs[1] as int - 0x80) * 0x40 + (bs[2] as int - 0x80)
    case _ =>
      (bs[0] as int - 0xF0) * 0x4_0000 + (bs[1] as int - 0x80) * 0x1000
      + (bs[2] as int - 0x80) * 0x40 + (bs[3] as int - 0x80)
  }

  function Decode(bs: seq<Byte>): Option<seq<int>> {
    if bs == [] then Some([])
    else if |bs| < LengthOf(bs[0]) then None
    else
      match Decode(bs[LengthOf(bs[0])..])
      case None => None
      case Some(rest) => Some([ValueOf(bs)] + rest)
  }

  /** The bytes that follow a first byte all have the form 10xxxxxx, and a first byte never has. */
  predicate Continues(b: Byte) {
    0x80 <= b < 0xC0
  }

  lemma ScalarRoundTrip(c: int)
    requires 0 <= c < 0x11_0000
    ensures var bs := EncodeScalar(c);
      && |bs| == LengthOf(bs[0]) && ValueOf(bs) == c
      && !Continues(bs[0]) && forall k :: 1 <= k < |bs| ==> Continues(bs[k])
  {
    var low, high := c / 0x40, c / 0x1000;
    assert low / 0x40 == high && high / 0x40 == c / 0x4_0000;
  }

  /** Decoding undoes the encoding of any characters. */
  lemma {:induction false} DecodeEncodeAll(cs: seq<int>)
    requires AllScalar(cs)
    ensures Decode(EncodeAll(cs)) == Some(cs)
  {
    if cs != [] {
      ScalarRoundTrip(cs[0]);
      DecodeEncodeAll(cs[1..]);
      DecodeNext(EncodeScalar(cs[0]), EncodeAll(cs[1..]), cs[1..]);
      assert cs == [cs[0]] + cs[1..];
    }
  }

  lemma DecodeNext(first: seq<Byte>, rest: seq<Byte>, values: seq<int>)
    requires first != [] && |first| == LengthOf(first[0]) && Decode(rest) == Some(values)
    ensures Decode(first + rest) == Some([ValueOf(first)] + values)
  {
    var bs := first + rest;
    assert bs[0] == first[0] && bs[|first|..] == rest;
    SameValue(first, rest);
  }

  lemma SameValue(first: seq<Byte>, rest: seq<Byte>)
    requires first != [] && |first| == LengthOf(first[0])
    ensures ValueOf(first + rest) == ValueOf(first)
  {
  }

  /** No surrogate is ever encoded: half a pair becomes U+FFFD (section 3 of RFC 3629). */
  lemma {:induction false} NoSurrogateEncoded(s: Utf16)
    ensures forall c :: c in ScalarValues(s) ==> 0 <= c < 0xD800 || 0xE000 <= c < 0x11_0000
    ensures s != [] && (0xD800 <= s[0] < 0xDC00) && (|s| == 1 || s[1] < 0xDC00 || s[1] >= 0xE000) ==>
              ScalarValues(s)[0] == 0xFFFD
    ensures s != [] && (0xDC00 <= s[0] < 0xE000) ==> ScalarValues(s)[0] == 0xFFFD
  {
    if s != [] {
      NoSurrogateEncoded(s[if StartsPair(s) then 2 else 1..]);
    }
  }

  // ----- back to UTF-16

  /** One unit below U+10000, and above it a pair that holds ten bits each (section 2.1 of RFC 2781). */
  function UnitsOf(c: int): Utf16
    requires 0 <= c < 0x11_0000
  {
    if c < 0x1_0000 then [c] else [0xD800 + (c - 0x1_0000) / 0x400, 0xDC00 + (c - 0x1_0000) % 0x400]
  }

  function TextOf(cs: seq<int>): Utf16
    requires AllScalar(cs)
  {
    if cs == [] then [] else UnitsOf(cs[0]) + TextOf(cs[1..])
  }

  lemma {:induction false} TextOfScalarValues(s: Utf16)
    requires WellFormed(s)
    ensures AllScalar(ScalarValues(s)) && TextOf(ScalarValues(s)) == s
  {
    ScalarValuesInRange(s);
    if s != [] {
      var step := if StartsPair(s) then 2 else 1;
      assert Paired(s, 0);
      forall i | 0 <= i < |s[step..]| ensures Paired(s[step..], i) {
        assert Paired(s, i + step);
      }
      TextOfScalarValues(s[step..]);
      assert ScalarValues(s)[1..] == ScalarValues(s[step..]);
      assert UnitsOf(FirstValue(s)) == s[..step];
      assert s == s[..step] + s[step..];
    }
  }

  /** Well-formed text comes back from its bytes. */
  lemma TextRoundTrip(s: Utf16)
    requires WellFormed(s)
    ensures var cs := Decode(Encode(s)); cs.Some? && AllScalar(cs.value) && TextOf(cs.value) == s
  {
    TextOfScalarValues(s);
    DecodeEncodeAll(ScalarValues(s));
  }
}

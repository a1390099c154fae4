/**
 * UTF-8 as defined by RFC 3629: the byte encoding Foundation uses when it
 * percent-escapes a string and when it turns escaped bytes back into text.
 */
module Utf8 {
  import opened Wrappers

  newtype Byte = x: int | 0 <= x < 256

  /** Number of bytes RFC 3629 (section 3) uses for the scalar value `c`. */
  function EncodedLength(c: char): (n: nat)
    ensures 1 <= n <= 4
  {
    var v := c as int;
    if v < 0x80 then 1 else if v < 0x800 then 2 else if v < 0x1_0000 then 3 else 4
  }

  /** The UTF-8 encoding of one scalar value. */
  function EncodeChar(c: char): (bs: seq<Byte>)
    ensures |bs| == EncodedLength(c)
    ensures IsLead(bs[0]) && forall i :: 1 <= i < |bs| ==> IsContinuation(bs[i])
  {
    var v := c as int;
    if v < 0x80 then
      [v as Byte]
    else if v < 0x800 then
      [(0xC0 + v / 0x40) as Byte, (0x80 + v % 0x40) as Byte]
    else if v < 0x1_0000 then
      [(0xE0 + v / 0x1000) as Byte, (0x80 + v / 0x40 % 0x40) as Byte, (0x80 + v % 0x40) as Byte]
    else
      [(0xF0 + v / 0x4_0000) as Byte, (0x80 + v / 0x1000 % 0x40) as Byte,
       (0x80 + v / 0x40 % 0x40) as Byte, (0x80 + v % 0x40) as Byte]
  }

  /** A byte of the form 10xxxxxx. */
  predicate IsContinuation(b: Byte) {
    0x80 <= b < 0xC0
  }

  /**
   * The sequence length announced by a lead byte, or 0 when the byte cannot
   * start a well-formed sequence (continuation bytes, C0, C1 and F5..FF).
   */
  function LeadLength(b: Byte): (n: nat)
    ensures n <= 4
    ensures n == 1 <==> b < 0x80
  {
    if b < 0x80 then 1
    else if 0xC2 <= b < 0xE0 then 2
    else if 0xE0 <= b < 0xF0 then 3
    else if 0xF0 <= b < 0xF5 then 4
    else 0
  }

  predicate IsLead(b: Byte) {
    LeadLength(b) != 0
  }

  /** The scalar value carried by a sequence whose lead announces |bs| bytes. */
  function CodePoint(bs: seq<Byte>): int
    requires 1 <= |bs| <= 4
  {
    if |bs| == 1 then bs[0] as int
    else if |bs| == 2 then (bs[0] as int - 0xC0) * 0x40 + (bs[1] as int - 0x80)
    else if |bs| == 3 then
      (bs[0] as int - 0xE0) * 0x1000 + (bs[1] as int - 0x80) * 0x40 + (bs[2] as int - 0x80)
    else
      (bs[0] as int - 0xF0) * 0x4_0000 + (bs[1] as int - 0x80) * 0x1000
      + (bs[2] as int - 0x80) * 0x40 + (bs[3] as int - 0x80)
  }

  /**
   * Decodes the first scalar value of `bs`, returning it with the number of
   * bytes it took. Ill-formed input (RFC 3629 section 4: a bad lead, a missing
   * continuation, an overlong form, a surrogate, a value above U+10FFFF)
   * yields None.
   */
  function DecodeChar(bs: seq<Byte>): (r: Option<(char, nat)>)
    ensures r.Some? ==> 1 <= r.value.1 <= |bs| && r.value.1 == EncodedLength(r.value.0)
  {
    if |bs| == 0 then None
    else
      var n := LeadLength(bs[0]);
      if n == 0 || |bs| < n || exists i | 1 <= i < n :: !IsContinuation(bs[i]) then None
      else
        var cp := CodePoint(bs[..n]);
        if (n == 3 && cp < 0x800) || (n == 4 && cp < 0x1_0000) || (0xD800 <= cp < 0xE000) || cp > 0x10_FFFF then None
        else
          assert n == 2 ==> 0x80 <= cp < 0x800;
          assert n == 3 ==> cp < 0x1_0000;
          Some((cp as char, n))
  }

  /** Decoding a scalar value's encoding gives the value back, whatever follows it. */
  lemma DecodeEncodeChar(c: char, rest: seq<Byte>)
    ensures DecodeChar(EncodeChar(c) + rest) == Some((c, EncodedLength(c)))
  {
    var bs := EncodeChar(c) + rest;
    var n := EncodedLength(c);
    assert bs[..n] == EncodeChar(c);
    CodePointOfEncoding(c);
  }

  /** The scalar value carried by the encoding of `c` is `c` itself. */
  lemma CodePointOfEncoding(c: char)
    ensures CodePoint(EncodeChar(c)) == c as int
  {
    var v := c as int;
    var q1, r1 := v / 0x40, v % 0x40;
    assert v == q1 * 0x40 + r1;
    if v >= 0x800 {
      var q2, r2 := q1 / 0x40, q1 % 0x40;
      assert q1 == q2 * 0x40 + r2;
      assert v / 0x1000 == q2;
      if v >= 0x1_0000 {
        var q3, r3 := q2 / 0x40, q2 % 0x40;
        assert q2 == q3 * 0x40 + r3;
        assert v / 0x4_0000 == q3;
        assert v / 0x1000 % 0x40 == r3;
      }
    }
  }

  /** The encoding of a whole string. */
  function Encode(s: string): (bs: seq<Byte>)
    ensures |bs| >= |s|
  {
    if s == [] then [] else EncodeChar(s[0]) + Encode(s[1..])
  }

  /** Decodes a whole byte sequence, None unless it is well-formed UTF-8. */
  function Decode(bs: seq<Byte>): (r: Option<string>)
    ensures r.Some? ==> |r.value| <= |bs|
    decreases |bs|
  {
    if bs == [] then Some([])
    else match DecodeChar(bs)
      case None => None
      case Some((c, n)) =>
        match Decode(bs[n..])
        case None => None
        case Some(t) => Some([c] + t)
  }

  /** RFC 3629 round trip: decoding an encoding gives the original string. */
  lemma {:induction false} DecodeEncode(s: string)
    ensures Decode(Encode(s)) == Some(s)
  {
    if s != [] {
      DecodeEncodeChar(s[0], Encode(s[1..]));
      assert (EncodeChar(s[0]) + Encode(s[1..]))[EncodedLength(s[0])..] == Encode(s[1..]);
      DecodeEncode(s[1..]);
      assert [s[0]] + s[1..] == s;
    }
  }

  /** A lone continuation byte, such as %80 or %BF, is not text. */
  lemma StrayContinuationRejected(b: Byte, rest: seq<Byte>)
    requires IsContinuation(b)
    ensures Decode([b] + rest) == None
  {
  }
}

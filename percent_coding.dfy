/**
 * Percent-encoding of text (RFC 3986 section 2.1) over UTF-8 bytes: the
 * behaviour this model gives to Foundation's
 * stringByAddingPercentEscapesUsingEncoding and
 * stringByReplacingPercentEscapesUsingEncoding with NSUTF8StringEncoding.
 */
module PercentCoding {
  import opened Wrappers
  import opened Utf8

  /** A percent-encoded string read as literal characters and escaped bytes. */
  datatype Token = Lit(c: char) | Esc(b: Byte)

  /** The value of a hexadecimal digit of either case. */
  function HexValue(c: char): (r: Option<nat>)
    ensures r.Some? ==> r.value < 16
    ensures c == '%' || c == ' ' || c == '+' ==> r.None?
  {
    if '0' <= c <= '9' then Some(c as nat - '0' as nat)
    else if 'A' <= c <= 'F' then Some(c as nat - 'A' as nat + 10)
    else if 'a' <= c <= 'f' then Some(c as nat - 'a' as nat + 10)
    else None
  }

  /** The upper-case hexadecimal digit Foundation writes for `n`. */
  function HexDigit(n: nat): (c: char)
    requires n < 16
    ensures HexValue(c) == Some(n)
  {
    if n < 10 then ('0' as nat + n) as char else ('A' as nat + n - 10) as char
  }

  function PrependToken(t: Token, r: Option<seq<Token>>): Option<seq<Token>> {
    match r
    case None => None
    case Some(ts) => Some([t] + ts)
  }

  function PrependChar(c: char, r: Option<string>): Option<string> {
    match r
    case None => None
    case Some(s) => Some([c] + s)
  }

  /**
   * Reads `s` left to right: a `%` must be followed by two hexadecimal
   * digits and stands for one byte; every other character stands for itself.
   * A `%` without two hexadecimal digits after it makes the string malformed.
   */
  function Tokenize(s: string): (r: Option<seq<Token>>)
    decreases |s|
  {
    if s == [] then Some([])
    else if s[0] != '%' then PrependToken(Lit(s[0]), Tokenize(s[1..]))
    else if |s| < 3 || HexValue(s[1]).None? || HexValue(s[2]).None? then None
    else PrependToken(Esc((16 * HexValue(s[1]).value + HexValue(s[2]).value) as Byte), Tokenize(s[3..]))
  }

  /** The bytes of the (at most k) escaped tokens that open `ts`. */
  function LeadingBytes(ts: seq<Token>, k: nat): (bs: seq<Byte>)
    ensures |bs| <= k && |bs| <= |ts|
  {
    if k == 0 || ts == [] || ts[0].Lit? then [] else [ts[0].b] + LeadingBytes(ts[1..], k - 1)
  }

  /**
   * Turns tokens back into text: literal characters are kept, and each run of
   * escaped bytes must be well-formed UTF-8, decoded one scalar value at a time.
   */
  function DecodeTokens(ts: seq<Token>): (r: Option<string>)
    decreases |ts|
  {
    if ts == [] then Some([])
    else match ts[0]
      case Lit(c) => PrependChar(c, DecodeTokens(ts[1..]))
      case Esc(_) =>
        match DecodeChar(LeadingBytes(ts, 4))
        case None => None
        case Some((c, n)) => PrependChar(c, DecodeTokens(ts[n..]))
  }

  /**
   * stringByReplacingPercentEscapesUsingEncoding(NSUTF8StringEncoding): None
   * (Foundation's nil) on a malformed escape or escaped bytes that are not UTF-8.
   */
  function PercentDecode(s: string): Option<string> {
    match Tokenize(s)
    case None => None
    case Some(ts) => DecodeTokens(ts)
  }

  /**
   * The characters escaping leaves alone: the unreserved and reserved
   * characters of RFC 3986 (sections 2.2 and 2.3). Everything else, `%` and
   * the space included, is escaped.
   */
  predicate Unescaped(c: char) {
    || 'a' <= c <= 'z' || 'A' <= c <= 'Z' || '0' <= c <= '9'
    || c in "-._~" || c in ":/?#[]@" || c in "!$&'()*+,;="
  }

  function EscapeByte(b: Byte): (s: string)
    ensures |s| == 3 && s[0] == '%'
  {
    ['%', HexDigit(b as nat / 16), HexDigit(b as nat % 16)]
  }

  function EscapeBytes(bs: seq<Byte>): string {
    if bs == [] then [] else EscapeByte(bs[0]) + EscapeBytes(bs[1..])
  }

  /**
   * Writes every character that `keep` accepts as the single literal
   * `lit(c)`, and every other character as its UTF-8 bytes in %XX form.
   */
  function EncodeUnits(s: string, keep: char -> bool, lit: char -> char): string {
    if s == [] then []
    else (if keep(s[0]) then [lit(s[0])] else EscapeBytes(EncodeChar(s[0]))) + EncodeUnits(s[1..], keep, lit)
  }

  function Same(c: char): char {
    c
  }

  /** stringByAddingPercentEscapesUsingEncoding(NSUTF8StringEncoding). */
  function PercentEncode(s: string): string {
    EncodeUnits(s, Unescaped, Same)
  }

  /** What decoding `EncodeUnits(s, keep, lit)` is expected to give back. */
  function DecodedUnits(s: string, keep: char -> bool, lit: char -> char): (r: string)
    ensures |r| == |s|
    ensures forall i :: 0 <= i < |s| ==> r[i] == if keep(s[i]) then lit(s[i]) else s[i]
  {
    if s == [] then [] else [if keep(s[0]) then lit(s[0]) else s[0]] + DecodedUnits(s[1..], keep, lit)
  }

  // ---------------------------------------------------------------------------
  // Properties

  function EscTokens(bs: seq<Byte>): (ts: seq<Token>)
    ensures |ts| == |bs|
    ensures forall i :: 0 <= i < |bs| ==> ts[i] == Esc(bs[i])
  {
    if bs == [] then [] else [Esc(bs[0])] + EscTokens(bs[1..])
  }

  /** The tokens `EncodeUnits` produces, as `Tokenize` reads them back. */
  function UnitTokens(s: string, keep: char -> bool, lit: char -> char): seq<Token> {
    if s == [] then []
    else (if keep(s[0]) then [Lit(lit(s[0]))] else EscTokens(EncodeChar(s[0]))) + UnitTokens(s[1..], keep, lit)
  }

  lemma TokenizeEscapeByte(b: Byte, rest: string)
    ensures Tokenize(EscapeByte(b) + rest) == PrependToken(Esc(b), Tokenize(rest))
  {
    var s := EscapeByte(b) + rest;
    assert s[3..] == rest;
    assert HexValue(s[1]) == Some(b as nat / 16) && HexValue(s[2]) == Some(b as nat % 16);
    assert (16 * (b as nat / 16) + b as nat % 16) as Byte == b;
  }

  lemma {:induction false} TokenizeEscapes(bs: seq<Byte>, rest: string, t: seq<Token>)
    requires Tokenize(rest) == Some(t)
    ensures Tokenize(EscapeBytes(bs) + rest) == Some(EscTokens(bs) + t)
  {
    if bs == [] {
      assert EscapeBytes(bs) + rest == rest && EscTokens(bs) + t == t;
    } else {
      var tail, tailTokens := EscapeBytes(bs[1..]) + rest, EscTokens(bs[1..]) + t;
      TokenizeEscapes(bs[1..], rest, t);
      TokenizeEscapeByte(bs[0], tail);
      assert EscapeBytes(bs) + rest == EscapeByte(bs[0]) + tail;
      assert EscTokens(bs) + t == [Esc(bs[0])] + tailTokens;
    }
  }

  lemma {:induction false} TokenizeUnits(s: string, keep: char -> bool, lit: char -> char)
    requires forall c :: keep(c) ==> lit(c) != '%'
    ensures Tokenize(EncodeUnits(s, keep, lit)) == Some(UnitTokens(s, keep, lit))
  {
    if s != [] {
      TokenizeUnits(s[1..], keep, lit);
      var rest := EncodeUnits(s[1..], keep, lit);
      if keep(s[0]) {
        assert ([lit(s[0])] + rest)[1..] == rest;
      } else {
        TokenizeEscapes(EncodeChar(s[0]), rest, UnitTokens(s[1..], keep, lit));
      }
    }
  }

  lemma {:induction false} LeadingBytesOfEscapes(bs: seq<Byte>, t: seq<Token>, k: nat)
    requires |bs| <= k
    ensures LeadingBytes(EscTokens(bs) + t, k) == bs + LeadingBytes(t, k - |bs|)
  {
    if bs != [] {
      var ts := EscTokens(bs) + t;
      assert ts[0] == Esc(bs[0]) && ts[1..] == EscTokens(bs[1..]) + t;
      LeadingBytesOfEscapes(bs[1..], t, k - 1);
      assert LeadingBytes(ts, k) == [bs[0]] + LeadingBytes(ts[1..], k - 1);
      assert [bs[0]] + (bs[1..] + LeadingBytes(t, k - |bs|)) == bs + LeadingBytes(t, k - |bs|);
    } else {
      assert EscTokens(bs) + t == t;
    }
  }

  lemma {:induction false} DecodeUnitTokens(s: string, keep: char -> bool, lit: char -> char)
    ensures DecodeTokens(UnitTokens(s, keep, lit)) == Some(DecodedUnits(s, keep, lit))
  {
    if s != [] {
      DecodeUnitTokens(s[1..], keep, lit);
      var c := s[0];
      var ts := UnitTokens(s, keep, lit);
      var rest := UnitTokens(s[1..], keep, lit);
      if keep(c) {
        assert ts[1..] == rest;
      } else {
        var bs := EncodeChar(c);
        assert ts == EscTokens(bs) + rest;
        LeadingBytesOfEscapes(bs, rest, 4);
        DecodeEncodeChar(c, LeadingBytes(rest, 4 - |bs|));
        assert ts[|bs|..] == rest;
      }
    }
  }

  /**
   * Decoding undoes any unit encoding whose literals are not `%`: each kept
   * character comes back as its literal, each escaped one as itself.
   */
  lemma DecodeEncodeUnits(s: string, keep: char -> bool, lit: char -> char)
    requires forall c :: keep(c) ==> lit(c) != '%'
    ensures PercentDecode(EncodeUnits(s, keep, lit)) == Some(DecodedUnits(s, keep, lit))
  {
    TokenizeUnits(s, keep, lit);
    DecodeUnitTokens(s, keep, lit);
  }

  /** Percent-decoding undoes percent-encoding, for every string. */
  lemma DecodeEncode(s: string)
    ensures PercentDecode(PercentEncode(s)) == Some(s)
  {
    DecodeEncodeUnits(s, Unescaped, Same);
    assert DecodedUnits(s, Unescaped, Same) == s;
  }

  /**
   * A string written entirely in %XX escapes decodes exactly as its bytes do
   * as UTF-8: the decoded text when they are well-formed, None otherwise.
   */
  lemma DecodeEscapedBytes(bs: seq<Byte>)
    ensures PercentDecode(EscapeBytes(bs)) == Utf8.Decode(bs)
  {
    TokenizeEscapes(bs, [], []);
    assert EscapeBytes(bs) + [] == EscapeBytes(bs) && EscTokens(bs) + [] == EscTokens(bs);
    DecodeEscTokens(bs);
  }

  /** Escaping every byte of a string's UTF-8 encoding, then decoding, gives the string back. */
  lemma DecodeFullyEscaped(s: string)
    ensures PercentDecode(EscapeBytes(Utf8.Encode(s))) == Some(s)
  {
    DecodeEscapedBytes(Utf8.Encode(s));
    Utf8.DecodeEncode(s);
  }

  lemma {:induction false} DecodeEscTokens(bs: seq<Byte>)
    ensures DecodeTokens(EscTokens(bs)) == Utf8.Decode(bs)
    decreases |bs|
  {
    if bs != [] {
      var ts := EscTokens(bs);
      LeadingBytesOfAllEscapes(bs, 4);
      DecodeCharFirstFour(bs);
      match DecodeChar(bs) {
        case None =>
        case Some((c, n)) =>
          assert ts[n..] == EscTokens(bs[n..]);
          DecodeEscTokens(bs[n..]);
      }
    }
  }

  lemma {:induction false} LeadingBytesOfAllEscapes(bs: seq<Byte>, k: nat)
    ensures LeadingBytes(EscTokens(bs), k) == bs[..if |bs| < k then |bs| else k]
  {
    if k != 0 && bs != [] {
      var ts := EscTokens(bs);
      assert ts[1..] == EscTokens(bs[1..]);
      LeadingBytesOfAllEscapes(bs[1..], k - 1);
      assert [bs[0]] + bs[1..][..if |bs| - 1 < k - 1 then |bs| - 1 else k - 1] == bs[..if |bs| < k then |bs| else k];
    }
  }

  /** Decoding one scalar value looks at no more than four bytes. */
  lemma DecodeCharFirstFour(bs: seq<Byte>)
    ensures DecodeChar(bs) == DecodeChar(bs[..if |bs| < 4 then |bs| else 4])
  {
    var p := bs[..if |bs| < 4 then |bs| else 4];
    if |bs| != 0 {
      var n := LeadLength(bs[0]);
      assert p[0] == bs[0];
      assert forall i | 1 <= i < n && i < |p| :: p[i] == bs[i];
      if n != 0 && n <= |bs| {
        assert p[..n] == bs[..n];
      }
    }
  }

  /** A string without `%` decodes to itself. */
  lemma {:induction false} DecodeWithoutEscapes(s: string)
    requires '%' !in s
    ensures PercentDecode(s) == Some(s)
  {
    if s != [] {
      DecodeWithoutEscapes(s[1..]);
      assert [s[0]] + s[1..] == s;
    }
  }

  /** A string that ends in `%` is malformed, whatever precedes it. */
  lemma {:induction false} TrailingPercentRejected(s: string)
    requires |s| > 0 && s[|s| - 1] == '%'
    ensures PercentDecode(s) == None
  {
    TrailingPercentNoTokens(s);
  }

  lemma {:induction false} TrailingPercentNoTokens(s: string)
    requires |s| > 0 && s[|s| - 1] == '%'
    ensures Tokenize(s) == None
    decreases |s|
  {
    if s[0] != '%' {
      TrailingPercentNoTokens(s[1..]);
    } else if 3 <= |s| && HexValue(s[1]).Some? && HexValue(s[2]).Some? {
      TrailingPercentNoTokens(s[3..]);
    }
  }

  /** Escaped bytes that are not UTF-8 (here a lone continuation byte) are rejected. */
  lemma LoneContinuationRejected()
    ensures PercentDecode("%80") == None
  {
    var bs: seq<Byte> := [0x80];
    assert EscapeBytes(bs) == "%80";
    DecodeEscapedBytes(bs);
    Utf8.StrayContinuationRejected(0x80, []);
    assert [0x80 as Byte] + [] == bs;
  }

  /** Encoding writes no space: the space is not among the characters left alone. */
  lemma EncodeWritesNoSpace(s: string)
    ensures ' ' !in PercentEncode(s)
  {
    UnitsWithout(s, Unescaped, Same, ' ');
  }

  /** A unit encoding contains `x` only as a literal, when `x` is neither `%` nor a hex digit. */
  lemma {:induction false} UnitsWithout(s: string, keep: char -> bool, lit: char -> char, x: char)
    requires x == ' ' || x == '+'
    requires forall i :: 0 <= i < |s| && keep(s[i]) ==> lit(s[i]) != x
    ensures x !in EncodeUnits(s, keep, lit)
  {
    if s != [] {
      UnitsWithout(s[1..], keep, lit, x);
      EscapedBytesHaveNoSpace(EncodeChar(s[0]));
      assert forall i :: 0 <= i < |s[1..]| ==> s[1..][i] == s[i + 1];
    }
  }

  lemma {:induction false} EscapedBytesHaveNoSpace(bs: seq<Byte>)
    ensures ' ' !in EscapeBytes(bs) && '+' !in EscapeBytes(bs)
  {
    if bs != [] {
      EscapedBytesHaveNoSpace(bs[1..]);
    }
  }
}

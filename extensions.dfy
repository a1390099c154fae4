/**
 * The string, number and date helpers of SwiftUtils/Extensions.swift, and
 * NSURL.queryDictionary, which splits a URL's query component (RFC 3986
 * section 3.4) into form-encoded key/value pairs (HTML 4.01 section 17.13.4.1).
 */
module Extensions {
  import opened Wrappers
  import opened PercentCoding

  // ---------------------------------------------------------------------------
  // Replacing, splitting and joining

  /** stringByReplacingOccurrencesOfString for one-character strings. */
  function ReplaceChar(s: string, from: char, to: char): (r: string)
    ensures |r| == |s|
    ensures forall i :: 0 <= i < |s| ==> r[i] == if s[i] == from then to else s[i]
  {
    if s == [] then [] else [if s[0] == from then to else s[0]] + ReplaceChar(s[1..], from, to)
  }

  /** `split` (componentsSeparatedByString) with a one-character separator. */
  function Split(s: string, sep: char): (parts: seq<string>)
    ensures |parts| >= 1
    ensures forall i :: 0 <= i < |parts| ==> sep !in parts[i]
    decreases |s|
  {
    if s == [] then [[]]
    else
      var rest := Split(s[1..], sep);
      if s[0] == sep then [[]] + rest else [[s[0]] + rest[0]] + rest[1..]
  }

  /** The inverse of Split: the parts with the separator between them. */
  function Join(parts: seq<string>, sep: char): string
    requires |parts| >= 1
  {
    if |parts| == 1 then parts[0] else parts[0] + [sep] + Join(parts[1..], sep)
  }

  /** How many times `c` occurs in `s`. */
  function Occurrences(s: string, c: char): nat {
    if s == [] then 0 else (if s[0] == c then 1 else 0) + Occurrences(s[1..], c)
  }

  /** Joining the parts of a split gives the string back. */
  lemma {:induction false} JoinSplit(s: string, sep: char)
    ensures Join(Split(s, sep), sep) == s
  {
    if s != [] {
      JoinSplit(s[1..], sep);
      var rest := Split(s[1..], sep);
      if s[0] == sep {
        assert Split(s, sep)[1..] == rest;
      } else {
        var parts := Split(s, sep);
        assert parts[1..] == rest[1..];
        if |rest| == 1 {
          assert Join(parts, sep) == [s[0]] + rest[0];
        } else {
          assert Join(rest, sep) == rest[0] + [sep] + Join(rest[1..], sep);
          assert Join(parts, sep) == [s[0]] + rest[0] + [sep] + Join(rest[1..], sep);
        }
      }
      assert [s[0]] + s[1..] == s;
    }
  }

  /** Splitting a string that starts with a separator-free part. */
  lemma {:induction false} SplitAfterPart(x: string, y: string, sep: char)
    requires sep !in x
    ensures Split(x + [sep] + y, sep) == [x] + Split(y, sep)
  {
    if x == [] {
      assert ([sep] + y)[1..] == y;
    } else {
      SplitAfterPart(x[1..], y, sep);
      assert (x + [sep] + y)[1..] == x[1..] + [sep] + y;
      assert [x[0]] + x[1..] == x;
    }
  }

  /** Splitting a string without separator gives that string alone. */
  lemma {:induction false} SplitWithoutSeparator(s: string, sep: char)
    requires sep !in s
    ensures Split(s, sep) == [s]
  {
    if s != [] {
      SplitWithoutSeparator(s[1..], sep);
      assert [s[0]] + s[1..] == s;
    }
  }

  /** Splitting the join of separator-free parts gives the parts back. */
  lemma {:induction false} SplitJoin(parts: seq<string>, sep: char)
    requires |parts| >= 1
    requires forall i :: 0 <= i < |parts| ==> sep !in parts[i]
    ensures Split(Join(parts, sep), sep) == parts
  {
    if |parts| == 1 {
      SplitWithoutSeparator(parts[0], sep);
    } else {
      SplitJoin(parts[1..], sep);
      SplitAfterPart(parts[0], Join(parts[1..], sep), sep);
      assert [parts[0]] + parts[1..] == parts;
    }
  }

  /** There is one more part than there are separators. */
  lemma {:induction false} SplitCount(s: string, sep: char)
    ensures |Split(s, sep)| == Occurrences(s, sep) + 1
  {
    if s != [] {
      SplitCount(s[1..], sep);
    }
  }

  /** A separator occurs exactly when there are at least two parts. */
  lemma SplitHasTwoParts(s: string, sep: char)
    ensures |Split(s, sep)| >= 2 <==> sep in s
  {
    SplitCount(s, sep);
    OccurrencesPositive(s, sep);
  }

  lemma {:induction false} OccurrencesPositive(s: string, c: char)
    ensures Occurrences(s, c) > 0 <==> c in s
  {
    if s != [] {
      OccurrencesPositive(s[1..], c);
      assert c in s <==> s[0] == c || c in s[1..];
    }
  }

  lemma {:induction false} ReplaceConcat(x: string, y: string, from: char, to: char)
    ensures ReplaceChar(x + y, from, to) == ReplaceChar(x, from, to) + ReplaceChar(y, from, to)
  {
    assert forall i :: 0 <= i < |x + y| ==> (x + y)[i] == if i < |x| then x[i] else y[i - |x|];
  }

  lemma ReplaceAbsent(x: string, from: char, to: char)
    requires from !in x
    ensures ReplaceChar(x, from, to) == x
  {
  }

  // ---------------------------------------------------------------------------
  // stringByDecodingURLFormat / stringByEncodingURLFormat

  /**
   * stringByDecodingURLFormat: every `+` becomes a space, then escapes are
   * decoded. None stands for the force-unwrap trap on a malformed escape or
   * escaped bytes that are not UTF-8.
   */
  function DecodeURLFormat(s: string): Option<string> {
    PercentDecode(ReplaceChar(s, '+', ' '))
  }

  /**
   * stringByEncodingURLFormat: every space becomes `+`, then the result is
   * percent-escaped. `+` is among the characters escaping leaves alone.
   */
  function EncodeURLFormat(s: string): (r: string)
    ensures ' ' !in r
  {
    EncodeWritesNoSpace(ReplaceChar(s, ' ', '+'));
    PercentEncode(ReplaceChar(s, ' ', '+'))
  }

  function PlusAsSpace(c: char): char {
    if c == '+' then ' ' else c
  }

  function SpaceAsPlus(c: char): char {
    if c == ' ' then '+' else c
  }

  /** Characters form encoding writes literally: `+` is escaped, a space is written as `+`. */
  predicate FormKept(c: char) {
    c == ' ' || (Unescaped(c) && c != '+')
  }

  /**
   * The form encoding as application/x-www-form-urlencoded prescribes:
   * a `+` in the text is escaped as %2B before spaces are written as `+`.
   */
  function EncodeURLFormatEscapingPlus(s: string): (r: string)
    ensures ' ' !in r
  {
    UnitsWithout(s, FormKept, SpaceAsPlus, ' ');
    EncodeUnits(s, FormKept, SpaceAsPlus)
  }

  /**
   * Replacing a literal that is neither `%` nor a hexadecimal digit inside a
   * unit encoding only changes the literals.
   */
  lemma {:induction false} ReplaceInUnits(s: string, keep: char -> bool, lit: char -> char, lit2: char -> char, a: char, b: char)
    requires a == '+' || a == ' '
    requires forall c :: keep(c) ==> lit2(c) == if lit(c) == a then b else lit(c)
    ensures ReplaceChar(EncodeUnits(s, keep, lit), a, b) == EncodeUnits(s, keep, lit2)
  {
    if s != [] {
      ReplaceInUnits(s[1..], keep, lit, lit2, a, b);
      var head := if keep(s[0]) then [lit(s[0])] else EscapeBytes(Utf8.EncodeChar(s[0]));
      ReplaceConcat(head, EncodeUnits(s[1..], keep, lit), a, b);
      if !keep(s[0]) {
        EscapedBytesHaveNoSpace(Utf8.EncodeChar(s[0]));
        ReplaceAbsent(head, a, b);
      }
    }
  }

  /**
   * As written, the form encoding does not round-trip: every `+` of the
   * original text comes back as a space.
   */
  lemma EncodeURLFormatLosesPlus(s: string)
    ensures DecodeURLFormat(EncodeURLFormat(s)) == Some(ReplaceChar(s, '+', ' '))
  {
    var t := ReplaceChar(s, ' ', '+');
    ReplaceInUnits(t, Unescaped, Same, PlusAsSpace, '+', ' ');
    DecodeEncodeUnits(t, Unescaped, PlusAsSpace);
    var decoded, expected := DecodedUnits(t, Unescaped, PlusAsSpace), ReplaceChar(s, '+', ' ');
    assert Unescaped('+');
    forall i | 0 <= i < |s| ensures decoded[i] == expected[i] {
      if s[i] != ' ' && s[i] != '+' {
        assert t[i] == s[i];
      }
    }
    assert decoded == expected;
  }

  /** The smallest witness: "+" is encoded as "+" and decoded as " ". */
  lemma PlusComesBackAsSpace()
    ensures DecodeURLFormat(EncodeURLFormat("+")) == Some(" ")
  {
    EncodeURLFormatLosesPlus("+");
    assert ReplaceChar("+", '+', ' ') == " ";
  }

  /** The corrected form encoding round-trips every string. */
  lemma DecodeEncodeURLFormat(s: string)
    ensures DecodeURLFormat(EncodeURLFormatEscapingPlus(s)) == Some(s)
  {
    ReplaceInUnits(s, FormKept, SpaceAsPlus, Same, '+', ' ');
    DecodeEncodeUnits(s, FormKept, Same);
    assert DecodedUnits(s, FormKept, Same) == s;
  }

  /** Text without escapes decodes to itself with `+` read as a space. */
  lemma DecodeURLFormatWithoutEscapes(s: string)
    requires '%' !in s
    ensures DecodeURLFormat(s) == Some(ReplaceChar(s, '+', ' '))
  {
    DecodeWithoutEscapes(ReplaceChar(s, '+', ' '));
  }

  // ---------------------------------------------------------------------------
  // Subscripts

  /** `s[i]` as a Character: requires `i` within bounds, as `advance` does. */
  function CharAt(s: string, i: int): (c: char)
    requires 0 <= i < |s|
    ensures s == s[..i] + [c] + s[i + 1..]
  {
    s[i]
  }

  /** `s[i]` as a one-character String. */
  function CharStringAt(s: string, i: int): (r: string)
    requires 0 <= i < |s|
    ensures |r| == 1 && r[0] == CharAt(s, i)
  {
    [s[i]]
  }

  /** `s[r]`: the characters from r.startIndex up to, not including, r.endIndex. */
  function Substring(s: string, start: int, end: int): (r: string)
    requires 0 <= start <= end <= |s|
    ensures |r| == end - start
    ensures forall k :: 0 <= k < |r| ==> r[k] == CharAt(s, start + k)
  {
    s[start..end]
  }

  /** Adjacent ranges give adjacent substrings. */
  lemma SubstringsConcatenate(s: string, a: int, b: int, c: int)
    requires 0 <= a <= b <= c <= |s|
    ensures Substring(s, a, b) + Substring(s, b, c) == Substring(s, a, c)
    ensures b < c ==> Substring(s, b, b + 1) == CharStringAt(s, b)
  {
    assert s[a..b] + s[b..c] == s[a..c];
  }

  // ---------------------------------------------------------------------------
  // Int(String) and Bool(String)

  /** Swift's Int on the 64-bit platforms. */
  const IntMin: int := -0x8000_0000_0000_0000
  const IntMax: int := 0x7FFF_FFFF_FFFF_FFFF

  predicate IsDigit(c: char) {
    '0' <= c <= '9'
  }

  predicate AllDigits(s: string) {
    forall i :: 0 <= i < |s| ==> IsDigit(s[i])
  }

  /** The value of a decimal numeral, most significant digit first. */
  function DigitsValue(s: string): nat
    requires AllDigits(s)
  {
    if s == [] then 0 else 10 * DigitsValue(s[..|s| - 1]) + (s[|s| - 1] as nat - '0' as nat)
  }

  /**
   * `Int(string)` (String.toInt): an optional `+` or `-`, then one or more
   * decimal digits, with a value that fits in a 64-bit Int; anything else is nil.
   */
  function ParseInt(s: string): (r: Option<int>)
    ensures r.Some? ==> IntMin <= r.value <= IntMax
    ensures r.Some? ==> exists i :: 0 <= i < |s| && IsDigit(s[i])
  {
    var negative := |s| > 0 && s[0] == '-';
    var digits := if |s| > 0 && (s[0] == '-' || s[0] == '+') then s[1..] else s;
    if digits == [] || !AllDigits(digits) then None
    else
      assert IsDigit(s[|s| - 1]);
      var v: int := if negative then -(DigitsValue(digits) as int) else DigitsValue(digits);
      if IntMin <= v <= IntMax then Some(v) else None
  }

  /** `Bool(string)`: nil when `Int(string)` is nil, otherwise whether the integer is non-zero. */
  function ParseBool(s: string): (r: Option<bool>)
    ensures r.None? <==> ParseInt(s).None?
    ensures r.Some? ==> (r.value <==> ParseInt(s).value != 0)
  {
    match ParseInt(s)
    case None => None
    case Some(i) => Some(i != 0)
  }

  /** The decimal numeral of a natural number (Swift's `description`). */
  function ShowNat(n: nat): (s: string)
    ensures |s| >= 1 && AllDigits(s)
  {
    if n < 10 then [('0' as nat + n) as char] else ShowNat(n / 10) + [('0' as nat + n % 10) as char]
  }

  /** The decimal numeral of an integer: a `-` before negative values. */
  function ShowInt(n: int): string {
    if n < 0 then "-" + ShowNat(-n) else ShowNat(n)
  }

  lemma {:induction false} DigitsValueShowNat(n: nat)
    ensures DigitsValue(ShowNat(n)) == n
  {
    if n >= 10 {
      DigitsValueShowNat(n / 10);
      var s := ShowNat(n);
      assert s[..|s| - 1] == ShowNat(n / 10);
    }
  }

  /** Int(String) reads back every Int's decimal numeral. */
  lemma ParseShowInt(n: int)
    requires IntMin <= n <= IntMax
    ensures ParseInt(ShowInt(n)) == Some(n)
  {
    var m := if n < 0 then -n else n;
    DigitsValueShowNat(m);
    if n < 0 {
      assert ShowInt(n)[1..] == ShowNat(m);
    } else {
      assert ShowNat(m)[0] != '-' && ShowNat(m)[0] != '+';
    }
  }

  predicate AllZeros(s: string) {
    forall i :: 0 <= i < |s| ==> s[i] == '0'
  }

  /** What may come before a numeral's significant digits: an optional sign, then zeros. */
  predicate SignedZeros(p: string) {
    AllZeros(p) || (|p| > 0 && (p[0] == '+' || p[0] == '-') && AllZeros(p[1..]))
  }

  /**
   * `s` spells `v`: an optional sign and leading zeros, then the canonical
   * numeral of |v|; `-` is there for every negative value and for no positive one.
   */
  predicate SpellsInt(s: string, v: int) {
    exists z :: 0 <= z < |s| && SignedZeros(s[..z]) && s[z..] == ShowNat(if v < 0 then -v else v)
      && (v < 0 ==> s[0] == '-') && (v > 0 ==> s[0] != '-')
  }

  /** Int(String) succeeds exactly on the spellings of the 64-bit Ints, with their value. */
  lemma ParseIntSpellsInt(s: string, v: int)
    ensures ParseInt(s) == Some(v) <==> IntMin <= v <= IntMax && SpellsInt(s, v)
  {
    if ParseInt(s) == Some(v) {
      ParsedSpells(s, v);
    }
    if IntMin <= v <= IntMax && SpellsInt(s, v) {
      SpellingParses(s, v);
    }
  }

  lemma ParsedSpells(s: string, v: int)
    requires ParseInt(s) == Some(v)
    ensures SpellsInt(s, v)
  {
    var k := ParsedDigits(s, v);
    var digits := s[k..];
    var j := ZerosThenNumeral(digits);
    var z := k + j;
    assert s[z..] == digits[j..];
    assert SignedZeros(s[..z]) by {
      if k == 1 {
        assert s[..z][1..] == digits[..j];
      } else {
        assert s[..z] == digits[..j];
      }
    }
    assert s[z..] == ShowNat(if v < 0 then -v else v);
  }

  /** A parsed string is an optional sign, then a numeral of the value's magnitude. */
  lemma ParsedDigits(s: string, v: int) returns (k: nat)
    requires ParseInt(s) == Some(v)
    ensures k <= 1 && k < |s| && ((s[0] == '-' || s[0] == '+') <==> k == 1)
    ensures AllDigits(s[k..]) && |s[k..]| >= 1
    ensures v == if s[0] == '-' then -(DigitsValue(s[k..]) as int) else DigitsValue(s[k..])
  {
    k := if s[0] == '-' || s[0] == '+' then 1 else 0;
  }

  lemma SpellingParses(s: string, v: int)
    requires IntMin <= v <= IntMax && SpellsInt(s, v)
    ensures ParseInt(s) == Some(v)
  {
    var m := if v < 0 then -v else v;
    var z :| 0 <= z < |s| && SignedZeros(s[..z]) && s[z..] == ShowNat(m)
      && (v < 0 ==> s[0] == '-') && (v > 0 ==> s[0] != '-');
    var k := SpelledDigits(s, z, m);
  }

  /** Past the optional sign, a spelling is a numeral of the spelled magnitude. */
  lemma SpelledDigits(s: string, z: nat, m: nat) returns (k: nat)
    requires z < |s| && SignedZeros(s[..z]) && s[z..] == ShowNat(m)
    ensures k <= 1 && ((s[0] == '-' || s[0] == '+') <==> k == 1)
    ensures AllDigits(s[k..]) && |s[k..]| >= 1 && DigitsValue(s[k..]) == m
  {
    var p := s[..z];
    var signed := |p| > 0 && (p[0] == '+' || p[0] == '-');
    k := if signed then 1 else 0;
    assert AllZeros(p[k..]);
    assert s[k..] == p[k..] + ShowNat(m);
    DigitsValueZeros(p[k..], ShowNat(m));
    DigitsValueShowNat(m);
    if !signed {
      if z == 0 {
        assert s[0] == ShowNat(m)[0];
      } else {
        assert s[0] == p[0];
      }
    }
  }

  /** A leading zero does not change a numeral's value. */
  lemma {:induction false} DigitsValueLeadingZero(d: string)
    requires AllDigits(d) && |d| >= 1 && d[0] == '0'
    ensures DigitsValue(d) == DigitsValue(d[1..])
    decreases |d|
  {
    if |d| > 1 {
      var init := d[..|d| - 1];
      DigitsValueLeadingZero(init);
      assert init[1..] == d[1..][..|d| - 2];
    }
  }

  lemma {:induction false} DigitsValueZeros(zs: string, d: string)
    requires AllZeros(zs) && AllDigits(d) && |d| >= 1
    ensures AllDigits(zs + d) && DigitsValue(zs + d) == DigitsValue(d)
    decreases |zs|
  {
    assert AllDigits(zs + d) by {
      forall i | 0 <= i < |zs + d|
        ensures IsDigit((zs + d)[i])
      {
        if i < |zs| { assert (zs + d)[i] == zs[i]; } else { assert (zs + d)[i] == d[i - |zs|]; }
      }
    }
    if zs != [] {
      var rest := zs[1..];
      assert AllZeros(rest);
      assert (zs + d)[0] == '0';
      var whole := zs + d;
      DigitsValueLeadingZero(whole);
      assert whole[1..] == rest + d;
      DigitsValueZeros(rest, d);
    } else {
      assert zs + d == d;
    }
  }

  /** A numeral that does not start with 0 (or is "0") is the canonical numeral of its value. */
  lemma {:induction false} ShowNatOfDigits(d: string)
    requires AllDigits(d) && |d| >= 1 && (d[0] != '0' || |d| == 1)
    ensures ShowNat(DigitsValue(d)) == d
    decreases |d|
  {
    if |d| > 1 {
      var init := d[..|d| - 1];
      ShowNatOfDigits(init);
      DigitsValuePositive(init);
      var n := DigitsValue(d);
      assert n / 10 == DigitsValue(init) && n % 10 == d[|d| - 1] as nat - '0' as nat;
      assert init + [d[|d| - 1]] == d;
    }
  }

  lemma {:induction false} DigitsValuePositive(d: string)
    requires AllDigits(d) && |d| >= 1 && d[0] != '0'
    ensures DigitsValue(d) >= 1
    decreases |d|
  {
    if |d| > 1 {
      DigitsValuePositive(d[..|d| - 1]);
    }
  }

  /** Every numeral is some zeros followed by the canonical numeral of its value. */
  lemma {:induction false} ZerosThenNumeral(d: string) returns (j: nat)
    requires AllDigits(d) && |d| >= 1
    ensures j < |d| && AllZeros(d[..j]) && d[j..] == ShowNat(DigitsValue(d))
    decreases |d|
  {
    if d[0] != '0' || |d| == 1 {
      j := 0;
      ShowNatOfDigits(d);
    } else {
      DigitsValueLeadingZero(d);
      var j' := ZerosThenNumeral(d[1..]);
      j := j' + 1;
      assert d[j..] == d[1..][j'..];
      assert d[..j] == [d[0]] + d[1..][..j'];
    }
  }

  /** Bool(String) reads the numeral of an Int as "is it non-zero". */
  lemma ParseBoolShowInt(n: int)
    requires IntMin <= n <= IntMax
    ensures ParseBool(ShowInt(n)) == Some(n != 0)
  {
    ParseShowInt(n);
  }

  // ---------------------------------------------------------------------------
  // NSDate comparison

  /** NSDate's earlierDate; dates are modelled as integer timestamps. */
  function EarlierDate(a: int, b: int): (e: int)
    ensures e <= a && e <= b && (e == a || e == b)
  {
    if a <= b then a else b
  }

  /** `<` on NSDate as written: `a.earlierDate(b) == a`, which holds when a and b are equal. */
  predicate DateLessAsWritten(a: int, b: int) {
    EarlierDate(a, b) == a
  }

  /** The written `<` is not strict: every date is "less" than itself. */
  lemma DateLessAsWrittenHoldsOnTies(t: int)
    ensures DateLessAsWritten(t, t)
  {
  }

  /** `<` on NSDate as a strict order, as Comparable requires. */
  predicate DateLess(a: int, b: int) {
    EarlierDate(a, b) == a && a != b
  }

  /** The corrected `<` is a strict total order on timestamps. */
  lemma DateLessIsStrictTotalOrder(a: int, b: int, c: int)
    ensures !DateLess(a, a)
    ensures DateLess(a, b) && DateLess(b, c) ==> DateLess(a, c)
    ensures a != b ==> DateLess(a, b) != DateLess(b, a)
    ensures DateLess(a, b) <==> a < b
  {
  }

  // ---------------------------------------------------------------------------
  // NSURL.queryDictionary

  /** What one `&`-separated piece of a query contributes. */
  datatype PieceResult = Skip | Trap | Pair(key: string, value: string)

  /**
   * A piece without `=` is skipped; otherwise its first two `=`-parts are
   * decoded as key and value. A decoding failure is the force-unwrap trap.
   */
  function ReadPiece(piece: string): PieceResult {
    var kv := Split(piece, '=');
    if |kv| < 2 then Skip
    else match (DecodeURLFormat(kv[0]), DecodeURLFormat(kv[1]))
      case (Some(k), Some(v)) => Pair(k, v)
      case _ => Trap
  }

  /** The key/value pairs of the pieces, in order; None when a piece traps. */
  function ReadPieces(pieces: seq<string>): Option<seq<(string, string)>> {
    if pieces == [] then Some([])
    else match ReadPieces(pieces[..|pieces| - 1])
      case None => None
      case Some(pairs) =>
        match ReadPiece(pieces[|pieces| - 1])
        case Skip => Some(pairs)
        case Trap => None
        case Pair(k, v) => Some(pairs + [(k, v)])
  }

  /** The dictionary built from pairs: each key's values appended in order. */
  function Group(pairs: seq<(string, string)>): map<string, seq<string>> {
    if pairs == [] then map[]
    else
      var g := Group(pairs[..|pairs| - 1]);
      var (k, v) := pairs[|pairs| - 1];
      g[k := (if k in g then g[k] else []) + [v]]
  }

  /** The values paired with `key`, in order of appearance. */
  function ValuesFor(pairs: seq<(string, string)>, key: string): seq<string> {
    if pairs == [] then []
    else (if pairs[0].0 == key then [pairs[0].1] else []) + ValuesFor(pairs[1..], key)
  }

  /**
   * NSURL.queryDictionary over the URL's query component (None when the URL
   * has none). The result is None when decoding a key or value traps.
   */
  method QueryDictionary(query: Option<string>) returns (r: Option<map<string, seq<string>>>)
    ensures query.None? ==> r == Some(map[])
    ensures query.Some? ==> match ReadPieces(Split(query.value, '&'))
                             case None => r.None?
                             case Some(pairs) => r == Some(Group(pairs))
  {
    if query.None? {
      return Some(map[]);
    }
    var pieces := Split(query.value, '&');
    var queryDict: map<string, seq<string>> := map[];
    ghost var pairs: seq<(string, string)> := [];
    var i := 0;
    while i < |pieces|
      invariant 0 <= i <= |pieces|
      invariant ReadPieces(pieces[..i]) == Some(pairs)
      invariant queryDict == Group(pairs)
    {
      ReadPiecesExtend(pieces, i);
      var keyValuePair := Split(pieces[i], '=');
      if |keyValuePair| < 2 {
        i := i + 1;
        continue;
      }
      var key := DecodeURLFormat(keyValuePair[0]);
      var value := DecodeURLFormat(keyValuePair[1]);
      if key.None? || value.None? {
        TrapPersists(pieces, i + 1);
        return None;
      }
      if key.value !in queryDict {
        queryDict := queryDict[key.value := []];
      }
      queryDict := queryDict[key.value := queryDict[key.value] + [value.value]];
      GroupExtend(pairs, key.value, value.value);
      pairs := pairs + [(key.value, value.value)];
      i := i + 1;
    }
    assert pieces[..i] == pieces;
    return Some(queryDict);
  }

  /** ReadPieces over one more piece. */
  lemma ReadPiecesExtend(pieces: seq<string>, i: nat)
    requires i < |pieces|
    ensures ReadPieces(pieces[..i + 1]) ==
      match ReadPieces(pieces[..i])
      case None => None
      case Some(pairs) =>
        match ReadPiece(pieces[i])
        case Skip => Some(pairs)
        case Trap => None
        case Pair(k, v) => Some(pairs + [(k, v)])
    ensures i + 1 == |pieces| ==> pieces[..i + 1] == pieces
  {
    assert pieces[..i + 1][..i] == pieces[..i];
  }

  /** Group over one more pair. */
  lemma GroupExtend(pairs: seq<(string, string)>, k: string, v: string)
    ensures Group(pairs + [(k, v)]) == Group(pairs)[k := (if k in Group(pairs) then Group(pairs)[k] else []) + [v]]
  {
    assert (pairs + [(k, v)])[..|pairs|] == pairs;
  }

  /** Once a piece traps, every longer prefix traps. */
  lemma {:induction false} TrapPersists(pieces: seq<string>, i: nat)
    requires i <= |pieces| && ReadPieces(pieces[..i]) == None
    ensures ReadPieces(pieces) == None
    decreases |pieces| - i
  {
    if i < |pieces| {
      assert pieces[..i + 1][..i] == pieces[..i];
      TrapPersists(pieces, i + 1);
    } else {
      assert pieces[..i] == pieces;
    }
  }

  lemma {:induction false} ValuesForAppend(pairs: seq<(string, string)>, p: (string, string), key: string)
    ensures ValuesFor(pairs + [p], key) == ValuesFor(pairs, key) + (if p.0 == key then [p.1] else [])
  {
    if pairs != [] {
      assert (pairs + [p])[1..] == pairs[1..] + [p];
      ValuesForAppend(pairs[1..], p, key);
    }
  }

  /**
   * The dictionary holds exactly the keys that occur, each with its values in
   * order of appearance; no key has an empty list.
   */
  lemma {:induction false} GroupedValues(pairs: seq<(string, string)>, key: string)
    ensures key in Group(pairs) <==> ValuesFor(pairs, key) != []
    ensures key in Group(pairs) ==> Group(pairs)[key] == ValuesFor(pairs, key)
  {
    if pairs != [] {
      var init := pairs[..|pairs| - 1];
      GroupedValues(init, key);
      ValuesForAppend(init, pairs[|pairs| - 1], key);
      assert init + [pairs[|pairs| - 1]] == pairs;
    }
  }

  lemma {:induction false} ValuesForNonEmpty(pairs: seq<(string, string)>, i: nat)
    requires i < |pairs|
    ensures ValuesFor(pairs, pairs[i].0) != []
  {
    if i > 0 {
      ValuesForNonEmpty(pairs[1..], i - 1);
    }
  }

  /** Every key that occurs in the pairs is in the dictionary, with a non-empty list. */
  lemma EveryKeyPresent(pairs: seq<(string, string)>, i: nat)
    requires i < |pairs|
    ensures pairs[i].0 in Group(pairs) && |Group(pairs)[pairs[i].0]| >= 1
  {
    ValuesForNonEmpty(pairs, i);
    GroupedValues(pairs, pairs[i].0);
  }

  /** The number of pieces that hold an `=`. */
  function PairedPieces(pieces: seq<string>): nat {
    if pieces == [] then 0
    else PairedPieces(pieces[..|pieces| - 1]) + (if '=' in pieces[|pieces| - 1] then 1 else 0)
  }

  /** Without a trap, there is one pair per piece that holds an `=`. */
  lemma {:induction false} OnePairPerPairedPiece(pieces: seq<string>)
    requires ReadPieces(pieces).Some?
    ensures |ReadPieces(pieces).value| == PairedPieces(pieces)
  {
    if pieces != [] {
      OnePairPerPairedPiece(pieces[..|pieces| - 1]);
      SplitHasTwoParts(pieces[|pieces| - 1], '=');
    }
  }

  /**
   * A piece `k=v=w` with `=`-free k and v yields the decoded k and v; the
   * text after the second `=` is dropped.
   */
  lemma ReadPieceDropsAfterSecondEquals(k: string, v: string, w: string)
    requires '=' !in k && '=' !in v
    ensures ReadPiece(k + "=" + v + "=" + w) == ReadPiece(k + "=" + v)
  {
    SplitAfterPart(k, v + "=" + w, '=');
    SplitAfterPart(v, w, '=');
    assert k + "=" + v + "=" + w == k + ['='] + (v + ['='] + w);
    SplitAfterPart(k, v, '=');
    SplitWithoutSeparator(v, '=');
    assert k + "=" + v == k + ['='] + v;
  }

  /** A piece without `=` contributes nothing. */
  lemma ReadPieceSkipsWithoutEquals(piece: string)
    ensures ReadPiece(piece).Skip? <==> '=' !in piece
  {
    SplitHasTwoParts(piece, '=');
  }

  /** The total number of values in a dictionary. */
  ghost function TotalValues(m: map<string, seq<string>>): nat {
    SumLengths(m, m.Keys)
  }

  ghost function SumLengths(m: map<string, seq<string>>, keys: set<string>): nat
    requires keys <= m.Keys
    decreases keys
  {
    if keys == {} then 0
    else
      var k :| k in keys;
      |m[k]| + SumLengths(m, keys - {k})
  }

  lemma {:induction false} SumLengthsRemove(m: map<string, seq<string>>, keys: set<string>, k: string)
    requires keys <= m.Keys && k in keys
    ensures SumLengths(m, keys) == |m[k]| + SumLengths(m, keys - {k})
    decreases keys
  {
    var j :| j in keys && SumLengths(m, keys) == |m[j]| + SumLengths(m, keys - {j});
    if j != k {
      SumLengthsRemove(m, keys - {j}, k);
      SumLengthsRemove(m, keys - {k}, j);
      assert keys - {j} - {k} == keys - {k} - {j};
    }
  }

  lemma {:induction false} SumLengthsAgree(m1: map<string, seq<string>>, m2: map<string, seq<string>>, keys: set<string>)
    requires keys <= m1.Keys && keys <= m2.Keys
    requires forall k :: k in keys ==> m1[k] == m2[k]
    ensures SumLengths(m1, keys) == SumLengths(m2, keys)
    decreases keys
  {
    if keys != {} {
      var k :| k in keys;
      SumLengthsRemove(m1, keys, k);
      SumLengthsRemove(m2, keys, k);
      SumLengthsAgree(m1, m2, keys - {k});
    }
  }

  /** The dictionary holds as many values as there are pairs. */
  lemma {:induction false} GroupTotal(pairs: seq<(string, string)>)
    ensures TotalValues(Group(pairs)) == |pairs|
  {
    if pairs != [] {
      var init := pairs[..|pairs| - 1];
      GroupTotal(init);
      var g := Group(init);
      var (k, v) := pairs[|pairs| - 1];
      var g2 := Group(pairs);
      assert g2 == g[k := (if k in g then g[k] else []) + [v]];
      SumLengthsRemove(g2, g2.Keys, k);
      SumLengthsAgree(g2, g, g.Keys - {k});
      if k in g {
        assert g2.Keys == g.Keys;
        SumLengthsRemove(g, g.Keys, k);
      } else {
        assert g2.Keys - {k} == g.Keys - {k} == g.Keys;
      }
    }
  }
}

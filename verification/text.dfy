/** Framework text services the library leans on, written out: `Int32.Parse`
    and friends, invariant-culture decimal and hexadecimal formatting,
    `Uri.EscapeDataString` / `Uri.UnescapeDataString` (percent-encoding over
    the unreserved set of section 2.3 of RFC 3986), UTF-8 encoding, UTF-16
    lengths and ASCII lower-casing. */
module Text {

  import opened Wrappers
  import opened Failures
  import opened Helpers

  const MinInt32: int := -0x8000_0000
  const MaxInt32: int := 0x7FFF_FFFF
  const MaxUInt32: int := 0xFFFF_FFFF

  predicate IsInt32(i: int) {
    MinInt32 <= i <= MaxInt32
  }

  predicate IsAsciiChar(c: char) {
    c as int < 0x80
  }

  predicate IsAscii(s: string) {
    forall i :: 0 <= i < |s| ==> IsAsciiChar(s[i])
  }

  /** No character of `s` is in `cs`. */
  predicate Excludes(s: string, cs: set<char>) {
    forall i :: 0 <= i < |s| ==> s[i] !in cs
  }

  /** A token of a space-separated command line: non-empty and space-free. */
  predicate IsToken(s: string) {
    |s| > 0 && Excludes(s, {' '})
  }

  // ---------------------------------------------------------------- decimal

  predicate IsDigit(c: char) {
    '0' <= c <= '9'
  }

  predicate AllDigits(s: string) {
    forall i :: 0 <= i < |s| ==> IsDigit(s[i])
  }

  /** The value of a string of decimal digits, most significant first. */
  function DigitsValue(s: string): (n: nat)
    requires AllDigits(s)
    ensures |s| == 0 ==> n == 0
    decreases |s|
  {
    if |s| == 0 then 0
    else DigitsValue(s[..|s| - 1]) * 10 + (s[|s| - 1] as int - '0' as int)
  }

  /** The white space `NumberStyles.Integer` lets a number carry on
      either side: tab, line feed, vertical tab, form feed, carriage
      return and space. */
  predicate IsNumberWhite(c: char) {
    c == ' ' || '\t' <= c <= '\r'
  }

  predicate AllNumberWhite(s: string) {
    forall i :: 0 <= i < |s| ==> IsNumberWhite(s[i])
  }

  /** `s` without its leading white space. */
  function TrimLeadingWhite(s: string): (t: string)
    ensures |t| <= |s|
    ensures |t| > 0 ==> !IsNumberWhite(t[0])
    ensures AllNumberWhite(s) ==> t == []
    decreases |s|
  {
    if |s| > 0 && IsNumberWhite(s[0]) then TrimLeadingWhite(s[1..]) else s
  }

  /** `s` without its trailing white space. */
  function TrimTrailingWhite(s: string): (t: string)
    ensures |t| <= |s|
    ensures |t| > 0 ==> !IsNumberWhite(t[|t| - 1])
    ensures |s| > 0 && !IsNumberWhite(s[0]) ==> |t| > 0 && t[0] == s[0]
    decreases |s|
  {
    if |s| > 0 && IsNumberWhite(s[|s| - 1]) then TrimTrailingWhite(s[..|s| - 1]) else s
  }

  /** Trimming removes white space only: what is left stands at the end
      of the string and everything before it is white. */
  lemma {:induction false} TrimLeadingWhiteIsSuffix(s: string)
    ensures var t := TrimLeadingWhite(s);
      t == s[|s| - |t|..] && AllNumberWhite(s[..|s| - |t|])
    decreases |s|
  {
    if |s| > 0 && IsNumberWhite(s[0]) {
      TrimLeadingWhiteIsSuffix(s[1..]);
      var t := TrimLeadingWhite(s[1..]);
      assert s[..|s| - |t|] == [s[0]] + s[1..][..|s| - 1 - |t|];
    }
  }

  /** Likewise at the other end. */
  lemma {:induction false} TrimTrailingWhiteIsPrefix(s: string)
    ensures var t := TrimTrailingWhite(s);
      t == s[..|t|] && AllNumberWhite(s[|t|..])
    decreases |s|
  {
    if |s| > 0 && IsNumberWhite(s[|s| - 1]) {
      TrimTrailingWhiteIsPrefix(s[..|s| - 1]);
      var t := TrimTrailingWhite(s[..|s| - 1]);
      assert s[|t|..] == s[..|s| - 1][|t|..] + [s[|s| - 1]];
    }
  }

  /** An optional sign followed by at least one decimal digit, in [lo, hi];
      anything else is a `FormatException`, an out-of-range value an
      `OverflowException`. */
  function ParseSigned(s: string, lo: int, hi: int): (r: Result<int, Failure>)
    ensures r.Ok? ==> lo <= r.value <= hi
    ensures r.Err? ==> r.error == Format || r.error == Overflow
    ensures |s| == 0 ==> r == Err(Format)
  {
    var negative := |s| > 0 && s[0] == '-';
    var digits := if |s| > 0 && (s[0] == '-' || s[0] == '+') then s[1..] else s;
    if |digits| == 0 || !AllDigits(digits) then Err(Format)
    else
      var magnitude: int := DigitsValue(digits);
      var v := if negative then 0 - magnitude else magnitude;
      if lo <= v <= hi then Ok(v) else Err(Overflow)
  }

  /** `Int32.Parse` / `UInt32.Parse` over the range [lo, hi], under
      `NumberStyles.Integer`: white space may surround the signed number.
      Text that neither starts nor ends with white space is parsed as it
      stands. */
  function ParseInteger(s: string, lo: int, hi: int): (r: Result<int, Failure>)
    ensures r.Ok? ==> lo <= r.value <= hi
    ensures r.Err? ==> r.error == Format || r.error == Overflow
    ensures AllNumberWhite(s) ==> r == Err(Format)
  {
    if |s| > 0 && !IsNumberWhite(s[0]) && !IsNumberWhite(s[|s| - 1]) then ParseSigned(s, lo, hi)
    else ParseSigned(TrimTrailingWhite(TrimLeadingWhite(s)), lo, hi)
  }

  /** Whatever the text, the signed number is what remains once the white
      space at both ends is trimmed. */
  lemma ParseIntegerTrims(s: string, lo: int, hi: int)
    ensures ParseInteger(s, lo, hi) == ParseSigned(TrimTrailingWhite(TrimLeadingWhite(s)), lo, hi)
  {
  }

  /** Text without white space at either end is parsed as it stands. */
  lemma ParseIntegerUntrimmed(s: string, lo: int, hi: int)
    requires |s| > 0 && !IsNumberWhite(s[0]) && !IsNumberWhite(s[|s| - 1])
    ensures ParseInteger(s, lo, hi) == ParseSigned(s, lo, hi)
  {
  }

  /** White space before a string: trimming it gets back the trim of the
      string alone. */
  lemma {:induction false} TrimLeadingWhitePrefix(w: string, s: string)
    requires AllNumberWhite(w)
    ensures TrimLeadingWhite(w + s) == TrimLeadingWhite(s)
    decreases |w|
  {
    if |w| > 0 {
      assert (w + s)[1..] == w[1..] + s;
      TrimLeadingWhitePrefix(w[1..], s);
    } else {
      assert w + s == s;
    }
  }

  /** Likewise for white space after a string. */
  lemma {:induction false} TrimTrailingWhiteSuffix(s: string, w: string)
    requires AllNumberWhite(w)
    ensures TrimTrailingWhite(s + w) == TrimTrailingWhite(s)
    decreases |w|
  {
    if |w| > 0 {
      assert (s + w)[..|s + w| - 1] == s + w[..|w| - 1];
      TrimTrailingWhiteSuffix(s, w[..|w| - 1]);
    } else {
      assert s + w == s;
    }
  }

  /** White space around a number does not change what it parses to. */
  lemma ParseIntegerIgnoresWhite(w1: string, s: string, w2: string, lo: int, hi: int)
    requires AllNumberWhite(w1) && AllNumberWhite(w2)
    requires |s| > 0 && !IsNumberWhite(s[0]) && !IsNumberWhite(s[|s| - 1])
    ensures ParseInteger(w1 + s + w2, lo, hi) == ParseInteger(s, lo, hi)
  {
    TrimLeadingWhitePrefix(w1, s + w2);
    assert w1 + s + w2 == w1 + (s + w2);
    assert TrimLeadingWhite(s + w2) == s + w2 by {
      assert (s + w2)[0] == s[0];
    }
    TrimTrailingWhiteSuffix(s, w2);
  }

  /** A string starting with neither white space, a sign nor a digit is
      not a number. */
  lemma ParseIntegerRejectsLetter(s: string, lo: int, hi: int)
    requires |s| > 0 && !IsNumberWhite(s[0]) && !IsDigit(s[0]) && s[0] != '-' && s[0] != '+'
    ensures ParseInteger(s, lo, hi) == Err(Format)
  {
    var t := TrimTrailingWhite(TrimLeadingWhite(s));
    assert TrimLeadingWhite(s) == s;
    assert |t| > 0 && t[0] == s[0];
    assert !AllDigits(t);
  }

  function ParseInt32(s: string): (r: Result<int, Failure>)
    ensures r.Ok? ==> IsInt32(r.value)
  {
    ParseInteger(s, MinInt32, MaxInt32)
  }

  function ParseUInt32(s: string): (r: Result<int, Failure>)
    ensures r.Ok? ==> 0 <= r.value <= MaxUInt32
  {
    ParseInteger(s, 0, MaxUInt32)
  }

  function DigitChar(d: nat): (c: char)
    requires d < 10
    ensures IsDigit(c)
  {
    ('0' as int + d) as char
  }

  /** Canonical decimal text of a natural number: no leading zero. */
  function NatToString(n: nat): (s: string)
    ensures |s| >= 1 && AllDigits(s)
    ensures |s| > 1 ==> s[0] != '0'
    decreases n
  {
    if n < 10 then [DigitChar(n)] else NatToString(n / 10) + [DigitChar(n % 10)]
  }

  /** `int.ToString()`: a minus sign for negative values. */
  function IntToString(i: int): (s: string)
    ensures IsToken(s)
    ensures s[0] == '-' <==> i < 0
  {
    if i < 0 then "-" + NatToString(-i) else NatToString(i)
  }

  lemma {:induction false} DigitsValueOfNatToString(n: nat)
    ensures DigitsValue(NatToString(n)) == n
    decreases n
  {
    var s := NatToString(n);
    if n >= 10 {
      DigitsValueOfNatToString(n / 10);
      assert s[..|s| - 1] == NatToString(n / 10);
    }
  }

  /** Formatting then parsing an in-range integer gives it back. */
  lemma ParseIntToString(i: int, lo: int, hi: int)
    requires lo <= i <= hi
    ensures ParseInteger(IntToString(i), lo, hi) == Ok(i)
  {
    var s := IntToString(i);
    assert IsDigit(s[|s| - 1]) by {
      if i < 0 {
        assert s[|s| - 1] == NatToString(-i)[|NatToString(-i)| - 1];
      }
    }
    ParseIntegerUntrimmed(s, lo, hi);
    if i < 0 {
      ParseNegative(-i, lo, hi);
    } else {
      ParseNatural(i, lo, hi);
    }
  }

  lemma ParseNegative(n: nat, lo: int, hi: int)
    requires n > 0 && lo <= -(n as int) <= hi
    ensures ParseInteger("-" + NatToString(n), lo, hi) == Ok(-(n as int))
  {
    var s := "-" + NatToString(n);
    DigitsValueOfNatToString(n);
    assert s[1..] == NatToString(n);
    assert IsDigit(s[|s| - 1]);
    ParseIntegerUntrimmed(s, lo, hi);
  }

  lemma ParseNatural(n: nat, lo: int, hi: int)
    requires lo <= n <= hi
    ensures ParseInteger(NatToString(n), lo, hi) == Ok(n)
  {
    var s := NatToString(n);
    DigitsValueOfNatToString(n);
    assert IsDigit(s[0]) && IsDigit(s[|s| - 1]);
    ParseIntegerUntrimmed(s, lo, hi);
  }

  /** Decimal text contains none of the protocol's delimiter characters. */
  lemma IntToStringExcludes(i: int, cs: set<char>)
    requires forall c :: c in cs ==> !IsDigit(c) && c != '-'
    ensures Excludes(IntToString(i), cs)
  {
    var s := IntToString(i);
    forall k | 0 <= k < |s|
      ensures s[k] !in cs
    {
      if i < 0 && k > 0 {
        assert s[k] == NatToString(-i)[k - 1];
      }
    }
  }

  // ------------------------------------------------------------ hexadecimal

  function HexDigit(n: nat, upper: bool): (c: char)
    requires n < 16
  {
    if n < 10 then DigitChar(n)
    else if upper then ('A' as int + n - 10) as char
    else ('a' as int + n - 10) as char
  }

  /** The value of one hexadecimal digit of either case. */
  function HexValue(c: char): (r: Option<nat>)
    ensures r.Some? ==> r.value < 16
  {
    if '0' <= c <= '9' then Some(c as int - '0' as int)
    else if 'a' <= c <= 'f' then Some(c as int - 'a' as int + 10)
    else if 'A' <= c <= 'F' then Some(c as int - 'A' as int + 10)
    else None
  }

  lemma HexValueOfDigit(n: nat, upper: bool)
    requires n < 16
    ensures HexValue(HexDigit(n, upper)) == Some(n)
  {
  }

  predicate IsLowerHex(c: char) {
    '0' <= c <= '9' || 'a' <= c <= 'f'
  }

  /** Two hex digits of a byte, high nibble first (`ToString("x2")` or
      `ToString("X2")`). */
  function ByteToHex(b: byte, upper: bool): (s: string)
    ensures |s| == 2
    ensures HexValue(s[0]) == Some(b / 16) && HexValue(s[1]) == Some(b % 16)
    ensures !upper ==> IsLowerHex(s[0]) && IsLowerHex(s[1])
  {
    [HexDigit(b / 16, upper), HexDigit(b % 16, upper)]
  }

  /** `UInt64.Parse(s, NumberStyles.HexNumber)`: hex digits only. */
  function ParseHex(s: string): (r: Result<nat, Failure>)
    ensures |s| == 0 ==> r == Err(Format)
    decreases |s|
  {
    if |s| == 0 then Err(Format)
    else
      match HexValue(s[|s| - 1])
      case None => Err(Format)
      case Some(d) =>
        if |s| == 1 then Ok(d)
        else
          match ParseHex(s[..|s| - 1])
          case Err(e) => Err(e)
          case Ok(hi) => Ok(hi * 16 + d)
  }

  // ------------------------------------------------------------- UTF-16

  /** How many UTF-16 code units encode one scalar value: a surrogate pair
      above the Basic Multilingual Plane, one unit below it. */
  function Utf16Units(c: char): (n: nat)
    ensures n == 1 <==> c as int < 0x1_0000
    ensures n == 1 || n == 2
  {
    if c as int < 0x1_0000 then 1 else 2
  }

  /** `string.Length`: the number of UTF-16 code units of the text. */
  function Utf16Length(s: string): (n: nat)
    ensures |s| <= n <= 2 * |s|
    decreases |s|
  {
    if |s| == 0 then 0 else Utf16Units(s[0]) + Utf16Length(s[1..])
  }

  /** Text within the Basic Multilingual Plane has one unit per character. */
  lemma {:induction false} Utf16LengthBmp(s: string)
    requires forall i :: 0 <= i < |s| ==> s[i] as int < 0x1_0000
    ensures Utf16Length(s) == |s|
    decreases |s|
  {
    if |s| > 0 {
      Utf16LengthBmp(s[1..]);
    }
  }

  /** A character repeated `n` times: `n` times its unit count. */
  lemma {:induction false} Utf16LengthRepeat(c: char, n: nat)
    ensures Utf16Length(seq(n, _ => c)) == n * Utf16Units(c)
    decreases n
  {
    var s := seq(n, _ => c);
    if n > 0 {
      assert s[1..] == seq(n - 1, _ => c);
      Utf16LengthRepeat(c, n - 1);
    }
  }

  // -------------------------------------------------------------- UTF-8

  /** The UTF-8 encoding of one Unicode scalar value. */
  function Utf8EncodeChar(c: char): (bs: seq<byte>)
    ensures 1 <= |bs| <= 4
    ensures |bs| == 1 <==> IsAsciiChar(c)
  {
    var n := c as int;
    if n < 0x80 then [n]
    else if n < 0x800 then [0xC0 + n / 64, 0x80 + n % 64]
    else if n < 0x1_0000 then [0xE0 + n / 4096, 0x80 + (n / 64) % 64, 0x80 + n % 64]
    else [0xF0 + n / 262144, 0x80 + (n / 4096) % 64, 0x80 + (n / 64) % 64, 0x80 + n % 64]
  }

  /** `Encoding.UTF8.GetBytes`. */
  function Utf8Encode(s: string): (bs: seq<byte>)
    ensures |bs| >= |s|
    decreases |s|
  {
    if |s| == 0 then [] else Utf8EncodeChar(s[0]) + Utf8Encode(s[1..])
  }

  /** ASCII text encodes to one byte per character, the byte being the code. */
  lemma {:induction false} Utf8EncodeAscii(s: string)
    requires IsAscii(s)
    ensures |Utf8Encode(s)| == |s|
    ensures forall i :: 0 <= i < |s| ==> Utf8Encode(s)[i] == s[i] as int
    decreases |s|
  {
    if |s| > 0 {
      Utf8EncodeAscii(s[1..]);
    }
  }

  /** Bytes read back as text, one character per byte. Exact for ASCII;
      multi-byte sequences are not decoded. */
  function BytesToText(bs: seq<byte>): (s: string)
    ensures |s| == |bs|
    ensures forall i :: 0 <= i < |bs| ==> s[i] as int == bs[i]
  {
    seq(|bs|, i requires 0 <= i < |bs| => bs[i] as char)
  }

  lemma DecodeEncodeAscii(s: string)
    requires IsAscii(s)
    ensures BytesToText(Utf8Encode(s)) == s
  {
    Utf8EncodeAscii(s);
  }

  lemma {:induction false} Utf8EncodeAppend(a: string, b: string)
    ensures Utf8Encode(a + b) == Utf8Encode(a) + Utf8Encode(b)
    decreases |a|
  {
    if |a| > 0 {
      assert (a + b)[1..] == a[1..] + b;
      Utf8EncodeAppend(a[1..], b);
    } else {
      assert a + b == b;
    }
  }

  // --------------------------------------------------------- percent-encoding

  /** The unreserved characters of section 2.3 of RFC 3986. */
  predicate IsUnreserved(c: char) {
    'A' <= c <= 'Z' || 'a' <= c <= 'z' || '0' <= c <= '9' || c == '-' || c == '_' || c == '.' || c == '~'
  }

  function PercentEncodeBytes(bs: seq<byte>): (s: string)
    ensures |s| == 3 * |bs|
    decreases |bs|
  {
    if |bs| == 0 then [] else ['%'] + ByteToHex(bs[0], true) + PercentEncodeBytes(bs[1..])
  }

  /** One character of `Uri.EscapeDataString`: unreserved characters stand
      for themselves, every other one becomes the %HH escapes of its UTF-8
      bytes. */
  function EscapeChar(c: char): (s: string)
    ensures |s| >= 1
  {
    if IsUnreserved(c) then [c] else PercentEncodeBytes(Utf8EncodeChar(c))
  }

  /** `Uri.EscapeDataString`. */
  function Escape(s: string): (e: string)
    ensures |e| >= |s|
    decreases |s|
  {
    if |s| == 0 then [] else EscapeChar(s[0]) + Escape(s[1..])
  }

  /** `Uri.UnescapeDataString`: a %HH escape of an ASCII code is decoded,
      anything else is copied through. */
  function Unescape(s: string): (u: string)
    ensures |u| <= |s|
    decreases |s|
  {
    if |s| == 0 then []
    else if |s| >= 3 && s[0] == '%' && HexValue(s[1]).Some? && HexValue(s[2]).Some?
            && HexValue(s[1]).value * 16 + HexValue(s[2]).value < 0x80 then
      [(HexValue(s[1]).value * 16 + HexValue(s[2]).value) as char] + Unescape(s[3..])
    else
      [s[0]] + Unescape(s[1..])
  }

  lemma UnescapeEscapeChar(c: char, rest: string)
    requires IsAsciiChar(c)
    ensures Unescape(EscapeChar(c) + rest) == [c] + Unescape(rest)
  {
    var e := EscapeChar(c) + rest;
    if IsUnreserved(c) {
      assert e[1..] == rest;
    } else {
      var b := c as int;
      assert Utf8EncodeChar(c) == [b];
      assert EscapeChar(c) == ['%'] + ByteToHex(b, true);
      assert e[3..] == rest;
    }
  }

  /** Percent-decoding undoes percent-encoding on ASCII text. */
  lemma {:induction false} UnescapeEscape(s: string)
    requires IsAscii(s)
    ensures Unescape(Escape(s)) == s
    decreases |s|
  {
    if |s| > 0 {
      UnescapeEscape(s[1..]);
      UnescapeEscapeChar(s[0], Escape(s[1..]));
    }
  }

  /** The characters an escaped string can contain. */
  predicate IsEscapeOutputChar(c: char) {
    IsUnreserved(c) || c == '%' || ('0' <= c <= '9') || ('A' <= c <= 'F')
  }

  lemma {:induction false} PercentEncodeAlphabet(bs: seq<byte>)
    ensures forall i :: 0 <= i < |PercentEncodeBytes(bs)| ==> IsEscapeOutputChar(PercentEncodeBytes(bs)[i])
    decreases |bs|
  {
    if |bs| > 0 {
      PercentEncodeAlphabet(bs[1..]);
      var p := PercentEncodeBytes(bs);
      assert p == ['%'] + ByteToHex(bs[0], true) + PercentEncodeBytes(bs[1..]);
    }
  }

  /** Escaped text is made of unreserved characters and '%' only. */
  lemma {:induction false} EscapeAlphabet(s: string)
    ensures forall i :: 0 <= i < |Escape(s)| ==> IsEscapeOutputChar(Escape(s)[i])
    decreases |s|
  {
    if |s| > 0 {
      EscapeAlphabet(s[1..]);
      if !IsUnreserved(s[0]) {
        PercentEncodeAlphabet(Utf8EncodeChar(s[0]));
      }
      var e := Escape(s);
      assert e == EscapeChar(s[0]) + Escape(s[1..]);
    }
  }

  /** The delimiters used by the command and message formats. */
  const Delimiters: set<char> := {' ', '=', ',', ';', ':', '\r', '\n'}

  lemma OutputCharIsNotDelimiter(c: char)
    requires IsEscapeOutputChar(c)
    ensures c !in Delimiters
  {
  }

  /** So an escaped value never contains a protocol delimiter. */
  lemma EscapeIsDelimiterFree(s: string)
    ensures Excludes(Escape(s), Delimiters)
    ensures |s| > 0 ==> IsToken(Escape(s))
  {
    EscapeAlphabet(s);
    var e := Escape(s);
    forall i | 0 <= i < |e|
      ensures e[i] !in Delimiters
    {
      OutputCharIsNotDelimiter(e[i]);
    }
  }

  // ------------------------------------------------------------ lower case

  function ToLowerChar(c: char): (l: char)
    ensures !('A' <= l <= 'Z')
  {
    if 'A' <= c <= 'Z' then (c as int + 32) as char else c
  }

  /** `String.ToLower` on ASCII letters; other characters are unchanged. */
  function ToLower(s: string): (l: string)
    ensures |l| == |s|
    ensures forall i :: 0 <= i < |s| ==> l[i] == ToLowerChar(s[i])
  {
    seq(|s|, i requires 0 <= i < |s| => ToLowerChar(s[i]))
  }

  /** Strings that differ only in letter case have the same lower form. */
  predicate EqualIgnoringCase(a: string, b: string) {
    |a| == |b| && forall i :: 0 <= i < |a| ==> ToLowerChar(a[i]) == ToLowerChar(b[i])
  }

  lemma ToLowerCaseInsensitive(a: string, b: string)
    ensures ToLower(a) == ToLower(b) <==> EqualIgnoringCase(a, b)
  {
    if EqualIgnoringCase(a, b) {
      assert forall i :: 0 <= i < |a| ==> ToLower(a)[i] == ToLower(b)[i];
    }
    if ToLower(a) == ToLower(b) {
      assert forall i :: 0 <= i < |a| ==> ToLowerChar(a[i]) == ToLower(a)[i];
    }
  }

  lemma ToLowerIdempotent(s: string)
    ensures ToLower(ToLower(s)) == ToLower(s)
  {
  }
}

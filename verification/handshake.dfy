/** The challenge-response transform of HandshakeUtility.cs (the `QRY`
    answer to a `CHL` challenge). The MD5 digest of the challenge and the
    product key is an input: the hash itself is not modelled. Text reaches
    bytes through `Encoding.Default`, taken here as UTF-8; that agrees
    with the ANSI code page of .NET Framework for ASCII text only. Every `ulong`
    step wraps modulo 2^64 where it is written; the lemmas at the end show
    that, for ASCII challenge text, no wrap ever happens except in the `low`
    accumulator. */
module Handshake {

  import opened Wrappers
  import opened Failures
  import opened Helpers
  import opened Text

  const TwoTo31: nat := 0x8000_0000
  const TwoTo32: nat := 0x1_0000_0000
  const TwoTo64: nat := 0x1_0000_0000_0000_0000

  /** The modulus of the key recurrence, 2^31 - 1. */
  const Modulus: nat := 0x7FFF_FFFF
  const Multiplier: nat := 0x0E79_A9C1

  predicate IsULong(x: int) {
    0 <= x < TwoTo64
  }

  function Pow(b: nat, e: nat): (p: nat)
    ensures b > 0 ==> p > 0
  {
    if e == 0 then 1 else b * Pow(b, e - 1)
  }

  // ------------------------------------------------------------- numbers

  /** The big-endian value of a byte sequence. */
  function BigEndian(bs: seq<byte>): (n: nat)
    ensures n < Pow(256, |bs|)
  {
    if |bs| == 0 then 0 else BigEndian(bs[..|bs| - 1]) * 256 + bs[|bs| - 1]
  }

  /** The little-endian value of a byte sequence. */
  function LittleEndian(bs: seq<byte>): (n: nat)
    ensures n < Pow(256, |bs|)
  {
    if |bs| == 0 then 0 else bs[0] + 256 * LittleEndian(bs[1..])
  }

  function Reverse<T>(s: seq<T>): (r: seq<T>)
    ensures |r| == |s|
    ensures forall i :: 0 <= i < |s| ==> r[i] == s[|s| - 1 - i]
  {
    if |s| == 0 then [] else Reverse(s[1..]) + [s[0]]
  }

  /** The `n` big-endian bytes of `x`. */
  function BytesOf(x: nat, n: nat): (bs: seq<byte>)
    requires x < Pow(256, n)
    ensures |bs| == n && BigEndian(bs) == x
  {
    if n == 0 then [] else
      var init := BytesOf(x / 256, n - 1);
      var r := init + [x % 256];
      assert r[..|r| - 1] == init;
      r
  }

  /** A 32-bit value with its four bytes in reverse order. */
  function ByteSwap32(x: nat): (y: nat)
    requires x < TwoTo32
    ensures y < TwoTo32
  {
    (x % 0x100) * 0x100_0000 + (x / 0x100 % 0x100) * 0x1_0000 + (x / 0x1_0000 % 0x100) * 0x100 + x / 0x100_0000
  }

  /** Reading the big-endian bytes of a 32-bit value little-endian swaps
      them. */
  lemma ByteSwapIsLittleEndian(x: nat)
    requires x < TwoTo32
    ensures Pow(256, 4) == TwoTo32 && LittleEndian(BytesOf(x, 4)) == ByteSwap32(x)
  {
    BytesOfFour(x);
    LittleEndianFour(x / 0x100_0000, x / 0x1_0000 % 0x100, x / 0x100 % 0x100, x % 0x100);
  }

  lemma BytesOfFour(x: nat)
    requires x < TwoTo32
    ensures Pow(256, 4) == TwoTo32
    ensures BytesOf(x, 4) == [x / 0x100_0000, x / 0x1_0000 % 0x100, x / 0x100 % 0x100, x % 0x100]
  {
    Pow256Four();
    assert BytesOf(x, 4) == BytesOf(x / 0x100, 3) + [x % 0x100];
    assert BytesOf(x / 0x100, 3) == BytesOf(x / 0x1_0000, 2) + [x / 0x100 % 0x100];
    assert BytesOf(x / 0x1_0000, 2) == BytesOf(x / 0x100_0000, 1) + [x / 0x1_0000 % 0x100];
    assert BytesOf(x / 0x100_0000, 1) == [x / 0x100_0000];
  }

  lemma LittleEndianFour(a: byte, b: byte, c: byte, d: byte)
    ensures LittleEndian([a, b, c, d]) == a + 0x100 * b + 0x1_0000 * c + 0x100_0000 * d
  {
    var bs := [a, b, c, d];
    assert bs[1..] == [b, c, d] && bs[1..][1..] == [c, d] && bs[1..][1..][1..] == [d];
    assert [d][1..] == [];
    assert LittleEndian([d]) == d;
    assert LittleEndian([c, d]) == c + 0x100 * d;
    assert LittleEndian([b, c, d]) == b + 0x100 * c + 0x1_0000 * d;
  }

  /** `ulong ^ ulong`, bit by bit from the lowest. */
  function Xor(a: nat, b: nat): (c: nat)
    decreases a + b
  {
    if a == 0 && b == 0 then 0
    else (if a % 2 == b % 2 then 0 else 1) + 2 * Xor(a / 2, b / 2)
  }

  /** Exclusive or of two values of `n` bits has `n` bits. */
  lemma {:induction false} XorBound(a: nat, b: nat, n: nat)
    requires a < Pow(2, n) && b < Pow(2, n)
    ensures Xor(a, b) < Pow(2, n)
    decreases n
  {
    if n > 0 && !(a == 0 && b == 0) {
      XorBound(a / 2, b / 2, n - 1);
    }
  }

  /** Masking twice with the same key gives the value back. */
  lemma {:induction false} XorTwice(a: nat, k: nat)
    ensures Xor(Xor(a, k), k) == a
    decreases a + k
  {
    if !(a == 0 && k == 0) {
      XorTwice(a / 2, k / 2);
      var x := Xor(a, k);
      assert x % 2 == (if a % 2 == k % 2 then 0 else 1) && x / 2 == Xor(a / 2, k / 2);
    }
  }

  lemma PowTwo64()
    ensures Pow(2, 64) == TwoTo64
  {
    assert Pow(2, 8) == 256;
    assert Pow(2, 16) == 256 * 256 by { PowAdd(2, 8, 8); }
    assert Pow(2, 32) == 65536 * 65536 by { PowAdd(2, 16, 16); }
    PowAdd(2, 32, 32);
  }

  lemma {:induction false} PowAdd(b: nat, e: nat, f: nat)
    ensures Pow(b, e + f) == Pow(b, e) * Pow(b, f)
    decreases e
  {
    if e > 0 {
      PowAdd(b, e - 1, f);
      var x, y := Pow(b, e - 1), Pow(b, f);
      assert Pow(b, e + f) == b * (x * y);
      MulAssoc(b, x, y);
    }
  }

  lemma MulAssoc(a: int, b: int, c: int)
    ensures a * (b * c) == (a * b) * c
  {
  }

  // ------------------------------------------------------------- hex text

  predicate AllHex(s: string) {
    forall i :: 0 <= i < |s| ==> HexValue(s[i]).Some?
  }

  predicate AllLowerHex(s: string) {
    forall i :: 0 <= i < |s| ==> IsLowerHex(s[i])
  }

  /** The value of a string of hex digits, most significant first. */
  function HexNum(s: string): (n: nat)
    requires AllHex(s)
    ensures n < Pow(16, |s|)
  {
    if |s| == 0 then 0 else HexNum(s[..|s| - 1]) * 16 + HexValue(s[|s| - 1]).value
  }

  /** `To_Hex`: each byte as `Convert.ToString(b, 16)` left-padded with `0`
      to two characters, that is two lower-case digits, high nibble first. */
  function ToHex(bs: seq<byte>): (s: string)
    ensures |s| == 2 * |bs|
    ensures AllLowerHex(s) && AllHex(s)
  {
    if |bs| == 0 then "" else ToHex(bs[..|bs| - 1]) + ByteToHex(bs[|bs| - 1], false)
  }

  /** The two digits of byte `i` are the `i`-th pair. */
  lemma {:induction false} ToHexPairs(bs: seq<byte>)
    ensures forall i :: 0 <= i < |bs| ==> ToHex(bs)[2 * i..2 * i + 2] == ByteToHex(bs[i], false)
  {
    if |bs| > 0 {
      var init := bs[..|bs| - 1];
      ToHexPairs(init);
      var s := ToHex(bs);
      assert s == ToHex(init) + ByteToHex(bs[|bs| - 1], false);
      forall i | 0 <= i < |bs| ensures s[2 * i..2 * i + 2] == ByteToHex(bs[i], false) {
        if i < |init| {
          assert s[2 * i..2 * i + 2] == ToHex(init)[2 * i..2 * i + 2];
        }
      }
    }
  }

  lemma {:induction false} ToHexAppend(a: seq<byte>, b: seq<byte>)
    ensures ToHex(a + b) == ToHex(a) + ToHex(b)
    decreases |b|
  {
    if |b| == 0 {
      assert a + b == a;
    } else {
      var init := b[..|b| - 1];
      assert (a + b)[..|a + b| - 1] == a + init;
      ToHexAppend(a, init);
    }
  }

  /** Reading the hex of bytes gives their big-endian value. */
  lemma {:induction false} HexNumOfToHex(bs: seq<byte>)
    ensures HexNum(ToHex(bs)) == BigEndian(bs)
  {
    if |bs| > 0 {
      var init := bs[..|bs| - 1];
      var b := bs[|bs| - 1];
      HexNumOfToHex(init);
      var s := ToHex(bs);
      var h := ByteToHex(b, false);
      assert s == ToHex(init) + h;
      assert s[..|s| - 1] == ToHex(init) + [h[0]];
      assert s[..|s| - 1][..|s| - 2] == ToHex(init);
      assert HexNum(s) == (HexNum(ToHex(init)) * 16 + b / 16) * 16 + b % 16;
    }
  }

  /** `Swap_Bytes(s, 2)` (both callers pass a step of 2): the
      two-character chunks of `s` in reverse order. An odd length makes the
      last `Substring` throw. */
  function SwapPairs(s: string): (r: Result<string, Failure>)
    ensures r.Ok? <==> |s| % 2 == 0
    ensures r.Err? ==> r.error == ArgumentOutOfRange
    ensures r.Ok? ==> |r.value| == |s|
    decreases |s|
  {
    if |s| == 0 then Ok("")
    else if |s| < 2 then Err(ArgumentOutOfRange)
    else
      match SwapPairs(s[2..])
      case Err(e) => Err(e)
      case Ok(t) => Ok(t + s[..2])
  }

  /** A single pair is left alone. */
  lemma SwapOnePair(p: string)
    requires |p| == 2
    ensures SwapPairs(p) == Ok(p)
  {
    assert p[2..] == "" && p[..2] == p;
    assert SwapPairs(p[2..]) == Ok("");
    assert "" + p[..2] == p;
  }

  /** Swapping a concatenation swaps the parts and their order. */
  lemma {:induction false} SwapPairsAppend(a: string, b: string)
    requires |a| % 2 == 0 && |b| % 2 == 0
    ensures SwapPairs(a + b) == Ok(SwapPairs(b).value + SwapPairs(a).value)
    decreases |a|
  {
    if |a| == 0 {
      assert a + b == b;
      assert SwapPairs(a) == Ok("");
      assert SwapPairs(b).value + "" == SwapPairs(b).value;
    } else {
      assert (a + b)[2..] == a[2..] + b;
      assert (a + b)[..2] == a[..2];
      SwapPairsAppend(a[2..], b);
      var sb, sa := SwapPairs(b).value, SwapPairs(a[2..]).value;
      assert SwapPairs(a) == Ok(sa + a[..2]);
      assert SwapPairs(a + b) == Ok((sb + sa) + a[..2]);
      assert (sb + sa) + a[..2] == sb + (sa + a[..2]);
    }
  }

  /** Swapping twice gives the text back. */
  lemma {:induction false} SwapPairsInvolution(s: string)
    requires |s| % 2 == 0
    ensures SwapPairs(SwapPairs(s).value) == Ok(s)
    decreases |s|
  {
    if |s| > 0 {
      var rest := SwapPairs(s[2..]).value;
      SwapPairsInvolution(s[2..]);
      SwapPairsAppend(rest, s[..2]);
      SwapOnePair(s[..2]);
      assert s[..2] + s[2..] == s;
    }
  }

  /** Swapping pairs of the hex of some bytes is the hex of those bytes
      reversed. */
  lemma {:induction false} SwapToHex(bs: seq<byte>)
    ensures SwapPairs(ToHex(bs)) == Ok(ToHex(Reverse(bs)))
  {
    if |bs| > 0 {
      var h := ByteToHex(bs[0], false);
      ToHexAppend([bs[0]], bs[1..]);
      assert [bs[0]] + bs[1..] == bs;
      assert ToHex([bs[0]]) == h by {
        assert [bs[0]][..0] == [];
      }
      SwapToHex(bs[1..]);
      SwapPairsAppend(h, ToHex(bs[1..]));
      SwapOnePair(h);
      ToHexAppend(Reverse(bs[1..]), [bs[0]]);
      assert ToHex([bs[0]]) == h by {
        assert [bs[0]][..0] == [];
      }
    }
  }

  lemma {:induction false} BigEndianReverse(bs: seq<byte>)
    ensures BigEndian(Reverse(bs)) == LittleEndian(bs)
  {
    if |bs| > 0 {
      var r := Reverse(bs);
      assert r[..|r| - 1] == Reverse(bs[1..]);
      BigEndianReverse(bs[1..]);
    }
  }

  /** `ulong.Parse(s, NumberStyles.HexNumber)`: no digits or a non-hex
      character is a `FormatException`; a value beyond 64 bits an
      `OverflowException`. */
  function ParseULong(s: string): (r: Result<nat, Failure>)
    ensures r.Ok? ==> AllHex(s) && |s| > 0 && IsULong(r.value)
    ensures |s| == 0 ==> r == Err(Format)
  {
    match ParseHex(s)
    case Err(e) => Err(e)
    case Ok(n) =>
      ParseHexIsHexNum(s);
      if n >= TwoTo64 then Err(Overflow) else Ok(n)
  }

  lemma {:induction false} ParseHexIsHexNum(s: string)
    ensures ParseHex(s).Ok? <==> |s| > 0 && AllHex(s)
    ensures ParseHex(s).Ok? ==> ParseHex(s).value == HexNum(s)
    decreases |s|
  {
    if |s| > 1 {
      var init := s[..|s| - 1];
      ParseHexIsHexNum(init);
      assert AllHex(s) <==> AllHex(init) && HexValue(s[|s| - 1]).Some? by {
        assert forall i :: 0 <= i < |init| ==> init[i] == s[i];
      }
    }
  }

  /** Hex of at most eight bytes parses back to their value. */
  lemma ParseULongOfToHex(bs: seq<byte>)
    requires 0 < |bs| <= 8
    ensures ParseULong(ToHex(bs)) == Ok(BigEndian(bs))
  {
    ParseHexIsHexNum(ToHex(bs));
    HexNumOfToHex(bs);
    PowMonotone(256, |bs|, 8);
  }

  lemma {:induction false} PowMonotone(b: nat, e: nat, f: nat)
    requires b >= 1 && e <= f
    ensures Pow(b, e) <= Pow(b, f)
    decreases f
  {
    if e < f {
      PowMonotone(b, e, f - 1);
    }
  }

  /** `String.Format("{0:xN}", x)`: lower-case hex digits, at least
      `width` of them. */
  function FormatHex(x: nat, width: nat): (s: string)
    ensures |s| > 0 && AllLowerHex(s) && AllHex(s)
    decreases x + width
  {
    var last := [HexDigit(x % 16, false)];
    if x < 16 && width <= 1 then last
    else FormatHex(x / 16, if width == 0 then 0 else width - 1) + last
  }

  /** The formatted text reads back as the value and has exactly `width`
      digits when the value fits in them. */
  lemma {:induction false} FormatHexValue(x: nat, width: nat)
    requires width > 0 && x < Pow(16, width)
    ensures |FormatHex(x, width)| == width
    ensures HexNum(FormatHex(x, width)) == x
    decreases width
  {
    var s := FormatHex(x, width);
    var last := [HexDigit(x % 16, false)];
    HexValueOfDigit(x % 16, false);
    if !(x < 16 && width <= 1) {
      FormatHexValue(x / 16, width - 1);
      assert s[..|s| - 1] == FormatHex(x / 16, width - 1);
    }
  }

  /** Formatting `x` with two digits per byte is the hex of its bytes. */
  lemma FormatHexIsToHex(x: nat, n: nat)
    requires n > 0 && x < Pow(256, n)
    ensures FormatHex(x, 2 * n) == ToHex(BytesOf(x, n))
  {
    PowSquare(n);
    FormatHexValue(x, 2 * n);
    HexNumOfToHex(BytesOf(x, n));
    HexTextUnique(FormatHex(x, 2 * n), ToHex(BytesOf(x, n)));
  }

  lemma {:induction false} PowSquare(n: nat)
    ensures Pow(256, n) == Pow(16, 2 * n)
  {
    if n > 0 {
      PowSquare(n - 1);
      assert Pow(16, 2 * n) == 16 * (16 * Pow(16, 2 * (n - 1)));
    }
  }

  /** Two lower-case hex texts of the same length and value are equal. */
  lemma {:induction false} HexTextUnique(s: string, t: string)
    requires AllLowerHex(s) && AllLowerHex(t) && AllHex(s) && AllHex(t)
    requires |s| == |t| && HexNum(s) == HexNum(t)
    ensures s == t
    decreases |s|
  {
    if |s| > 0 {
      var n := |s| - 1;
      assert HexValue(s[n]).value == HexNum(s) % 16 == HexValue(t[n]).value;
      LowerHexDigitUnique(s[n], t[n]);
      assert HexNum(s[..n]) == HexNum(s) / 16 == HexNum(t[..n]);
      HexTextUnique(s[..n], t[..n]);
      assert s == s[..n] + [s[n]] && t == t[..n] + [t[n]];
    }
  }

  lemma LowerHexDigitUnique(c: char, d: char)
    requires IsLowerHex(c) && IsLowerHex(d) && HexValue(c) == HexValue(d)
    ensures c == d
  {
  }

  lemma Pow256Four()
    ensures Pow(256, 4) == TwoTo32
  {
    assert Pow(256, 2) == 65536;
    PowAdd(256, 2, 2);
  }

  lemma SlicesJoin<T>(s: seq<T>, i: nat, j: nat)
    requires i <= j <= |s|
    ensures s[..i] + s[i..j] == s[..j] && s[..j] + s[j..] == s
  {
  }

  /** The hex of a slice is the matching slice of the hex. */
  lemma ToHexSlice(bs: seq<byte>, i: nat, j: nat)
    requires i <= j <= |bs|
    ensures ToHex(bs)[2 * i..2 * j] == ToHex(bs[i..j])
  {
    var a, b, c := bs[..i], bs[i..j], bs[j..];
    SlicesJoin(bs, i, j);
    ToHexAppend(a, b);
    ToHexAppend(bs[..j], c);
    var ha, hb, hc := ToHex(a), ToHex(b), ToHex(c);
    assert ToHex(bs) == ha + hb + hc;
    assert |ha| == 2 * i && |hb| == 2 * (j - i);
    assert (ha + hb + hc)[2 * i..2 * j] == hb;
  }

  // --------------------------------------------------------- the transform

  /** `PadRight(n + (8 - n % 8), '0')`: one to eight `0`s, so that the
      length becomes a multiple of eight. */
  function PadChallenge(s: string): (p: string)
    ensures |p| % 8 == 0 && |s| < |p| <= |s| + 8
    ensures p[..|s|] == s && forall i :: |s| <= i < |p| ==> p[i] == '0'
    ensures IsAscii(s) ==> IsAscii(p)
  {
    s + seq(8 - |s| % 8, _ => '0')
  }

  /** One word of `MD5_To_Int`: eight hex digits, pair-swapped, parsed and
      masked with `0x7FFFFFFF` (on a non-negative value, the remainder by
      2^31). */
  function DigestWord(block: string): (r: Result<nat, Failure>)
    ensures r.Ok? ==> r.value < TwoTo31
  {
    var swapped :- SwapPairs(block);
    var n :- ParseULong(swapped);
    Ok(n % TwoTo31)
  }

  /** `MD5_To_Int` on the 32-digit hex of a digest: four words. */
  function DigestWords(hash: string): (r: Result<seq<nat>, Failure>)
    requires |hash| == 32
    ensures r.Ok? ==> |r.value| == 4 && forall k :: 0 <= k < 4 ==> r.value[k] < TwoTo31
  {
    var a :- DigestWord(hash[0..8]);
    var b :- DigestWord(hash[8..16]);
    var c :- DigestWord(hash[16..24]);
    var d :- DigestWord(hash[24..32]);
    Ok([a, b, c, d])
  }

  /** One word of `CHLID_To_Int`: four characters to bytes, to hex,
      pair-swapped and parsed. */
  function BlockWord(block: string): (r: Result<nat, Failure>)
    ensures r.Ok? ==> IsULong(r.value)
  {
    var swapped :- SwapPairs(ToHex(Utf8Encode(block)));
    ParseULong(swapped)
  }

  /** `CHLID_To_Int`: one word per four characters; a trailing partial
      block makes its `Substring` throw. */
  function BlockWords(s: string): (r: Result<seq<nat>, Failure>)
    ensures r.Ok? ==> |r.value| == |s| / 4 && forall k :: 0 <= k < |r.value| ==> IsULong(r.value[k])
    ensures |s| % 4 != 0 ==> r.Err?
    decreases |s|
  {
    if |s| == 0 then Ok([])
    else if |s| < 4 then Err(ArgumentOutOfRange)
    else
      var w :- BlockWord(s[..4]);
      var ws :- BlockWords(s[4..]);
      Ok([w] + ws)
  }

  /** The product of two naturals, by repeated addition. The key
      recurrence multiplies through it so that its proofs meet a product
      only where `MulIsProduct` is invoked. */
  function Mul(a: nat, b: nat): nat
    decreases a
  {
    if a == 0 then 0 else b + Mul(a - 1, b)
  }

  lemma {:induction false} MulIsProduct(a: nat, b: nat)
    ensures Mul(a, b) == a * b
    decreases a
  {
    if a > 0 {
      MulIsProduct(a - 1, b);
    }
  }

  /** A `ulong` result: the exact value modulo 2^64. */
  function Wrap(x: nat): (w: nat)
    ensures w < TwoTo64
  {
    x % TwoTo64
  }

  /** One pass of the `Create_Key` loop over a pair of block words, with
      every `ulong` operation wrapping modulo 2^64 as written. Gives the new
      `temp` and `high`. */
  function WrappedRound(md5: seq<nat>, c0: nat, c1: nat, high: nat): (r: (nat, nat))
    requires |md5| == 4
    ensures r.0 < Modulus && r.1 < Modulus
  {
    var t1 := Wrap(Wrap(Mul(c0, Multiplier)) % Modulus + high);
    var temp := Wrap(Wrap(Mul(t1, md5[0])) + md5[1]) % Modulus;
    var h1 := Wrap(c1 + temp) % Modulus;
    (temp, Wrap(Wrap(Mul(h1, md5[2])) + md5[3]) % Modulus)
  }

  /** The `Create_Key` loop from the current pair on; `low` accumulates
      `high + temp` modulo 2^64. An odd count makes the read of the second
      word of the last pair throw. */
  function KeyLoop(md5: seq<nat>, chlid: seq<nat>, high: nat, low: nat): (r: Result<(nat, nat), Failure>)
    requires |md5| == 4
    ensures r.Ok? <==> |chlid| % 2 == 0
    ensures r.Err? ==> r.error == IndexOutOfRange
    decreases |chlid|
  {
    if |chlid| == 0 then Ok((high, low))
    else if |chlid| == 1 then Err(IndexOutOfRange)
    else
      var (temp, high') := WrappedRound(md5, chlid[0], chlid[1], high);
      KeyLoop(md5, chlid[2..], high', Wrap(low + (high' + temp)))
  }

  /** A key half as written: formatted as eight hex digits, pair-swapped
      and parsed back. */
  function ReversedWord(v: nat): (r: Result<nat, Failure>)
    ensures r.Ok? ==> IsULong(r.value)
  {
    var swapped :- SwapPairs(FormatHex(v, 8));
    ParseULong(swapped)
  }

  /** For a 32-bit value the text route reverses its four bytes. */
  lemma ReversedWordIsByteSwap(v: nat)
    requires v < TwoTo32
    ensures ReversedWord(v) == Ok(ByteSwap32(v))
  {
    ByteSwapIsLittleEndian(v);
    var bs := BytesOf(v, 4);
    FormatHexIsToHex(v, 4);
    SwapToHex(bs);
    ParseULongOfToHex(Reverse(bs));
    BigEndianReverse(bs);
  }

  /** `(high << 32) + low` in `ulong`. */
  function JoinHalves(high: nat, low: nat): (k: nat)
    ensures IsULong(k)
  {
    Wrap(Wrap(high * 0x1_0000_0000) + low)
  }

  /** Two 32-bit halves join without wrapping. */
  lemma JoinHalvesIsExact(high: nat, low: nat)
    requires high < TwoTo32 && low < TwoTo32
    ensures JoinHalves(high, low) == high * 0x1_0000_0000 + low
  {
    Small(high * 0x1_0000_0000);
    Small(high * 0x1_0000_0000 + low);
  }

  /** `Create_Key`: the loop, then the key from its final state. */
  function CreateKey(md5: seq<nat>, chlid: seq<nat>): (r: Result<nat, Failure>)
    requires |md5| == 4
    ensures r.Ok? <==> |chlid| % 2 == 0
    ensures r.Err? ==> r.error == IndexOutOfRange
    ensures r.Ok? ==> IsULong(r.value)
  {
    var state :- KeyLoop(md5, chlid, 0, 0);
    Ok(FinishKey(md5, state.0, state.1))
  }

  /** The end of `Create_Key`: each half added to a digest word, reduced,
      and byte-reversed through its text; the halves joined. */
  function FinishKey(md5: seq<nat>, high: nat, low: nat): (k: nat)
    requires |md5| == 4
    ensures IsULong(k)
  {
    JoinWords(Wrap(high + md5[1]) % Modulus, Wrap(low + md5[3]) % Modulus)
  }

  /** Both words byte-reversed through their text, then joined. */
  function JoinWords(highWord: nat, lowWord: nat): (k: nat)
    requires highWord < TwoTo32 && lowWord < TwoTo32
    ensures IsULong(k)
  {
    ReversedWordIsByteSwap(highWord);
    ReversedWordIsByteSwap(lowWord);
    JoinHalves(ReversedWord(highWord).value, ReversedWord(lowWord).value)
  }

  /** Joining two reversed 32-bit words does not wrap. */
  lemma JoinWordsIsExact(highWord: nat, lowWord: nat)
    requires highWord < TwoTo32 && lowWord < TwoTo32
    ensures JoinWords(highWord, lowWord) == ExactJoin(highWord, lowWord)
  {
    ReversedWordIsByteSwap(highWord);
    ReversedWordIsByteSwap(lowWord);
    JoinHalvesIsExact(ByteSwap32(highWord), ByteSwap32(lowWord));
  }

  /** `GenerateChallengeRespose` given the MD5 digest of the challenge and
      the product key: mask both halves of the digest with the key and
      write each as sixteen hex digits. */
  function ChallengeResponse(challengeToken: string, productId: string, digest: seq<byte>): (r: Result<string, Failure>)
    requires |digest| == 16
    ensures r.Ok? ==> AllLowerHex(r.value)
  {
    var hash := ToHex(digest);
    var md5 :- DigestWords(hash);
    var words :- BlockWords(PadChallenge(challengeToken + productId));
    var key :- CreateKey(md5, words);
    var partOne :- ParseULong(hash[0..16]);
    var partTwo :- ParseULong(hash[16..32]);
    Ok(FormatHex(Xor(partOne, key), 16) + FormatHex(Xor(partTwo, key), 16))
  }

  // ------------------------------------------------ the transform, exactly

  /** The key recurrence in exact arithmetic: one pass gives the new `temp`
      and `high`. */
  function Round(md5: seq<nat>, c0: nat, c1: nat, high: nat): (nat, nat)
    requires |md5| == 4
  {
    var temp := (Mul(Mul(c0, Multiplier) % Modulus + high, md5[0]) + md5[1]) % Modulus;
    (temp, (Mul((c1 + temp) % Modulus, md5[2]) + md5[3]) % Modulus)
  }

  /** All passes; `low` is the exact sum of every `high + temp`. */
  function Rounds(md5: seq<nat>, chlid: seq<nat>, high: nat, low: nat): (r: (nat, nat))
    requires |md5| == 4 && |chlid| % 2 == 0
    ensures high < Modulus ==> r.0 < Modulus
    decreases |chlid|
  {
    if |chlid| == 0 then (high, low)
    else
      var (temp, high') := Round(md5, chlid[0], chlid[1], high);
      Rounds(md5, chlid[2..], high', low + high' + temp)
  }

  /** The key: the byte-reversed high half above the byte-reversed low
      half, the low sum taken modulo 2^64 as the accumulator keeps it. */
  function Key(md5: seq<nat>, chlid: seq<nat>): nat
    requires |md5| == 4 && |chlid| % 2 == 0
  {
    var state := Rounds(md5, chlid, 0, 0);
    KeyOfState(md5, state.0, state.1)
  }

  /** The key from the final exact `high` and `low`. */
  function KeyOfState(md5: seq<nat>, high: nat, low: nat): nat
    requires |md5| == 4
  {
    ExactJoin((high + md5[1]) % Modulus, (low + md5[3]) % TwoTo64 % Modulus)
  }

  /** Two 32-bit words, each byte-reversed, the first above the second. */
  function ExactJoin(highWord: nat, lowWord: nat): nat
    requires highWord < TwoTo32 && lowWord < TwoTo32
  {
    ByteSwap32(highWord) * 0x1_0000_0000 + ByteSwap32(lowWord)
  }

  /** The four words read from a digest: each four bytes little-endian,
      less the top bit. */
  function DigestInts(digest: seq<byte>): (ws: seq<nat>)
    requires |digest| == 16
  {
    [DigestInt(digest, 0), DigestInt(digest, 1), DigestInt(digest, 2), DigestInt(digest, 3)]
  }

  function DigestInt(digest: seq<byte>, k: nat): nat
    requires |digest| == 16 && k < 4
  {
    LittleEndian(digest[4 * k..4 * k + 4]) % TwoTo31
  }

  /** The words of a challenge block sequence: each four bytes
      little-endian. */
  function BlockInts(bs: seq<byte>): (ws: seq<nat>)
    ensures |ws| == |bs| / 4
    decreases |bs|
  {
    if |bs| < 4 then [] else [LittleEndian(bs[..4])] + BlockInts(bs[4..])
  }

  /** The key for ASCII challenge text: from the digest's words and the
      words of the padded text's bytes. */
  function ResponseKey(challengeToken: string, productId: string, digest: seq<byte>): nat
    requires |digest| == 16 && IsAscii(challengeToken + productId)
  {
    Key(DigestInts(digest), TextWords(challengeToken + productId))
  }

  /** The words of ASCII challenge text, padded: an even number of them. */
  function TextWords(s: string): (ws: seq<nat>)
    requires IsAscii(s)
    ensures |ws| % 2 == 0
  {
    var text := PadChallenge(s);
    Utf8EncodeAscii(text);
    BlockInts(Utf8Encode(text))
  }

  /** Both 64-bit halves of the digest masked with the key, as sixteen
      hex digits each. */
  function Masked(one: nat, two: nat, key: nat): string {
    FormatHex(Xor(one, key), 16) + FormatHex(Xor(two, key), 16)
  }

  /** The response in exact arithmetic, for ASCII challenge text. */
  function ExpectedResponse(challengeToken: string, productId: string, digest: seq<byte>): string
    requires |digest| == 16 && IsAscii(challengeToken + productId)
  {
    Masked(BigEndian(digest[..8]), BigEndian(digest[8..]), ResponseKey(challengeToken, productId, digest))
  }

  // ------------------------------------------------------------- agreement

  /** The word ranges the transform itself produces: digest words of 31
      bits, block words of 32. */
  predicate InRange(md5: seq<nat>, chlid: seq<nat>) {
    && |md5| == 4 && (forall k :: 0 <= k < 4 ==> md5[k] < TwoTo31)
    && (forall j :: 0 <= j < |chlid| ==> chlid[j] < TwoTo32)
  }

  /** On words in range no product or sum of a pass exceeds 64 bits, so
      the wrapping pass is the exact one. */
  lemma WrappedRoundIsExact(md5: seq<nat>, c0: nat, c1: nat, high: nat)
    requires |md5| == 4 && (forall k :: 0 <= k < 4 ==> md5[k] < TwoTo31)
    requires c0 < TwoTo32 && c1 < TwoTo32 && high < Modulus
    ensures WrappedRound(md5, c0, c1, high) == Round(md5, c0, c1, high)
  {
    var temp := (Mul(Mul(c0, Multiplier) % Modulus + high, md5[0]) + md5[1]) % Modulus;
    var wrapped, exact := WrappedRound(md5, c0, c1, high), Round(md5, c0, c1, high);
    assert wrapped.0 == temp by { WrappedTemp(c0, high, md5[0], md5[1]); }
    assert exact.0 == temp;
    assert wrapped.1 == exact.1 by { WrappedHigh(c1, temp, md5[2], md5[3]); }
  }

  /** The `temp` step does not wrap. */
  lemma WrappedTemp(c0: nat, high: nat, m0: nat, m1: nat)
    requires c0 < TwoTo32 && high < Modulus && m0 < TwoTo31 && m1 < TwoTo31
    ensures Wrap(Wrap(Mul(Wrap(Wrap(Mul(c0, Multiplier)) % Modulus + high), m0)) + m1) % Modulus
         == (Mul(Mul(c0, Multiplier) % Modulus + high, m0) + m1) % Modulus
  {
    var p0 := Mul(c0, Multiplier);
    MulBound(c0, Multiplier, TwoTo32, 0x1000_0000);
    Small(p0);
    var t0 := p0 % Modulus + high;
    Small(t0);
    var p1 := Mul(t0, m0);
    MulBound(t0, m0, TwoTo32, TwoTo31);
    Small(p1);
    Small(p1 + m1);
  }

  /** The `high` step does not wrap. */
  lemma WrappedHigh(c1: nat, temp: nat, m2: nat, m3: nat)
    requires c1 < TwoTo32 && temp < Modulus && m2 < TwoTo31 && m3 < TwoTo31
    ensures Wrap(Wrap(Mul(Wrap(c1 + temp) % Modulus, m2)) + m3) % Modulus
         == (Mul((c1 + temp) % Modulus, m2) + m3) % Modulus
  {
    Small(c1 + temp);
    var h1 := (c1 + temp) % Modulus;
    var p2 := Mul(h1, m2);
    MulBound(h1, m2, TwoTo32, TwoTo31);
    Small(p2);
    Small(p2 + m3);
  }

  /** Adding to a value kept modulo 2^64 keeps the sum modulo 2^64. */
  lemma WrapSum(a: nat, exact: nat, s: nat)
    requires a == exact % TwoTo64
    ensures Wrap(a + s) == (exact + s) % TwoTo64
  {
    var q := exact / TwoTo64;
    assert exact + s == q * TwoTo64 + (a + s);
  }

  lemma Small(x: nat)
    requires x < TwoTo64
    ensures Wrap(x) == x
  {
  }

  lemma MulBound(a: nat, b: nat, x: nat, y: nat)
    requires a < x && b < y && x * y <= 0x8000_0000_0000_0000
    ensures Mul(a, b) < 0x8000_0000_0000_0000
  {
    MulIsProduct(a, b);
    assert a * b <= a * y;
    assert a * y < x * y;
  }

  /** The wrapping loop keeps the exact `high` and the exact `low` modulo
      2^64. */
  lemma {:induction false} KeyLoopIsExact(md5: seq<nat>, chlid: seq<nat>, high: nat, low: nat, exactLow: nat)
    requires InRange(md5, chlid) && |chlid| % 2 == 0
    requires high < Modulus && low == exactLow % TwoTo64
    ensures var exact := Rounds(md5, chlid, high, exactLow);
      KeyLoop(md5, chlid, high, low) == Ok((exact.0, exact.1 % TwoTo64))
    decreases |chlid|
  {
    if |chlid| > 0 {
      WrappedRoundIsExact(md5, chlid[0], chlid[1], high);
      var (temp, high') := Round(md5, chlid[0], chlid[1], high);
      var sum := high' + temp;
      WrapSum(low, exactLow, sum);
      assert InRange(md5, chlid[2..]);
      KeyLoopIsExact(md5, chlid[2..], high', Wrap(low + sum), exactLow + sum);
    }
  }

  /** For words in range, `Create_Key` computes the exact key. */
  lemma CreateKeyIsExact(md5: seq<nat>, chlid: seq<nat>)
    requires InRange(md5, chlid) && |chlid| % 2 == 0
    ensures CreateKey(md5, chlid) == Ok(Key(md5, chlid))
    ensures IsULong(Key(md5, chlid))
  {
    KeyLoopIsExact(md5, chlid, 0, 0, 0);
    var state := Rounds(md5, chlid, 0, 0);
    FinishKeyIsExact(md5, state.0, state.1);
  }

  /** With an exact `high` below the modulus, finishing from the kept
      `low` gives the exact key. */
  lemma FinishKeyIsExact(md5: seq<nat>, high: nat, low: nat)
    requires |md5| == 4 && md5[1] < TwoTo31 && high < Modulus
    ensures FinishKey(md5, high, low % TwoTo64) == KeyOfState(md5, high, low)
    ensures IsULong(KeyOfState(md5, high, low))
  {
    var highWord := (high + md5[1]) % Modulus;
    var lowWord := (low + md5[3]) % TwoTo64 % Modulus;
    assert Wrap(high + md5[1]) % Modulus == highWord by { Small(high + md5[1]); }
    assert Wrap(low % TwoTo64 + md5[3]) % Modulus == lowWord by { WrapSum(low % TwoTo64, low, md5[3]); }
    assert FinishKey(md5, high, low % TwoTo64) == JoinWords(highWord, lowWord);
    JoinWordsIsExact(highWord, lowWord);
    assert KeyOfState(md5, high, low) == ExactJoin(highWord, lowWord);
  }

  /** One digest word read from the hex of four bytes. */
  lemma DigestWordOfBytes(bs: seq<byte>)
    requires |bs| == 4
    ensures DigestWord(ToHex(bs)) == Ok(LittleEndian(bs) % TwoTo31)
  {
    SwapToHex(bs);
    ParseULongOfToHex(Reverse(bs));
    BigEndianReverse(bs);
  }

  /** `MD5_To_Int` of a digest's hex gives its four words, each below
      2^31. */
  lemma DigestWordsOfDigest(digest: seq<byte>)
    requires |digest| == 16
    ensures DigestWords(ToHex(digest)) == Ok(DigestInts(digest))
    ensures forall k :: 0 <= k < 4 ==> DigestInts(digest)[k] < TwoTo31
  {
    DigestWordAt(digest, 0);
    DigestWordAt(digest, 1);
    DigestWordAt(digest, 2);
    DigestWordAt(digest, 3);
  }

  lemma DigestWordAt(digest: seq<byte>, k: nat)
    requires |digest| == 16 && k < 4
    ensures DigestWord(ToHex(digest)[8 * k..8 * k + 8]) == Ok(DigestInt(digest, k))
  {
    ToHexSlice(digest, 4 * k, 4 * k + 4);
    DigestWordOfBytes(digest[4 * k..4 * k + 4]);
  }

  /** One block word of four ASCII characters: their codes little-endian. */
  lemma BlockWordOfAscii(block: string)
    requires |block| == 4 && IsAscii(block)
    ensures BlockWord(block) == Ok(LittleEndian(Utf8Encode(block)))
  {
    var bs := Utf8Encode(block);
    Utf8EncodeAscii(block);
    SwapToHex(bs);
    ParseULongOfToHex(Reverse(bs));
    BigEndianReverse(bs);
  }

  /** `CHLID_To_Int` of ASCII text of whole blocks gives the little-endian
      words of its bytes, each below 2^32. */
  lemma {:induction false} BlockWordsOfAscii(s: string)
    requires IsAscii(s) && |s| % 4 == 0
    ensures BlockWords(s) == Ok(BlockInts(Utf8Encode(s)))
    ensures forall j :: 0 <= j < |s| / 4 ==> BlockInts(Utf8Encode(s))[j] < TwoTo32
    decreases |s|
  {
    if |s| > 0 {
      var block, rest := s[..4], s[4..];
      assert IsAscii(block) && IsAscii(rest);
      QuarterStep(|s|);
      BlockWordOfAscii(block);
      BlockWordsOfAscii(rest);
      BlockWordsStep(s);
      BlockIntsOfAscii(s);
      WordsBelowCons(LittleEndian(Utf8Encode(block)), BlockInts(Utf8Encode(rest)));
    } else {
      Utf8EncodeAscii(s);
    }
  }

  /** One step of `CHLID_To_Int` when both the first block and the rest
      convert. */
  lemma BlockWordsStep(s: string)
    requires |s| >= 4 && BlockWord(s[..4]).Ok? && BlockWords(s[4..]).Ok?
    ensures BlockWords(s) == Ok([BlockWord(s[..4]).value] + BlockWords(s[4..]).value)
  {
  }

  /** Putting a word below 2^32 in front of words below 2^32. */
  lemma WordsBelowCons(w: nat, ws: seq<nat>)
    requires w < TwoTo32 && forall j :: 0 <= j < |ws| ==> ws[j] < TwoTo32
    ensures forall j :: 0 <= j < |[w] + ws| ==> ([w] + ws)[j] < TwoTo32
  {
  }

  /** Whole blocks less the first. */
  lemma QuarterStep(n: nat)
    requires n > 0 && n % 4 == 0
    ensures n >= 4 && (n - 4) % 4 == 0 && (n - 4) / 4 == n / 4 - 1
  {
  }

  /** The words of ASCII text are the first block's word, then the rest's. */
  lemma BlockIntsOfAscii(s: string)
    requires IsAscii(s) && |s| >= 4
    ensures BlockInts(Utf8Encode(s)) == [LittleEndian(Utf8Encode(s[..4]))] + BlockInts(Utf8Encode(s[4..]))
    ensures LittleEndian(Utf8Encode(s[..4])) < TwoTo32
  {
    var block, rest := s[..4], s[4..];
    assert block + rest == s;
    Utf8EncodeAppend(block, rest);
    Utf8EncodeAscii(block);
    var bs := Utf8Encode(s);
    assert bs[..4] == Utf8Encode(block) && bs[4..] == Utf8Encode(rest);
    Pow256Four();
  }

  /** The hex of eight bytes sliced from a longer run's hex parses back. */
  lemma HexHalf(bs: seq<byte>, i: nat, lo: nat, hi: nat)
    requires i + 8 <= |bs| && lo == 2 * i && hi == lo + 16
    ensures ParseULong(ToHex(bs)[lo..hi]) == Ok(BigEndian(bs[i..i + 8]))
  {
    var half := bs[i..i + 8];
    assert ToHex(bs)[lo..hi] == ToHex(half) by {
      ToHexSlice(bs, i, i + 8);
      assert hi == 2 * (i + 8);
    }
    ParseULongOfToHex(half);
  }

  lemma Pow256Eight()
    ensures Pow(256, 8) == TwoTo64 && Pow(16, 16) == TwoTo64
  {
    Pow256Four();
    PowAdd(256, 4, 4);
    PowSquare(8);
  }

  /** A value below 2^64, masked, formats as sixteen digits that read
      back as the masked value. */
  lemma MaskedHalf(x: nat, key: nat)
    requires IsULong(x) && IsULong(key)
    ensures IsULong(Xor(x, key))
    ensures |FormatHex(Xor(x, key), 16)| == 16 && HexNum(FormatHex(Xor(x, key), 16)) == Xor(x, key)
  {
    Pow256Eight();
    PowTwo64();
    XorBound(x, key, 64);
    FormatHexValue(Xor(x, key), 16);
  }

  /** For ASCII challenge text, the words and the key the transform
      computes are the exact ones. */
  lemma ResponseKeyIsExact(challengeToken: string, productId: string, digest: seq<byte>)
    requires |digest| == 16 && IsAscii(challengeToken + productId)
    ensures var md5 := DigestInts(digest);
      var words := TextWords(challengeToken + productId);
      && DigestWords(ToHex(digest)) == Ok(md5)
      && BlockWords(PadChallenge(challengeToken + productId)) == Ok(words)
      && |md5| == 4
      && CreateKey(md5, words) == Ok(ResponseKey(challengeToken, productId, digest))
      && IsULong(ResponseKey(challengeToken, productId, digest))
  {
    var md5 := DigestInts(digest);
    var words := TextWords(challengeToken + productId);
    assert DigestWords(ToHex(digest)) == Ok(md5) && forall k :: 0 <= k < 4 ==> md5[k] < TwoTo31 by {
      DigestWordsOfDigest(digest);
    }
    assert BlockWords(PadChallenge(challengeToken + productId)) == Ok(words)
      && forall j :: 0 <= j < |words| ==> words[j] < TwoTo32 by {
      TextWordsOfAscii(challengeToken + productId);
    }
    CreateKeyIsExact(md5, words);
  }

  /** `CHLID_To_Int` of padded ASCII text gives its words, each below 2^32. */
  lemma TextWordsOfAscii(s: string)
    requires IsAscii(s)
    ensures BlockWords(PadChallenge(s)) == Ok(TextWords(s))
    ensures forall j :: 0 <= j < |TextWords(s)| ==> TextWords(s)[j] < TwoTo32
  {
    var text := PadChallenge(s);
    BlockWordsOfAscii(text);
    Utf8EncodeAscii(text);
  }

  /** For ASCII challenge text the transform never fails, and answers with
      32 lower-case hex digits: the exact response. */
  lemma ChallengeResponseIsExact(challengeToken: string, productId: string, digest: seq<byte>)
    requires |digest| == 16 && IsAscii(challengeToken + productId)
    ensures ChallengeResponse(challengeToken, productId, digest) == Ok(ExpectedResponse(challengeToken, productId, digest))
    ensures |ExpectedResponse(challengeToken, productId, digest)| == 32
  {
    ResponseKeyIsExact(challengeToken, productId, digest);
    var key := ResponseKey(challengeToken, productId, digest);
    DigestFirstHalf(digest);
    DigestSecondHalf(digest);
    MaskedHalf(BigEndian(digest[..8]), key);
    MaskedHalf(BigEndian(digest[8..]), key);
  }

  /** The first 64-bit half of a digest reads back from its hex. */
  lemma DigestFirstHalf(digest: seq<byte>)
    requires |digest| == 16
    ensures ParseULong(ToHex(digest)[0..16]) == Ok(BigEndian(digest[..8]))
  {
    HexHalf(digest, 0, 0, 16);
    assert digest[0..8] == digest[..8];
  }

  /** The second 64-bit half of a digest reads back from its hex. */
  lemma DigestSecondHalf(digest: seq<byte>)
    requires |digest| == 16
    ensures ParseULong(ToHex(digest)[16..32]) == Ok(BigEndian(digest[8..]))
  {
    HexHalf(digest, 8, 16, 32);
    assert digest[8..16] == digest[8..];
  }

  /** The response carries the digest masked by the key: unmasking each
      half of the digits with the key gives the two halves of the digest. */
  lemma ResponseUnmasks(challengeToken: string, productId: string, digest: seq<byte>)
    requires |digest| == 16 && IsAscii(challengeToken + productId)
    ensures var r := ExpectedResponse(challengeToken, productId, digest);
      var key := ResponseKey(challengeToken, productId, digest);
      && |r| == 32 && AllHex(r[..16]) && AllHex(r[16..])
      && Xor(HexNum(r[..16]), key) == BigEndian(digest[..8])
      && Xor(HexNum(r[16..]), key) == BigEndian(digest[8..])
  {
    ResponseKeyIsExact(challengeToken, productId, digest);
    var key := ResponseKey(challengeToken, productId, digest);
    var one, two := BigEndian(digest[..8]), BigEndian(digest[8..]);
    MaskedHalf(one, key);
    MaskedHalf(two, key);
    var r := Masked(one, two, key);
    assert r[..16] == FormatHex(Xor(one, key), 16);
    assert r[16..] == FormatHex(Xor(two, key), 16);
    XorTwice(one, key);
    XorTwice(two, key);
  }
}

/**
  The colour text of index.js:41: each channel through JavaScript's
  `Number.prototype.toString(16)` and `String.prototype.padStart(2, '0')`,
  joined behind a '#'. A reference decoder (`ParseColor`) reads such text back.
*/
module Hex {
  import opened Wrappers
  import opened Raster

  /** The digits `toString(16)` emits: 0-9 and lower-case a-f. */
  predicate IsLowerHexDigit(c: char) {
    '0' <= c <= '9' || 'a' <= c <= 'f'
  }

  /** The value of one lower-case hex digit, or None for any other character. */
  function DigitValue(c: char): (d: Option<int>)
    ensures d.Some? <==> IsLowerHexDigit(c)
    ensures d.Some? ==> 0 <= d.value < 16
  {
    if '0' <= c <= '9' then Some(c as int - '0' as int)
    else if 'a' <= c <= 'f' then Some(c as int - 'a' as int + 10)
    else None
  }

  /** The lower-case digit for a value below 16. */
  function HexDigit(d: int): (c: char)
    requires 0 <= d < 16
    ensures IsLowerHexDigit(c) && DigitValue(c) == Some(d)
  {
    if d < 10 then ('0' as int + d) as char else ('a' as int + d - 10) as char
  }

  /** Reading a digit and writing it back gives the same character. */
  lemma DigitValueInverse(c: char)
    requires IsLowerHexDigit(c)
    ensures HexDigit(DigitValue(c).value) == c
  {
  }

  /** Digit strings as `toString(16)` writes them: non-empty, lower case, no leading zero. */
  predicate IsCanonicalHex(s: string) {
    && |s| >= 1
    && (forall i :: 0 <= i < |s| ==> IsLowerHexDigit(s[i]))
    && (s[0] == '0' ==> |s| == 1)
  }

  /** `v.toString(16)` for a non-negative integer: its base-16 digits, most significant first. */
  function ToHexString(v: nat): (s: string)
    ensures IsCanonicalHex(s)
    ensures s[0] == '0' <==> v == 0
    decreases v
  {
    if v < 16 then [HexDigit(v)] else ToHexString(v / 16) + [HexDigit(v % 16)]
  }

  /** Positional base-16 value of a string of lower-case digits (None if any character is not one). */
  function HexValue(s: string): (v: Option<nat>)
    ensures v.Some? <==> forall i :: 0 <= i < |s| ==> IsLowerHexDigit(s[i])
    decreases |s|
  {
    if s == [] then Some(0)
    else
      match (HexValue(s[..|s| - 1]), DigitValue(s[|s| - 1]))
      case (Some(hi), Some(lo)) => Some(hi * 16 + lo)
      case _ => None
  }

  /** Reading back the digits `toString(16)` writes gives the number. */
  lemma {:induction false} HexValueOfToHexString(v: nat)
    ensures HexValue(ToHexString(v)) == Some(v)
    decreases v
  {
    var s := ToHexString(v);
    if v < 16 {
      assert s[..|s| - 1] == [];
    } else {
      HexValueOfToHexString(v / 16);
      assert s[..|s| - 1] == ToHexString(v / 16);
    }
  }

  /** Conversely, every canonical digit string is what `toString(16)` writes for its value. */
  lemma {:induction false} ToHexStringOfHexValue(s: string)
    requires IsCanonicalHex(s)
    ensures HexValue(s).Some? && ToHexString(HexValue(s).value) == s
    decreases |s|
  {
    var last := s[|s| - 1];
    var lo := DigitValue(last).value;
    DigitValueInverse(last);
    if |s| == 1 {
      assert s[..|s| - 1] == [];
      assert s == [last];
    } else {
      var prefix := s[..|s| - 1];
      assert prefix[0] == s[0];
      ToHexStringOfHexValue(prefix);
      var hi := HexValue(prefix).value;
      assert hi != 0;
      var v := hi * 16 + lo;
      assert v / 16 == hi && v % 16 == lo;
      assert s == prefix + [last];
    }
  }

  /** `s.padStart(targetLength, fill)` with a one-character filler. */
  function PadStart(s: string, targetLength: nat, fill: char): (r: string)
    ensures |r| == if |s| < targetLength then targetLength else |s|
    ensures r[|r| - |s|..] == s
    ensures forall i :: 0 <= i < |r| - |s| ==> r[i] == fill
  {
    if |s| >= targetLength then s else seq(targetLength - |s|, _ => fill) + s
  }

  /** The two-character text of one channel, `v.toString(16).padStart(2, '0')`. */
  function HexByte(v: Byte): (s: string)
    ensures s == [HexDigit(v / 16), HexDigit(v % 16)]
  {
    ToHexStringOfByte(v);
    PadStart(ToHexString(v), 2, '0')
  }

  /** A byte takes one hex digit below 16 and two from 16 on. */
  lemma ToHexStringOfByte(v: Byte)
    ensures v < 16 ==> ToHexString(v) == [HexDigit(v)]
    ensures v >= 16 ==> ToHexString(v) == [HexDigit(v / 16), HexDigit(v % 16)]
  {
    if v >= 16 {
      assert ToHexString(v / 16) == [HexDigit(v / 16)];
    }
  }

  /** The colour text of a pixel: '#', then two lower-case digits each for r, g and b. */
  function ColorHex(r: Byte, g: Byte, b: Byte): (s: string)
    ensures s == ColorChars(r, g, b)
  {
    HashThreePairs(HexByte(r), HexByte(g), HexByte(b));
    "#" + HexByte(r) + HexByte(g) + HexByte(b)
  }

  /** '#' followed by three two-character groups, spelled out character by character. */
  lemma HashThreePairs(a: string, b: string, c: string)
    requires |a| == 2 && |b| == 2 && |c| == 2
    ensures "#" + a + b + c == ['#', a[0], a[1], b[0], b[1], c[0], c[1]]
  {
  }

  /** The colour text is '#' followed by exactly six lower-case hex digits. */
  lemma ColorHexShape(r: Byte, g: Byte, b: Byte)
    ensures var s := ColorHex(r, g, b);
      |s| == 7 && s[0] == '#' && forall i :: 1 <= i < 7 ==> IsLowerHexDigit(s[i])
  {
    var s := ColorChars(r, g, b);
    assert forall i :: 1 <= i < 7 ==> s[i] == HexDigit(ColorDigit(r, g, b, i));
  }

  /** The value of the digit at position i (1 to 6) of the colour text of (r, g, b). */
  function ColorDigit(r: Byte, g: Byte, b: Byte, i: int): (d: int)
    requires 1 <= i < 7
    ensures 0 <= d < 16
  {
    match i
    case 1 => r / 16
    case 2 => r % 16
    case 3 => g / 16
    case 4 => g % 16
    case 5 => b / 16
    case _ => b % 16
  }

  /** Reads two lower-case hex digits as one byte. */
  function DecodeHexPair(s: string): (v: Option<Byte>)
    ensures v.Some? <==> |s| == 2 && IsLowerHexDigit(s[0]) && IsLowerHexDigit(s[1])
  {
    if |s| == 2 then
      match HexValue(s)
      case Some(n) => HexPairValue(s); Some(n)
      case None => None
    else None
  }

  /** Two hex digits read as 16 * high + low, which is below 256. */
  lemma HexPairValue(s: string)
    requires |s| == 2 && HexValue(s).Some?
    ensures DigitValue(s[0]).Some? && DigitValue(s[1]).Some?
    ensures HexValue(s).value == DigitValue(s[0]).value * 16 + DigitValue(s[1]).value < 256
  {
    var hi, lo := DigitValue(s[0]).value, DigitValue(s[1]).value;
    assert s[..1][..0] == [] && s[..1][0] == s[0];
    assert HexValue(s[..1]) == Some(hi);
    assert s[..|s| - 1] == s[..1];
    assert HexValue(s) == Some(hi * 16 + lo);
  }

  /** Reference decoder for colour text: '#' and three two-digit lower-case groups r, g, b. */
  function ParseColor(s: string): (c: Option<RGB>)
    ensures c.Some? ==> |s| == 7 && s[0] == '#'
  {
    if |s| == 7 && s[0] == '#' then
      match (DecodeHexPair(s[1..3]), DecodeHexPair(s[3..5]), DecodeHexPair(s[5..7]))
      case (Some(r), Some(g), Some(b)) => Some(RGB(r, g, b))
      case _ => None
    else None
  }

  /** The seven characters of the colour text of (r, g, b). */
  function ColorChars(r: Byte, g: Byte, b: Byte): (s: string)
  {
    ['#', HexDigit(r / 16), HexDigit(r % 16), HexDigit(g / 16), HexDigit(g % 16),
     HexDigit(b / 16), HexDigit(b % 16)]
  }

  /** Two digits written by HexDigit decode to the byte they were written for. */
  lemma DecodeHexDigits(s: string, v: Byte)
    requires s == [HexDigit(v / 16), HexDigit(v % 16)]
    ensures DecodeHexPair(s) == Some(v)
  {
    assert IsLowerHexDigit(s[0]) && IsLowerHexDigit(s[1]);
    HexPairValue(s);
  }

  /** Decoding each two-digit group of the colour text recovers r, g and b. */
  lemma ColorHexRoundTrip(r: Byte, g: Byte, b: Byte)
    ensures ParseColor(ColorHex(r, g, b)) == Some(RGB(r, g, b))
  {
    var s := ColorChars(r, g, b);
    DecodeHexDigits(s[1..3], r);
    DecodeHexDigits(s[3..5], g);
    DecodeHexDigits(s[5..7], b);
    assert ParseColor(s) == Some(RGB(r, g, b));
  }

  /** Every text the decoder accepts is exactly the colour text of what it decodes to. */
  lemma ParseColorInverse(s: string)
    requires ParseColor(s).Some?
    ensures var c := ParseColor(s).value; ColorHex(c.r, c.g, c.b) == s
  {
    var c := ParseColor(s).value;
    PairInverse(s[1..3]);
    PairInverse(s[3..5]);
    PairInverse(s[5..7]);
    assert s == ColorChars(c.r, c.g, c.b);
  }

  /** A decodable pair is the two digits HexDigit writes for its value. */
  lemma PairInverse(s: string)
    requires DecodeHexPair(s).Some?
    ensures var v := DecodeHexPair(s).value; s == [HexDigit(v / 16), HexDigit(v % 16)]
  {
    HexPairValue(s);
    DigitValueInverse(s[0]);
    DigitValueInverse(s[1]);
  }

  /** Colour text and decoding are inverse: s is the text of c exactly when s decodes to c. */
  lemma ColorHexIff(s: string, c: RGB)
    ensures ParseColor(s) == Some(c) <==> s == ColorHex(c.r, c.g, c.b)
  {
    if ParseColor(s) == Some(c) {
      ParseColorInverse(s);
    }
    if s == ColorHex(c.r, c.g, c.b) {
      ColorHexRoundTrip(c.r, c.g, c.b);
    }
  }
}

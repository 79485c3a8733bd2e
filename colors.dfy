/**
 * Colour helpers of the editor: the RGB distance the bucket tool compares
 * against its tolerance, and the conversions between `#rrggbb` strings and
 * RGB triples (js/master-editor-complete.js, colorDistance, hexToRgb, rgbToHex).
 */
module Colors {
  import opened Arith

  /** The `{r, g, b}` objects the editor passes around. */
  datatype Rgb = Rgb(r: int, g: int, b: int)

  const Black := Rgb(0, 0, 0)

  predicate IsByte(v: int) { 0 <= v <= 255 }

  predicate IsByteColor(c: Rgb) { IsByte(c.r) && IsByte(c.g) && IsByte(c.b) }

  /** The square of colorDistance: alpha is not compared. */
  function DistanceSquared(c1: Rgb, c2: Rgb): (d: int)
    ensures d >= 0
    ensures d == 0 <==> c1 == c2
  {
    var dr, dg, db := c1.r - c2.r, c1.g - c2.g, c1.b - c2.b;
    assert dr * dr >= 0 && dg * dg >= 0 && db * db >= 0;
    assert dr * dr == 0 ==> dr == 0;
    assert dg * dg == 0 ==> dg == 0;
    assert db * db == 0 ==> db == 0;
    dr * dr + dg * dg + db * db
  }

  /**
   * `colorDistance(c1, c2) <= tolerance`. The square root is squared away:
   * see SqrtComparison for why the two tests agree on integer tolerances.
   */
  predicate WithinTolerance(c1: Rgb, c2: Rgb, tolerance: int)
    ensures WithinTolerance(c1, c2, tolerance) ==> 0 <= tolerance
    ensures c1 == c2 ==> (WithinTolerance(c1, c2, tolerance) <==> 0 <= tolerance)
  {
    0 <= tolerance && DistanceSquared(c1, c2) <= tolerance * tolerance
  }

  /** For the non-negative square root s of d, `s <= t` holds exactly when WithinTolerance's test does. */
  lemma SqrtComparison(d: int, s: real, t: int)
    requires 0 <= d && 0.0 <= s && s * s == d as real
    ensures s <= t as real <==> (0 <= t && d <= t * t)
  {
    var tr := t as real;
    assert (t * t) as real == tr * tr;
    if s <= tr {
      RealMulMonotone(s, tr, s);
      RealMulMonotone(s, tr, tr);
    } else if 0 <= t {
      RealSquareStrict(tr, s);
    }
  }

  /** Tolerance 0 accepts exactly the identical colour; a negative tolerance accepts nothing. */
  lemma ToleranceZeroIsEquality(c1: Rgb, c2: Rgb)
    ensures WithinTolerance(c1, c2, 0) <==> c1 == c2
    ensures forall t :: t < 0 ==> !WithinTolerance(c1, c2, t)
  {
  }

  // ---------- hexadecimal digits ----------

  /** The characters `[a-f\d]` matches under the `i` flag. */
  predicate IsHexDigit(ch: char)
  {
    '0' <= ch <= '9' || 'a' <= ch <= 'f' || 'A' <= ch <= 'F'
  }

  function HexDigitValue(ch: char): (v: int)
    requires IsHexDigit(ch)
    ensures 0 <= v < 16
  {
    if '0' <= ch <= '9' then ch as int - '0' as int
    else if 'a' <= ch <= 'f' then ch as int - 'a' as int + 10
    else ch as int - 'A' as int + 10
  }

  /** The digit Number.prototype.toString(16) writes: lower case. */
  function LowerHexDigit(v: int): (ch: char)
    requires 0 <= v < 16
    ensures IsHexDigit(ch) && HexDigitValue(ch) == v
    ensures !('A' <= ch <= 'F')
  {
    if v < 10 then ('0' as int + v) as char else ('a' as int + v - 10) as char
  }

  /** The lower-case form of a hex digit (what the `i` flag treats as the same digit). */
  function LowerCase(ch: char): char
  {
    if 'A' <= ch <= 'F' then (ch as int + 32) as char else ch
  }

  // ---------- hexToRgb ----------

  /** The strings `/^#?([a-f\d]{2})([a-f\d]{2})([a-f\d]{2})$/i` accepts. */
  predicate IsHexColor(s: string)
  {
    (|s| == 6 && forall i :: 0 <= i < 6 ==> IsHexDigit(s[i])) ||
    (|s| == 7 && s[0] == '#' && forall i :: 1 <= i < 7 ==> IsHexDigit(s[i]))
  }

  /** The six digits the three capture groups cover. */
  function ColorDigits(s: string): (d: string)
    requires IsHexColor(s)
    ensures |d| == 6 && forall i :: 0 <= i < 6 ==> IsHexDigit(d[i])
  {
    if |s| == 7 then s[1..] else s
  }

  /** `parseInt(pair, 16)` on a two-digit capture group. */
  function ParseHexPair(hi: char, lo: char): (v: int)
    requires IsHexDigit(hi) && IsHexDigit(lo)
    ensures IsByte(v)
  {
    16 * HexDigitValue(hi) + HexDigitValue(lo)
  }

  /** hexToRgb: `#rrggbb` or `rrggbb`, any case; black when the pattern does not match. */
  function HexToRgb(hex: string): (c: Rgb)
    ensures IsByteColor(c)
  {
    if IsHexColor(hex) then
      var d := ColorDigits(hex);
      Rgb(ParseHexPair(d[0], d[1]), ParseHexPair(d[2], d[3]), ParseHexPair(d[4], d[5]))
    else
      Black
  }

  // ---------- rgbToHex ----------

  /** Number.prototype.toString(16) on a non-negative integer: no leading zeros. */
  function HexString(n: nat): (s: string)
    ensures 1 <= |s|
    ensures n < 16 <==> |s| == 1
  {
    if n < 16 then [LowerHexDigit(n)] else HexString(n / 16) + [LowerHexDigit(n % 16)]
  }

  /** Number.prototype.toString(16) on any integer: a minus sign before the digits of a negative one. */
  function NumberToHex(x: int): string
  {
    if x < 0 then "-" + HexString(-x) else HexString(x)
  }

  /** One channel of rgbToHex: a single digit gets a leading '0'. */
  function PadHex(x: int): string
  {
    var h := NumberToHex(x);
    if |h| == 1 then "0" + h else h
  }

  /** rgbToHex: '#' and each channel's padded hex digits, so at least seven characters. */
  function RgbToHex(r: int, g: int, b: int): (s: string)
    ensures |s| >= 7 && s[0] == '#'
  {
    "#" + PadHex(r) + PadHex(g) + PadHex(b)
  }

  /** A byte is written as exactly two lower-case digits, high digit first. */
  lemma PadHexByte(x: int)
    requires IsByte(x)
    ensures PadHex(x) == [LowerHexDigit(x / 16), LowerHexDigit(x % 16)]
  {
    if x >= 16 {
      assert HexString(x) == HexString(x / 16) + [LowerHexDigit(x % 16)];
      assert HexString(x / 16) == [LowerHexDigit(x / 16)];
    }
  }

  /** rgbToHex of three bytes is a seven-character `#rrggbb` in lower case that hexToRgb accepts. */
  lemma {:induction false} RgbToHexShape(r: int, g: int, b: int)
    requires IsByte(r) && IsByte(g) && IsByte(b)
    ensures var s := RgbToHex(r, g, b);
      |s| == 7 && s[0] == '#' && IsHexColor(s) &&
      forall i :: 1 <= i < 7 ==> !('A' <= s[i] <= 'F')
  {
    PadHexByte(r);
    PadHexByte(g);
    PadHexByte(b);
  }

  /** hexToRgb(rgbToHex(r, g, b)) gives back (r, g, b) for bytes. */
  lemma {:induction false} HexRoundTrip(r: int, g: int, b: int)
    requires IsByte(r) && IsByte(g) && IsByte(b)
    ensures HexToRgb(RgbToHex(r, g, b)) == Rgb(r, g, b)
  {
    PadHexByte(r);
    PadHexByte(g);
    PadHexByte(b);
    RgbToHexShape(r, g, b);
    var s := RgbToHex(r, g, b);
    var d := ColorDigits(s);
    assert d == [LowerHexDigit(r / 16), LowerHexDigit(r % 16),
                 LowerHexDigit(g / 16), LowerHexDigit(g % 16),
                 LowerHexDigit(b / 16), LowerHexDigit(b % 16)];
  }

  /** A hex digit printed back from its value is the digit in lower case. */
  lemma DigitRoundTrip(ch: char)
    requires IsHexDigit(ch)
    ensures LowerHexDigit(HexDigitValue(ch)) == LowerCase(ch)
  {
  }

  /** One channel read by parseInt and written back by rgbToHex: its two digits in lower case. */
  lemma ChannelRoundTrip(hi: char, lo: char)
    requires IsHexDigit(hi) && IsHexDigit(lo)
    ensures PadHex(ParseHexPair(hi, lo)) == [LowerCase(hi), LowerCase(lo)]
  {
    var v := ParseHexPair(hi, lo);
    PadHexByte(v);
    assert v / 16 == HexDigitValue(hi) && v % 16 == HexDigitValue(lo);
    DigitRoundTrip(hi);
    DigitRoundTrip(lo);
  }

  /** The lower-case form of a string of hex digits. */
  function LowerCased(s: string): (r: string)
    ensures |r| == |s|
  {
    seq(|s|, i requires 0 <= i < |s| => LowerCase(s[i]))
  }

  /** Six digits read as three channels and written back give the digits in lower case. */
  lemma PaddedDigits(d: string)
    requires |d| == 6 && forall i :: 0 <= i < 6 ==> IsHexDigit(d[i])
    ensures PadHex(ParseHexPair(d[0], d[1])) + PadHex(ParseHexPair(d[2], d[3])) + PadHex(ParseHexPair(d[4], d[5]))
      == LowerCased(d)
  {
    ChannelRoundTrip(d[0], d[1]);
    ChannelRoundTrip(d[2], d[3]);
    ChannelRoundTrip(d[4], d[5]);
    var spelled := [LowerCase(d[0]), LowerCase(d[1]), LowerCase(d[2]), LowerCase(d[3]), LowerCase(d[4]), LowerCase(d[5])];
    assert [LowerCase(d[0]), LowerCase(d[1])] + [LowerCase(d[2]), LowerCase(d[3])] + [LowerCase(d[4]), LowerCase(d[5])]
      == spelled;
    var lowered := LowerCased(d);
    assert lowered == spelled by {
      forall i | 0 <= i < 6
        ensures lowered[i] == spelled[i]
      {
      }
    }
  }

  /** The other direction: a string hexToRgb accepts comes back from rgbToHex as `#` and its digits in lower case. */
  lemma HexRoundTripBack(s: string)
    requires IsHexColor(s)
    ensures var c := HexToRgb(s); RgbToHex(c.r, c.g, c.b) == "#" + LowerCased(ColorDigits(s))
  {
    var d := ColorDigits(s);
    var c := HexToRgb(s);
    assert c == Rgb(ParseHexPair(d[0], d[1]), ParseHexPair(d[2], d[3]), ParseHexPair(d[4], d[5]));
    PaddedDigits(d);
    SpelledChannels(c, LowerCased(d));
  }

  /** rgbToHex is `#` followed by the three padded channels. */
  lemma SpelledChannels(c: Rgb, digits: string)
    requires PadHex(c.r) + PadHex(c.g) + PadHex(c.b) == digits
    ensures RgbToHex(c.r, c.g, c.b) == "#" + digits
  {
    assert RgbToHex(c.r, c.g, c.b) == "#" + PadHex(c.r) + PadHex(c.g) + PadHex(c.b);
  }
}

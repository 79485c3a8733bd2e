/**
 * The editor's pixel filters (js/master-editor-complete.js, processImageData and
 * filterGrayscale/Sepia/Invert/Brightness/Contrast/Blur) over the RGBA byte
 * array of an ImageData: width × height pixels, four bytes each, row-major.
 */
module Pixels {
  import opened Wrappers
  import opened Colors
  import opened Arith

  // ---------- image shape ----------

  /** Every entry is a byte, as in a Uint8ClampedArray. */
  predicate IsBytes(s: seq<int>)
  {
    forall i :: 0 <= i < |s| ==> IsByte(s[i])
  }

  /** The data of a width × height ImageData. */
  predicate IsImage(s: seq<int>, w: int, h: int)
  {
    0 <= w && 0 <= h && |s| == w * h * 4 && IsBytes(s)
  }

  /** The pixel number of (x, y) in row-major order. */
  function Flat(w: int, x: int, y: int): int
  {
    y * w + x
  }

  lemma FlatInRange(w: int, h: int, x: int, y: int)
    requires 0 <= x < w && 0 <= y < h
    ensures 0 <= Flat(w, x, y) < w * h
    ensures Flat(w, x, y) / w == y && Flat(w, x, y) % w == x
  {
    MulAddOne(y, w);
    MulMonotone(y + 1, h, w);
    MulMonotone(0, y, w);
    DivModUnique(Flat(w, x, y), w, y, x);
  }

  lemma CoordsOf(w: int, h: int, n: int)
    requires 0 <= w && 0 <= h && 0 <= n < w * h
    ensures 0 < w && 0 <= n % w < w && 0 <= n / w < h && Flat(w, n % w, n / w) == n
  {
    MulPositive(w, h);
    assert n == (n / w) * w + n % w;
    assert n - n % w < h * w;
    MulStrict(n / w, h, w);
  }

  /** The RGB of pixel (x, y). */
  function ColorAt(s: seq<int>, w: int, h: int, x: int, y: int): Rgb
    requires |s| == w * h * 4 && 0 <= x < w && 0 <= y < h
  {
    FlatInRange(w, h, x, y);
    var i := Flat(w, x, y) * 4;
    Rgb(s[i], s[i + 1], s[i + 2])
  }

  /** Channel c (0 red … 3 alpha) of the pixel at (x, y). */
  function ByteAt(s: seq<int>, w: int, h: int, x: int, y: int, c: int): int
    requires |s| == w * h * 4 && 0 <= x < w && 0 <= y < h && 0 <= c < 4
  {
    FlatInRange(w, h, x, y);
    s[Flat(w, x, y) * 4 + c]
  }

  // ---------- rounding and clamping ----------

  /** Math.max(lo, Math.min(hi, v)). */
  function Clamp(v: int, lo: int, hi: int): int
    requires lo <= hi
  {
    if v < lo then lo else if v > hi then hi else v
  }

  /** Math.round(p / d): the nearest integer, a half rounded upward. */
  function RoundHalfUp(p: int, d: int): (v: int)
    requires 0 < d
    ensures 2 * d * v - d <= 2 * p < 2 * d * v + d
  {
    (2 * p + d) / (2 * d)
  }

  /**
   * Storing p / d into a Uint8ClampedArray: clamped to [0, 255], then the
   * nearest integer, a half rounded to the even neighbour.
   */
  function ToUint8Clamp(p: int, d: int): (v: int)
    requires 0 < d
    ensures IsByte(v)
  {
    if p <= 0 then 0
    else if p >= 255 * d then 255
    else
      var q, rem := p / d, p % d;
      DivBelow(p, d, 255);
      if 2 * rem < d then q
      else if 2 * rem > d then q + 1
      else if q % 2 == 0 then q
      else q + 1
  }

  /** Between 0 and 255 the stored byte is a nearest integer to p / d, the even one on a tie. */
  lemma ToUint8ClampNearest(p: int, d: int)
    requires 0 < d && 0 < p < 255 * d
    ensures var v := ToUint8Clamp(p, d);
      2 * d * v - d <= 2 * p <= 2 * d * v + d &&
      ((2 * p == 2 * d * v - d || 2 * p == 2 * d * v + d) ==> v % 2 == 0)
  {
    var q, rem := p / d, p % d;
    assert p == q * d + rem;
    MulAddOne(q, d);
    assert 2 * d * q == 2 * (q * d);
    assert 2 * d * (q + 1) == 2 * (q * d) + 2 * d;
  }

  /** A value that lies in [lo, hi] as a fraction p / d is stored as a byte in [lo, hi]. */
  lemma ToUint8ClampBetween(p: int, d: int, lo: int, hi: int)
    requires 0 < d && 0 <= lo <= hi <= 255
    requires lo * d <= p <= hi * d
    ensures lo <= ToUint8Clamp(p, d) <= hi
  {
    var v := ToUint8Clamp(p, d);
    if 0 < p < 255 * d {
      ToUint8ClampNearest(p, d);
      var q, rem := p / d, p % d;
      assert p == q * d + rem;
      MulStrict(q, hi + 1, d) by { MulAddOne(hi, d); }
      if lo > q {
        MulMonotone(q + 1, lo, d);
        MulAddOne(q, d);
      }
      assert lo <= q <= hi;
      if q == hi {
        assert rem == 0;
      }
    } else if p >= 255 * d {
      MulStrict(254, hi, d) by { MulAddOne(254, d); }
    } else {
      MulStrict(lo, 1, d);
    }
  }

  /** A whole number v stored as v·d / d comes back unchanged. */
  lemma ToUint8ClampExact(v: int, d: int)
    requires 0 < d && IsByte(v)
    ensures ToUint8Clamp(v * d, d) == v
  {
    ToUint8ClampBetween(v * d, d, v, v);
  }

  // ---------- per-pixel filters ----------

  /** The RGB of pixel number p. */
  function PixelAt(s: seq<int>, p: int): Rgb
    requires 0 <= p && 4 * p + 2 < |s|
  {
    Rgb(s[4 * p], s[4 * p + 1], s[4 * p + 2])
  }

  /** Byte k of a pixel whose RGB is c and whose alpha is alpha. */
  function Channel(c: Rgb, k: int, alpha: int): int
  {
    if k == 0 then c.r else if k == 1 then c.g else if k == 2 then c.b else alpha
  }

  /** A filter that recolours each pixel from its own R, G, B and never writes alpha. */
  function MapRgb(s: seq<int>, f: Rgb -> Rgb): (r: seq<int>)
    requires |s| % 4 == 0
    ensures |r| == |s|
  {
    seq(|s|, i requires 0 <= i < |s| => Channel(f(PixelAt(s, i / 4)), i % 4, s[i]))
  }

  /** The pixels of MapRgb(s, f) are the transformed pixels of s, with their alpha bytes untouched. */
  lemma MapRgbPixel(s: seq<int>, f: Rgb -> Rgb, p: int)
    requires |s| % 4 == 0 && 0 <= p && 4 * p + 3 < |s|
    ensures PixelAt(MapRgb(s, f), p) == f(PixelAt(s, p))
    ensures MapRgb(s, f)[4 * p + 3] == s[4 * p + 3]
  {
    var r := MapRgb(s, f);
    assert r[4 * p] == Channel(f(PixelAt(s, p)), 0, s[4 * p]);
    assert r[4 * p + 1] == Channel(f(PixelAt(s, p)), 1, s[4 * p + 1]);
    assert r[4 * p + 2] == Channel(f(PixelAt(s, p)), 2, s[4 * p + 2]);
    assert r[4 * p + 3] == Channel(f(PixelAt(s, p)), 3, s[4 * p + 3]);
  }

  /** Byte i of a buffer is byte i % 4 of pixel i / 4. */
  lemma ByteOfPixel(s: seq<int>, i: int)
    requires |s| % 4 == 0 && 0 <= i < |s|
    ensures 4 * (i / 4) + 3 < |s|
    ensures s[i] == Channel(PixelAt(s, i / 4), i % 4, s[i])
  {
  }

  /** filterInvert on one pixel: 255 minus each channel, a byte colour exactly when its input is one. */
  function InvertPixel(c: Rgb): (o: Rgb)
    ensures IsByteColor(c) ==> IsByteColor(o)
    ensures IsByteColor(o) ==> IsByteColor(c)
  {
    Rgb(255 - c.r, 255 - c.g, 255 - c.b)
  }

  /** filterBrightness on one pixel: always a byte colour, and delta 0 keeps a byte colour. */
  function BrightenPixel(c: Rgb, delta: int): (o: Rgb)
    ensures IsByteColor(o)
    ensures IsByteColor(c) && delta == 0 ==> o == c
  {
    Rgb(Clamp(c.r + delta, 0, 255), Clamp(c.g + delta, 0, 255), Clamp(c.b + delta, 0, 255))
  }

  /** Math.round(0.299 R + 0.587 G + 0.114 B), with the coefficients as exact fractions. */
  function Gray(c: Rgb): int
  {
    RoundHalfUp(299 * c.r + 587 * c.g + 114 * c.b, 1000)
  }

  /** filterGrayscale on one pixel: the three channels become the same gray level. */
  function GrayPixel(c: Rgb): (o: Rgb)
    ensures o.r == o.g == o.b == Gray(c)
  {
    var g := Gray(c);
    Rgb(g, g, g)
  }

  /** The sepia matrix, each row rounded with Math.round and capped at 255 with Math.min. */
  function SepiaPixel(c: Rgb): (o: Rgb)
    ensures o.r <= 255 && o.g <= 255 && o.b <= 255
  {
    Rgb(Min(255, RoundHalfUp(393 * c.r + 769 * c.g + 189 * c.b, 1000)),
        Min(255, RoundHalfUp(349 * c.r + 686 * c.g + 168 * c.b, 1000)),
        Min(255, RoundHalfUp(272 * c.r + 534 * c.g + 131 * c.b, 1000)))
  }

  /**
   * One channel of filterContrast: factor = 259(c + 255) / (255(259 - c)),
   * v' = factor · (v - 128) + 128, clamped to [0, 255] and stored.
   * At c = 259 the factor is +Infinity: channels above 128 saturate to 255,
   * those below to 0, and 128 gives Infinity · 0 = NaN, which is stored as 0.
   */
  function ContrastChannel(v: int, amount: int): (r: int)
    ensures IsByte(r)
  {
    var num := 259 * (amount + 255);
    var den := 255 * (259 - amount);
    if den == 0 then (if v > 128 then 255 else 0)
    else if den > 0 then ToUint8Clamp(num * (v - 128) + 128 * den, den)
    else ToUint8Clamp(-(num * (v - 128) + 128 * den), -den)
  }

  function ContrastPixel(c: Rgb, amount: int): Rgb
  {
    Rgb(ContrastChannel(c.r, amount), ContrastChannel(c.g, amount), ContrastChannel(c.b, amount))
  }

  /**
   * filterGrayscale, filterSepia, filterInvert, filterBrightness and
   * filterContrast all walk the buffer four bytes at a time and rewrite R, G
   * and B of each pixel in place from that pixel's old R, G and B.
   */
  method TransformPixels(data: array<int>, f: Rgb -> Rgb)
    requires data.Length % 4 == 0
    modifies data
    ensures data[..] == MapRgb(old(data[..]), f)
  {
    ghost var s := data[..];
    var i := 0;
    while i < data.Length
      invariant 0 <= i <= data.Length && i % 4 == 0
      invariant forall k :: 0 <= k < i ==> data[k] == MapRgb(s, f)[k]
      invariant forall k :: i <= k < data.Length ==> data[k] == s[k]
    {
      var out := f(Rgb(data[i], data[i + 1], data[i + 2]));
      MapRgbPixel(s, f, i / 4);
      data[i] := out.r;
      data[i + 1] := out.g;
      data[i + 2] := out.b;
      i := i + 4;
    }
  }

  /** Invert twice restores every byte. */
  lemma {:induction false} InvertTwice(s: seq<int>)
    requires |s| % 4 == 0
    ensures MapRgb(MapRgb(s, InvertPixel), InvertPixel) == s
  {
    var once := MapRgb(s, InvertPixel);
    var twice := MapRgb(once, InvertPixel);
    forall i | 0 <= i < |s| ensures twice[i] == s[i] {
      var p := i / 4;
      ByteOfPixel(s, i);
      MapRgbPixel(s, InvertPixel, p);
      MapRgbPixel(once, InvertPixel, p);
    }
  }

  /** Invert keeps an image an image and leaves every alpha byte as it was. */
  lemma {:induction false} InvertKeepsAlpha(s: seq<int>, w: int, h: int)
    requires IsImage(s, w, h)
    ensures IsImage(MapRgb(s, InvertPixel), w, h)
    ensures forall p :: 0 <= p < |s| / 4 ==> MapRgb(s, InvertPixel)[4 * p + 3] == s[4 * p + 3]
  {
    var r := MapRgb(s, InvertPixel);
    forall i | 0 <= i < |s| ensures IsByte(r[i]) {
      ByteOfPixel(s, i);
      var c := PixelAt(s, i / 4);
      assert IsByteColor(c);
      assert r[i] == Channel(InvertPixel(c), i % 4, s[i]);
    }
    forall p | 0 <= p < |s| / 4 ensures r[4 * p + 3] == s[4 * p + 3] {
      MapRgbPixel(s, InvertPixel, p);
    }
  }

  /**
   * filterBrightness: each R, G, B byte becomes clamp(old + delta, 0, 255)
   * and alpha is unchanged.
   */
  lemma {:induction false} BrightnessChannels(s: seq<int>, delta: int)
    requires |s| % 4 == 0
    ensures var r := MapRgb(s, c => BrightenPixel(c, delta));
      forall i :: 0 <= i < |s| ==> r[i] == (if i % 4 == 3 then s[i] else Clamp(s[i] + delta, 0, 255))
  {
    var f := c => BrightenPixel(c, delta);
    var r := MapRgb(s, f);
    forall i | 0 <= i < |s| ensures r[i] == (if i % 4 == 3 then s[i] else Clamp(s[i] + delta, 0, 255)) {
      ByteOfPixel(s, i);
      MapRgbPixel(s, f, i / 4);
    }
  }

  /** Brightness 0 leaves an image of bytes unchanged. */
  lemma {:induction false} BrightnessZero(s: seq<int>)
    requires |s| % 4 == 0 && IsBytes(s)
    ensures MapRgb(s, c => BrightenPixel(c, 0)) == s
  {
    BrightnessChannels(s, 0);
  }

  /**
   * A delta of at least 255 turns every R, G, B byte of a byte buffer into
   * 255, and one of at most -255 turns each into 0; alpha is kept.
   */
  lemma {:induction false} BrightnessSaturates(s: seq<int>, delta: int)
    requires |s| % 4 == 0 && IsBytes(s)
    ensures var r := MapRgb(s, c => BrightenPixel(c, delta));
      delta >= 255 ==> forall i :: 0 <= i < |s| && i % 4 != 3 ==> r[i] == 255
    ensures var r := MapRgb(s, c => BrightenPixel(c, delta));
      delta <= -255 ==> forall i :: 0 <= i < |s| && i % 4 != 3 ==> r[i] == 0
    ensures var r := MapRgb(s, c => BrightenPixel(c, delta));
      forall i :: 0 <= i < |s| && i % 4 == 3 ==> r[i] == s[i]
  {
    BrightnessChannels(s, delta);
  }

  /** The grey level lies between the smallest and the largest channel. */
  lemma GrayBetween(c: Rgb, lo: int, hi: int)
    requires lo <= c.r <= hi && lo <= c.g <= hi && lo <= c.b <= hi
    ensures lo <= Gray(c) <= hi
  {
    var p := 299 * c.r + 587 * c.g + 114 * c.b;
    assert 1000 * lo <= p <= 1000 * hi;
    var g := Gray(c);
    assert 2000 * g - 1000 <= 2 * p < 2000 * g + 1000;
  }

  /**
   * After grayscale, R = G = B, that common value lies between the pixel's
   * old smallest and largest channel, and alpha is kept.
   */
  lemma {:induction false} GrayscaleStructure(s: seq<int>, p: int)
    requires |s| % 4 == 0 && 0 <= p && 4 * p + 3 < |s|
    ensures var r := MapRgb(s, GrayPixel);
      r[4 * p] == r[4 * p + 1] == r[4 * p + 2] && r[4 * p + 3] == s[4 * p + 3] &&
      Min(s[4 * p], Min(s[4 * p + 1], s[4 * p + 2])) <= r[4 * p] <= Max(s[4 * p], Max(s[4 * p + 1], s[4 * p + 2]))
  {
    var c := PixelAt(s, p);
    MapRgbPixel(s, GrayPixel, p);
    GrayBetween(c, Min(c.r, Min(c.g, c.b)), Max(c.r, Max(c.g, c.b)));
  }

  lemma RoundHalfUpMonotone(p: int, q: int, d: int)
    requires 0 < d && p <= q
    ensures RoundHalfUp(p, d) <= RoundHalfUp(q, d)
  {
    DivMonotone(2 * p + d, 2 * q + d, 2 * d);
  }

  /** Sepia of a byte colour is a byte colour whose red is at least its green and whose green is at least its blue. */
  lemma SepiaOrdered(c: Rgb)
    requires IsByteColor(c)
    ensures var o := SepiaPixel(c); IsByteColor(o) && o.r >= o.g >= o.b
  {
    var r, g, b := c.r, c.g, c.b;
    var pr, pg, pb := 393 * r + 769 * g + 189 * b, 349 * r + 686 * g + 168 * b, 272 * r + 534 * g + 131 * b;
    assert 0 <= pb <= pg <= pr;
    RoundHalfUpMonotone(pg, pr, 1000);
    RoundHalfUpMonotone(pb, pg, 1000);
    RoundHalfUpMonotone(0, pb, 1000);
    assert RoundHalfUp(0, 1000) == 0;
  }

  /** Contrast 0 has factor exactly 1 and leaves every byte alone. */
  lemma ContrastZero(v: int)
    requires IsByte(v)
    ensures ContrastChannel(v, 0) == v
  {
    assert 259 * 255 * (v - 128) + 128 * (255 * 259) == v * 66045;
    ToUint8ClampExact(v, 66045);
  }

  /** Contrast -255 has factor 0: every channel becomes 128. */
  lemma ContrastFlat(v: int)
    ensures ContrastChannel(v, -255) == 128
  {
    ToUint8ClampExact(128, 255 * 514);
  }

  // ---------- box blur ----------

  /** The loop `for (d = -radius; d <= radius; d++)` runs this many times. */
  function Side(radius: int): nat
  {
    if radius < 0 then 0 else 2 * radius + 1
  }

  predicate OnCanvas(w: int, h: int, x: int, y: int)
  {
    0 <= x < w && 0 <= y < h
  }

  /** Channel c of the pixel at (nx, ny), or nothing when that position is off the canvas. */
  function Tap(s: seq<int>, w: int, h: int, nx: int, ny: int, c: int): int
    requires |s| == w * h * 4 && 0 <= c < 4
  {
    if OnCanvas(w, h, nx, ny) then
      FlatInRange(w, h, nx, ny);
      s[Flat(w, nx, ny) * 4 + c]
    else 0
  }

  /** Sum of channel c over the first k positions dx = -radius, -radius + 1, … of row ny. */
  function RowSum(s: seq<int>, w: int, h: int, x: int, ny: int, radius: int, k: nat, c: int): int
    requires |s| == w * h * 4 && 0 <= c < 4
  {
    if k == 0 then 0 else RowSum(s, w, h, x, ny, radius, k - 1, c) + Tap(s, w, h, x - radius + k - 1, ny, c)
  }

  /** How many of those positions are on the canvas. */
  function RowCount(w: int, h: int, x: int, ny: int, radius: int, k: nat): int
  {
    if k == 0 then 0
    else RowCount(w, h, x, ny, radius, k - 1) + (if OnCanvas(w, h, x - radius + k - 1, ny) then 1 else 0)
  }

  /** Sum of channel c over the first j rows dy = -radius, … of the window around (x, y). */
  function WindowSum(s: seq<int>, w: int, h: int, x: int, y: int, radius: int, j: nat, c: int): int
    requires |s| == w * h * 4 && 0 <= c < 4
  {
    if j == 0 then 0
    else WindowSum(s, w, h, x, y, radius, j - 1, c) + RowSum(s, w, h, x, y - radius + j - 1, radius, Side(radius), c)
  }

  function WindowCount(w: int, h: int, x: int, y: int, radius: int, j: nat): int
  {
    if j == 0 then 0
    else WindowCount(w, h, x, y, radius, j - 1) + RowCount(w, h, x, y - radius + j - 1, radius, Side(radius))
  }

  /** `sum / count` stored into a Uint8ClampedArray; 0 / 0 is NaN, which is stored as 0. */
  function StoreQuotient(sum: int, count: int): int
  {
    if count <= 0 then 0 else ToUint8Clamp(sum, count)
  }

  /** Channel c of pixel (x, y) after filterBlur. */
  function BlurValue(s: seq<int>, w: int, h: int, radius: int, x: int, y: int, c: int): int
    requires |s| == w * h * 4 && 0 <= c < 4
  {
    StoreQuotient(WindowSum(s, w, h, x, y, radius, Side(radius), c), WindowCount(w, h, x, y, radius, Side(radius)))
  }

  /** Channel c of pixel number p after filterBlur. */
  function BlurByte(s: seq<int>, w: int, h: int, radius: int, p: int, c: int): int
    requires 0 <= w && 0 <= h && |s| == w * h * 4 && 0 <= p < w * h && 0 <= c < 4
  {
    CoordsOf(w, h, p);
    BlurValue(s, w, h, radius, p % w, p / w, c)
  }

  /** The whole buffer after filterBlur. */
  function Blurred(s: seq<int>, w: int, h: int, radius: int): (r: seq<int>)
    requires 0 <= w && 0 <= h && |s| == w * h * 4
    ensures |r| == |s|
  {
    seq(|s|, i requires 0 <= i < |s| => BlurByte(s, w, h, radius, i / 4, i % 4))
  }

  lemma BlurredAt(s: seq<int>, w: int, h: int, radius: int, x: int, y: int)
    requires 0 <= w && 0 <= h && |s| == w * h * 4 && OnCanvas(w, h, x, y)
    ensures 0 <= 4 * Flat(w, x, y) && 4 * Flat(w, x, y) + 3 < |s|
    ensures forall c :: 0 <= c < 4 ==> Blurred(s, w, h, radius)[4 * Flat(w, x, y) + c] == BlurValue(s, w, h, radius, x, y, c)
  {
    FlatInRange(w, h, x, y);
    var p := Flat(w, x, y);
    forall c | 0 <= c < 4
      ensures Blurred(s, w, h, radius)[4 * p + c] == BlurValue(s, w, h, radius, x, y, c)
    {
      assert (4 * p + c) / 4 == p && (4 * p + c) % 4 == c;
    }
  }

  /**
   * filterBlur: every pixel becomes the average of the clipped square window
   * of side 2·radius + 1 around it, written into a copy of the data.
   */
  method FilterBlur(data: array<int>, w: int, h: int, radius: int) returns (result: array<int>)
    requires 0 <= w && 0 <= h && data.Length == w * h * 4
    ensures fresh(result)
    ensures result[..] == Blurred(data[..], w, h, radius)
  {
    result := new int[data.Length](i requires 0 <= i < data.Length reads data => data[i]);
    ghost var t := Blurred(data[..], w, h, radius);
    var y := 0;
    ghost var start := 0;
    while y < h
      invariant 0 <= y <= h && result.Length == data.Length
      invariant start == y * w && 0 <= start
      invariant forall k :: 0 <= k < 4 * start ==> result[k] == t[k]
    {
      MulAddOne(y, w);
      MulMonotone(y + 1, h, w);
      assert start + w <= h * w;
      BlurRow(data, result, w, h, radius, y, start);
      y := y + 1;
      start := start + w;
    }
    assert 4 * start == result.Length;
  }

  /** One pass of filterBlur's `x` loop: row y of the result, pixels start .. start + w - 1. */
  method BlurRow(data: array<int>, result: array<int>, w: int, h: int, radius: int, y: int, ghost start: int)
    requires 0 <= w && 0 <= y < h && data.Length == w * h * 4 && result.Length == data.Length
    requires data != result && start == y * w && 0 <= start && start + w <= w * h
    requires forall k :: 0 <= k < 4 * start ==> result[k] == Blurred(data[..], w, h, radius)[k]
    modifies result
    ensures forall k :: 0 <= k < 4 * (start + w) ==> result[k] == Blurred(data[..], w, h, radius)[k]
  {
    ghost var s := data[..];
    ghost var t := Blurred(s, w, h, radius);
    var x := 0;
    while x < w
      invariant 0 <= x <= w && data[..] == s
      invariant forall k :: 0 <= k < 4 * (start + x) ==> result[k] == t[k]
    {
      var r, g, b, a, count := BlurWindow(data, w, h, radius, x, y);
      BlurredAt(s, w, h, radius, x, y);
      var index := (y * w + x) * 4;
      assert index == 4 * (start + x) == 4 * Flat(w, x, y);
      result[index] := StoreQuotient(r, count);
      result[index + 1] := StoreQuotient(g, count);
      result[index + 2] := StoreQuotient(b, count);
      result[index + 3] := StoreQuotient(a, count);
      forall k | 4 * (start + x) <= k < 4 * (start + x + 1)
        ensures result[k] == t[k]
      {
        assert t[k] == BlurValue(s, w, h, radius, x, y, k - index);
      }
      x := x + 1;
    }
  }

  /** The two inner loops of filterBlur: channel sums and sample count over the window around (x, y). */
  method BlurWindow(data: array<int>, w: int, h: int, radius: int, x: int, y: int)
    returns (r: int, g: int, b: int, a: int, count: int)
    requires 0 <= w && 0 <= h && data.Length == w * h * 4
    ensures r == WindowSum(data[..], w, h, x, y, radius, Side(radius), 0)
    ensures g == WindowSum(data[..], w, h, x, y, radius, Side(radius), 1)
    ensures b == WindowSum(data[..], w, h, x, y, radius, Side(radius), 2)
    ensures a == WindowSum(data[..], w, h, x, y, radius, Side(radius), 3)
    ensures count == WindowCount(w, h, x, y, radius, Side(radius))
  {
    ghost var s := data[..];
    r, g, b, a, count := 0, 0, 0, 0, 0;
    var dy := -radius;
    while dy <= radius
      invariant -radius <= dy && (0 <= radius ==> dy <= radius + 1) && (radius < 0 ==> dy == -radius)
      invariant r == WindowSum(s, w, h, x, y, radius, dy + radius, 0)
      invariant g == WindowSum(s, w, h, x, y, radius, dy + radius, 1)
      invariant b == WindowSum(s, w, h, x, y, radius, dy + radius, 2)
      invariant a == WindowSum(s, w, h, x, y, radius, dy + radius, 3)
      invariant count == WindowCount(w, h, x, y, radius, dy + radius)
    {
      var dx := -radius;
      ghost var r0, g0, b0, a0, count0 := r, g, b, a, count;
      while dx <= radius
        invariant -radius <= dx <= radius + 1
        invariant r == r0 + RowSum(s, w, h, x, y + dy, radius, dx + radius, 0)
        invariant g == g0 + RowSum(s, w, h, x, y + dy, radius, dx + radius, 1)
        invariant b == b0 + RowSum(s, w, h, x, y + dy, radius, dx + radius, 2)
        invariant a == a0 + RowSum(s, w, h, x, y + dy, radius, dx + radius, 3)
        invariant count == count0 + RowCount(w, h, x, y + dy, radius, dx + radius)
      {
        var nx := x + dx;
        var ny := y + dy;
        if nx >= 0 && nx < w && ny >= 0 && ny < h {
          FlatInRange(w, h, nx, ny);
          var index := (ny * w + nx) * 4;
          r := r + data[index];
          g := g + data[index + 1];
          b := b + data[index + 2];
          a := a + data[index + 3];
          count := count + 1;
        }
        dx := dx + 1;
      }
      dy := dy + 1;
    }
  }

  /** The sums along a row stay between count·lo and count·hi when every sample on the canvas does. */
  lemma {:induction false} RowSumBetween(s: seq<int>, w: int, h: int, x: int, ny: int, radius: int, k: nat, c: int, lo: int, hi: int)
    requires |s| == w * h * 4 && 0 <= c < 4 && lo <= hi
    requires forall nx :: x - radius <= nx < x - radius + k && OnCanvas(w, h, nx, ny) ==> lo <= Tap(s, w, h, nx, ny, c) <= hi
    ensures lo * RowCount(w, h, x, ny, radius, k) <= RowSum(s, w, h, x, ny, radius, k, c) <= hi * RowCount(w, h, x, ny, radius, k)
    ensures 0 <= RowCount(w, h, x, ny, radius, k)
  {
    if k > 0 {
      RowSumBetween(s, w, h, x, ny, radius, k - 1, c, lo, hi);
      var nx := x - radius + k - 1;
      var n := RowCount(w, h, x, ny, radius, k - 1);
      if OnCanvas(w, h, nx, ny) {
        assert lo <= Tap(s, w, h, nx, ny, c) <= hi;
        MulAddOne(n, lo);
        MulAddOne(n, hi);
        assert lo * (n + 1) == lo * n + lo && hi * (n + 1) == hi * n + hi;
      }
    }
  }

  lemma {:induction false} WindowSumBetween(s: seq<int>, w: int, h: int, x: int, y: int, radius: int, j: nat, c: int, lo: int, hi: int)
    requires |s| == w * h * 4 && 0 <= c < 4 && lo <= hi
    requires forall nx, ny :: InWindow(x, y, radius, nx, ny) && OnCanvas(w, h, nx, ny) ==> lo <= Tap(s, w, h, nx, ny, c) <= hi
    requires j <= Side(radius)
    ensures lo * WindowCount(w, h, x, y, radius, j) <= WindowSum(s, w, h, x, y, radius, j, c) <= hi * WindowCount(w, h, x, y, radius, j)
    ensures 0 <= WindowCount(w, h, x, y, radius, j)
  {
    if j > 0 {
      WindowSumBetween(s, w, h, x, y, radius, j - 1, c, lo, hi);
      var ny := y - radius + j - 1;
      forall nx | x - radius <= nx < x - radius + Side(radius) && OnCanvas(w, h, nx, ny)
        ensures lo <= Tap(s, w, h, nx, ny, c) <= hi
      {
        assert InWindow(x, y, radius, nx, ny);
      }
      RowSumBetween(s, w, h, x, ny, radius, Side(radius), c, lo, hi);
      var before, row := WindowCount(w, h, x, y, radius, j - 1), RowCount(w, h, x, ny, radius, Side(radius));
      assert WindowCount(w, h, x, y, radius, j) == before + row;
      assert WindowSum(s, w, h, x, y, radius, j, c) ==
        WindowSum(s, w, h, x, y, radius, j - 1, c) + RowSum(s, w, h, x, ny, radius, Side(radius), c);
      MulAdd(lo, before, row);
      MulAdd(hi, before, row);
    }
  }

  /** (nx, ny) lies in the square of side 2·radius + 1 centred on (x, y). */
  predicate InWindow(x: int, y: int, radius: int, nx: int, ny: int)
  {
    x - radius <= nx <= x + radius && y - radius <= ny <= y + radius
  }

  lemma {:induction false} RowCountHasCentre(w: int, h: int, x: int, ny: int, radius: int, k: nat)
    requires 0 <= radius && radius < k && OnCanvas(w, h, x, ny)
    ensures RowCount(w, h, x, ny, radius, k) >= 1
  {
    if k - 1 > radius {
      RowCountHasCentre(w, h, x, ny, radius, k - 1);
    } else {
      RowCountNonNegative(w, h, x, ny, radius, k - 1);
    }
  }

  lemma {:induction false} RowCountNonNegative(w: int, h: int, x: int, ny: int, radius: int, k: nat)
    ensures RowCount(w, h, x, ny, radius, k) >= 0
  {
    if k > 0 { RowCountNonNegative(w, h, x, ny, radius, k - 1); }
  }

  lemma {:induction false} WindowCountHasCentre(w: int, h: int, x: int, y: int, radius: int, j: nat)
    requires 0 <= radius && radius < j <= Side(radius) && OnCanvas(w, h, x, y)
    ensures WindowCount(w, h, x, y, radius, j) >= 1
  {
    if j - 1 > radius {
      WindowCountHasCentre(w, h, x, y, radius, j - 1);
      RowCountNonNegative(w, h, x, y - radius + j - 1, radius, Side(radius));
    } else {
      WindowCountNonNegative(w, h, x, y, radius, j - 1);
      RowCountHasCentre(w, h, x, y, radius, Side(radius));
    }
  }

  lemma {:induction false} WindowCountNonNegative(w: int, h: int, x: int, y: int, radius: int, j: nat)
    ensures WindowCount(w, h, x, y, radius, j) >= 0
  {
    if j > 0 {
      WindowCountNonNegative(w, h, x, y, radius, j - 1);
      RowCountNonNegative(w, h, x, y - radius + j - 1, radius, Side(radius));
    }
  }

  /**
   * Blur averages a non-empty window (the centre pixel is always on the
   * canvas), and each output channel lies between any bounds that hold for
   * that channel on every pixel of the clipped window: in particular between
   * its minimum and its maximum there.
   */
  lemma BlurBetween(s: seq<int>, w: int, h: int, radius: int, x: int, y: int, c: int, lo: int, hi: int)
    requires IsImage(s, w, h) && 0 <= radius && OnCanvas(w, h, x, y) && 0 <= c < 4
    requires 0 <= lo <= hi <= 255
    requires forall nx, ny :: InWindow(x, y, radius, nx, ny) && OnCanvas(w, h, nx, ny) ==> lo <= Tap(s, w, h, nx, ny, c) <= hi
    ensures WindowCount(w, h, x, y, radius, Side(radius)) >= 1
    ensures lo <= BlurValue(s, w, h, radius, x, y, c) <= hi
  {
    WindowCountHasCentre(w, h, x, y, radius, Side(radius));
    WindowSumBetween(s, w, h, x, y, radius, Side(radius), c, lo, hi);
    var n := WindowCount(w, h, x, y, radius, Side(radius));
    ToUint8ClampBetween(WindowSum(s, w, h, x, y, radius, Side(radius), c), n, lo, hi);
  }

  /** Blur keeps an image an image of the same size. */
  lemma BlurKeepsImage(s: seq<int>, w: int, h: int, radius: int)
    requires IsImage(s, w, h)
    ensures IsImage(Blurred(s, w, h, radius), w, h)
  {
  }

  /** Radius 0 averages each pixel with itself alone: the image is unchanged. */
  lemma {:induction false} BlurRadiusZero(s: seq<int>, w: int, h: int)
    requires IsImage(s, w, h)
    ensures Blurred(s, w, h, 0) == s
  {
    var r := Blurred(s, w, h, 0);
    forall i | 0 <= i < |s| ensures r[i] == s[i] {
      var p := i / 4;
      CoordsOf(w, h, p);
      var x, y, c := p % w, p / w, i % 4;
      BlurredAt(s, w, h, 0, x, y);
      assert i == 4 * Flat(w, x, y) + c;
      assert RowSum(s, w, h, x, y, 0, 1, c) == Tap(s, w, h, x, y, c) == s[i];
      assert WindowSum(s, w, h, x, y, 0, 1, c) == s[i];
      assert RowCount(w, h, x, y, 0, 1) == 1;
      assert WindowCount(w, h, x, y, 0, 1) == 1;
      ToUint8ClampExact(s[i], 1);
    }
  }

  /** A negative radius runs no sampling loop: every byte, alpha included, becomes 0 / 0, stored as 0. */
  lemma BlurNegativeRadius(s: seq<int>, w: int, h: int, radius: int)
    requires 0 <= w && 0 <= h && |s| == w * h * 4 && radius < 0
    ensures forall i :: 0 <= i < |s| ==> Blurred(s, w, h, radius)[i] == 0
  {
  }

  // ---------- processImageData ----------

  datatype Filter = Grayscale | Sepia | Invert | Brightness(delta: int) | Contrast(amount: int) | Blur(radius: int)

  /** `params[0] || fallback`: a missing or zero first parameter takes the fallback. */
  function FirstParamOr(params: seq<int>, fallback: int): int
  {
    if |params| == 0 || params[0] == 0 then fallback else params[0]
  }

  /**
   * The switch of processImageData; an unknown name is `null`. Exactly the
   * six names are accepted; brightness and contrast take `params[0] || 0`,
   * which is params[0] when there is one, and blur's `params[0] || 1` never
   * gives radius 0.
   */
  function ParseFilter(name: string, params: seq<int>): (f: Option<Filter>)
    ensures f.Some? <==> name in FilterNames
    ensures name == "brightness" ==> f == Some(Brightness(if |params| == 0 then 0 else params[0]))
    ensures name == "contrast" ==> f == Some(Contrast(if |params| == 0 then 0 else params[0]))
    ensures f.Some? && f.value.Blur? ==> f.value.radius != 0
  {
    if name == "grayscale" then Some(Grayscale)
    else if name == "sepia" then Some(Sepia)
    else if name == "invert" then Some(Invert)
    else if name == "brightness" then Some(Brightness(FirstParamOr(params, 0)))
    else if name == "contrast" then Some(Contrast(FirstParamOr(params, 0)))
    else if name == "blur" then Some(Blur(FirstParamOr(params, 1)))
    else None
  }

  const FilterNames: set<string> := {"grayscale", "sepia", "invert", "brightness", "contrast", "blur"}

  /** The per-pixel transform of each filter other than blur. */
  function PixelTransform(f: Filter): Rgb -> Rgb
    requires !f.Blur?
  {
    match f
    case Grayscale => GrayPixel
    case Sepia => SepiaPixel
    case Invert => InvertPixel
    case Brightness(delta) => c => BrightenPixel(c, delta)
    case Contrast(amount) => c => ContrastPixel(c, amount)
  }

  /** The data a filter produces from an image. */
  function Apply(f: Filter, s: seq<int>, w: int, h: int): (r: seq<int>)
    requires 0 <= w && 0 <= h && |s| == w * h * 4
    ensures |r| == |s|
  {
    if f.Blur? then Blurred(s, w, h, f.radius) else MapRgb(s, PixelTransform(f))
  }

  /**
   * processImageData: copy the data, run the named filter on the copy, and
   * return the new data, or None for an unknown filter name.
   */
  method ProcessImageData(data: seq<int>, w: int, h: int, name: string, params: seq<int>)
    returns (result: Option<seq<int>>)
    requires 0 <= w && 0 <= h && |data| == w * h * 4
    ensures result.None? <==> name !in FilterNames
    ensures result.Some? ==> result.value == Apply(ParseFilter(name, params).value, data, w, h)
  {
    var filter := ParseFilter(name, params);
    if filter.None? {
      return None;
    }
    var copy := new int[|data|](i requires 0 <= i < |data| => data[i]);
    assert copy[..] == data;
    match filter.value {
      case Blur(radius) =>
        var blurred := FilterBlur(copy, w, h, radius);
        result := Some(blurred[..]);
      case _ =>
        TransformPixels(copy, PixelTransform(filter.value));
        result := Some(copy[..]);
    }
  }

  /** Every per-pixel transform maps byte colours to byte colours. */
  lemma TransformKeepsBytes(f: Filter, c: Rgb)
    requires !f.Blur? && IsByteColor(c)
    ensures IsByteColor(PixelTransform(f)(c))
  {
    match f
    case Sepia => SepiaOrdered(c);
    case Grayscale => GrayBetween(c, 0, 255);
    case _ =>
  }

  /** Every filter keeps an image an image of the same size. */
  lemma {:induction false} ApplyKeepsImage(f: Filter, s: seq<int>, w: int, h: int)
    requires IsImage(s, w, h)
    ensures IsImage(Apply(f, s, w, h), w, h)
  {
    if !f.Blur? {
      var t := PixelTransform(f);
      var r := MapRgb(s, t);
      forall i | 0 <= i < |s| ensures IsByte(r[i]) {
        var p := i / 4;
        ByteOfPixel(s, i);
        ByteOfPixel(r, i);
        MapRgbPixel(s, t, p);
        TransformKeepsBytes(f, PixelAt(s, p));
      }
    }
  }

  // ---------- getPixelColor ----------

  /**
   * getPixelColor over the displayed canvas: `#000000` off the canvas,
   * otherwise the `#rrggbb` of the pixel at the floored position.
   */
  function GetPixelColor(screen: seq<int>, w: int, h: int, x: real, y: real): (color: string)
    requires IsImage(screen, w, h)
    ensures |color| == 7 && IsHexColor(color)
    ensures HexToRgb(color) ==
      if OnCanvas(w, h, x.Floor, y.Floor) then ColorAt(screen, w, h, x.Floor, y.Floor) else Black
  {
    var px, py := x.Floor, y.Floor;
    if px < 0 || py < 0 || px >= w || py >= h then
      RgbToHexShape(0, 0, 0);
      HexRoundTrip(0, 0, 0);
      "#000000"
    else
      var c := ColorAt(screen, w, h, px, py);
      FlatInRange(w, h, px, py);
      RgbToHexShape(c.r, c.g, c.b);
      HexRoundTrip(c.r, c.g, c.b);
      RgbToHex(c.r, c.g, c.b)
  }
}

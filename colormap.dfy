/**
 * The colour classifier of scripts/geotiff2mbtiles.py (apply_color_gradient):
 * each scalar sample becomes an RGBA pixel under a piecewise-linear ramp with
 * a transparent band [lo, hi]. Samples are reals; NaN is a separate value.
 */
module ColorMap {
  import opened Wrappers

  /** A sample as read from the raster: None stands for NaN. */
  type Sample = Option<real>

  /** The ramp parameters: min_val, max_val and transparent_range = (lo, hi). */
  datatype Ramp = Ramp(minVal: real, maxVal: real, lo: real, hi: real)

  /** The values the conversion uses: min -3, max 3, transparent band (-1, 1). */
  const DefaultRamp: Ramp := Ramp(-3.0, 3.0, -1.0, 1.0)

  /** Every stretch of the ramp in its place: min <= lo <= hi <= max. */
  predicate Ordered(ramp: Ramp) {
    ramp.minVal <= ramp.lo <= ramp.hi <= ramp.maxVal
  }

  datatype Rgba = Rgba(r: int, g: int, b: int, a: int)

  predicate IsByte(x: int) { 0 <= x < 256 }

  predicate InByteRange(c: Rgba) {
    IsByte(c.r) && IsByte(c.g) && IsByte(c.b) && IsByte(c.a)
  }

  const Transparent: Rgba := Rgba(0, 0, 0, 0)
  /** Colour at and below min_val. */
  const DarkBlue: Rgba := Rgba(0, 0, 139, 255)
  /** Colour at lo. */
  const Turquoise: Rgba := Rgba(64, 224, 208, 255)
  /** Colour at hi. */
  const Yellow: Rgba := Rgba(255, 255, 0, 255)
  /** Colour at and above max_val. */
  const DarkRed: Rgba := Rgba(139, 0, 0, 255)

  /** np.nan_to_num(x, nan=0.0) */
  function Clean(s: Sample): real {
    match s
    case None => 0.0
    case Some(v) => v
  }

  /** np.clip(t, 0, 1) */
  function Clip01(t: real): (c: real)
    ensures 0.0 <= c <= 1.0
    ensures 0.0 <= t <= 1.0 ==> c == t
  {
    if t < 0.0 then 0.0 else if t > 1.0 then 1.0 else t
  }

  /**
   * `.astype(np.uint8)` of a non-negative float: truncation, taken modulo 256
   * (numpy leaves larger values to the platform; the ramp never produces one).
   */
  function ToUint8(x: real): (b: int)
    requires 0.0 <= x
    ensures IsByte(b)
    ensures x < 256.0 ==> b == x.Floor
  {
    x.Floor % 256
  }

  /** `t * (to - from) + from`, truncated to uint8: one channel of a linear ramp from `from` to `to`. */
  function Channel(from: int, to: int, t: real): (c: int)
    requires IsByte(from) && IsByte(to) && 0.0 <= t <= 1.0
    ensures IsByte(c)
    ensures c == (t * (to - from) as real + from as real).Floor
  {
    LerpBounds(from, to, t);
    ToUint8(t * (to - from) as real + from as real)
  }

  lemma MulNonNegative(a: real, b: real)
    requires 0.0 <= a && 0.0 <= b
    ensures 0.0 <= a * b
  {
  }

  lemma LerpBounds(from: int, to: int, t: real)
    requires IsByte(from) && IsByte(to) && 0.0 <= t <= 1.0
    ensures 0.0 <= t * (to - from) as real + from as real <= 255.0
  {
    var f, g, d := from as real, to as real, (to - from) as real;
    assert d == g - f;
    assert 0.0 <= f <= 255.0 && 0.0 <= g <= 255.0;
    var x := t * d + f;
    if d >= 0.0 {
      MulNonNegative(1.0 - t, d);
      MulNonNegative(t, d);
      assert (1.0 - t) * d == d - t * d;
      assert 0.0 <= t * d <= d;
      assert f <= x <= g;
    } else {
      MulNonNegative(1.0 - t, -d);
      MulNonNegative(t, -d);
      assert (1.0 - t) * (-d) == t * d - d && t * (-d) == -(t * d);
      assert d <= t * d <= 0.0;
      assert g <= x <= f;
    }
    assert 0.0 <= x <= 255.0;
  }

  /** The colour at fraction t of the way from `from` to `to`, opaque. */
  function Ramped(from: Rgba, to: Rgba, t: real): Rgba
    requires InByteRange(from) && InByteRange(to) && 0.0 <= t <= 1.0
  {
    Rgba(Channel(from.r, to.r, t), Channel(from.g, to.g, t), Channel(from.b, to.b, t), 255)
  }

  /**
   * The colour of one cleaned sample, as the masked writes of
   * apply_color_gradient leave it when at least one pixel of the raster is
   * opaque. The masks are written in the order cold ramp, warm ramp, below
   * min, above max; a later mask overwrites all four channels of an earlier
   * one, so the tests here run in the opposite order.
   */
  function PixelColor(ramp: Ramp, v: real): (c: Rgba)
    ensures InByteRange(c)
    ensures c.a == 0 || c.a == 255
  {
    if v > ramp.maxVal then DarkRed
    else if v < ramp.minVal then DarkBlue
    else if v > ramp.hi then
      // hi < v <= max, so max - hi > 0
      Ramped(DarkRed, Yellow, 1.0 - Clip01((v - ramp.hi) / (ramp.maxVal - ramp.hi)))
    else if v < ramp.lo then
      // min <= v < lo, so lo - min > 0
      Ramped(DarkBlue, Turquoise, Clip01((v - ramp.minVal) / (ramp.lo - ramp.minVal)))
    else Transparent
  }

  /** opaque_mask: the sample lies outside the transparent band. */
  predicate Opaque(ramp: Ramp, v: real) {
    v < ramp.lo || v > ramp.hi
  }

  /** Alpha is 255 exactly outside the band [lo, hi]; inside, the pixel is (0, 0, 0, 0). */
  lemma AlphaRule(ramp: Ramp, v: real)
    requires Ordered(ramp)
    ensures PixelColor(ramp, v).a == 255 <==> Opaque(ramp, v)
    ensures !Opaque(ramp, v) ==> PixelColor(ramp, v) == Transparent
  {
  }

  /** NaN is cleaned to 0, which the default ramp leaves transparent. */
  lemma NaNIsTransparent()
    ensures PixelColor(DefaultRamp, Clean(None)) == Transparent
  {
  }

  /** The fraction of the cold ramp covered at v: (v - min) / (lo - min). */
  function ColdFraction(ramp: Ramp, v: real): real
    requires ramp.minVal < ramp.lo
  {
    (v - ramp.minVal) / (ramp.lo - ramp.minVal)
  }

  /** The fraction of the warm ramp covered at v: (v - hi) / (max - hi). */
  function WarmFraction(ramp: Ramp, v: real): real
    requires ramp.hi < ramp.maxVal
  {
    (v - ramp.hi) / (ramp.maxVal - ramp.hi)
  }

  lemma FractionInUnit(x: real, y: real)
    requires 0.0 <= x <= y && 0.0 < y
    ensures 0.0 <= x / y <= 1.0
  {
    assert x / y * y == x;
  }

  lemma DivMonotone(x1: real, x2: real, y: real)
    requires x1 <= x2 && 0.0 < y
    ensures x1 / y <= x2 / y
  {
    assert (x2 - x1) / y >= 0.0;
    assert x2 / y - x1 / y == (x2 - x1) / y;
  }

  /** Below the band: (⌊64t⌋, ⌊224t⌋, ⌊139 + 69t⌋, 255) with t = (v - min) / (lo - min) in [0, 1). */
  lemma ColdRamp(ramp: Ramp, v: real)
    requires Ordered(ramp) && ramp.minVal <= v < ramp.lo
    ensures 0.0 <= ColdFraction(ramp, v) < 1.0
    ensures var t := ColdFraction(ramp, v);
      PixelColor(ramp, v) == Rgba((64.0 * t).Floor, (224.0 * t).Floor, (139.0 + 69.0 * t).Floor, 255)
  {
    var t := ColdFraction(ramp, v);
    FractionInUnit(v - ramp.minVal, ramp.lo - ramp.minVal);
    assert t * (ramp.lo - ramp.minVal) == v - ramp.minVal;
    assert Clip01(t) == t;
  }

  /** Above the band: (⌊139 + 116(1 - s)⌋, ⌊255(1 - s)⌋, 0, 255) with s = (v - hi) / (max - hi) in (0, 1]. */
  lemma WarmRamp(ramp: Ramp, v: real)
    requires Ordered(ramp) && ramp.hi < v <= ramp.maxVal
    ensures 0.0 < WarmFraction(ramp, v) <= 1.0
    ensures var s := WarmFraction(ramp, v);
      PixelColor(ramp, v) == Rgba((139.0 + 116.0 * (1.0 - s)).Floor, (255.0 * (1.0 - s)).Floor, 0, 255)
  {
    var s := WarmFraction(ramp, v);
    FractionInUnit(v - ramp.hi, ramp.maxVal - ramp.hi);
    assert s * (ramp.maxVal - ramp.hi) == v - ramp.hi;
    assert Clip01(s) == s;
  }

  lemma FloorMonotone(x: real, y: real)
    requires x <= y
    ensures x.Floor <= y.Floor
  {
  }

  /** Red, green and blue do not decrease as v rises through the cold ramp. */
  lemma ColdRampMonotone(ramp: Ramp, v1: real, v2: real)
    requires Ordered(ramp) && ramp.minVal <= v1 <= v2 < ramp.lo
    ensures PixelColor(ramp, v1).r <= PixelColor(ramp, v2).r
    ensures PixelColor(ramp, v1).g <= PixelColor(ramp, v2).g
    ensures PixelColor(ramp, v1).b <= PixelColor(ramp, v2).b
  {
    ColdRamp(ramp, v1);
    ColdRamp(ramp, v2);
    var t1, t2 := ColdFraction(ramp, v1), ColdFraction(ramp, v2);
    DivMonotone(v1 - ramp.minVal, v2 - ramp.minVal, ramp.lo - ramp.minVal);
    FloorMonotone(64.0 * t1, 64.0 * t2);
    FloorMonotone(224.0 * t1, 224.0 * t2);
    FloorMonotone(139.0 + 69.0 * t1, 139.0 + 69.0 * t2);
  }

  /** Red and green do not increase as v rises through the warm ramp; blue stays 0. */
  lemma WarmRampMonotone(ramp: Ramp, v1: real, v2: real)
    requires Ordered(ramp) && ramp.hi < v1 <= v2 <= ramp.maxVal
    ensures PixelColor(ramp, v1).r >= PixelColor(ramp, v2).r
    ensures PixelColor(ramp, v1).g >= PixelColor(ramp, v2).g
    ensures PixelColor(ramp, v1).b == PixelColor(ramp, v2).b == 0
  {
    WarmRamp(ramp, v1);
    WarmRamp(ramp, v2);
    var s1, s2 := WarmFraction(ramp, v1), WarmFraction(ramp, v2);
    DivMonotone(v1 - ramp.hi, v2 - ramp.hi, ramp.maxVal - ramp.hi);
    FloorMonotone(139.0 + 116.0 * (1.0 - s2), 139.0 + 116.0 * (1.0 - s1));
    FloorMonotone(255.0 * (1.0 - s2), 255.0 * (1.0 - s1));
  }

  /**
   * Below min the pixel is dark blue, above max dark red, and these are the
   * ramp's own colours at min and at max: the clamps continue the ramp.
   */
  lemma ClampsContinueRamp(ramp: Ramp, v: real)
    requires ramp.minVal < ramp.lo <= ramp.hi < ramp.maxVal
    ensures PixelColor(ramp, ramp.minVal) == DarkBlue
    ensures PixelColor(ramp, ramp.maxVal) == DarkRed
    ensures v < ramp.minVal ==> PixelColor(ramp, v) == PixelColor(ramp, ramp.minVal)
    ensures v > ramp.maxVal ==> PixelColor(ramp, v) == PixelColor(ramp, ramp.maxVal)
  {
    DivisionEnds(ramp.lo - ramp.minVal);
    DivisionEnds(ramp.maxVal - ramp.hi);
    RampedAtZero(DarkBlue, Turquoise);
    RampedAtZero(DarkRed, Yellow);
  }

  /** Helper: the ramp parameter is 0 at one end of a band and 1 at the other. */
  lemma DivisionEnds(x: real)
    requires x > 0.0
    ensures 0.0 / x == 0.0 && x / x == 1.0
  {
  }

  /** At fraction 0 a ramp is its starting colour. */
  lemma RampedAtZero(from: Rgba, to: Rgba)
    requires InByteRange(from) && InByteRange(to) && from.a == 255
    ensures Ramped(from, to, 0.0) == from
  {
    ChannelAtZero(from.r, to.r);
    ChannelAtZero(from.g, to.g);
    ChannelAtZero(from.b, to.b);
  }

  lemma ChannelAtZero(from: int, to: int)
    requires IsByte(from) && IsByte(to)
    ensures Channel(from, to, 0.0) == from
  {
    var x := 0.0 * (to - from) as real + from as real;
    assert x == from as real;
    assert x.Floor == from;
  }

  /** Three pixels of the default ramp: -2.0 half-way up the cold ramp, 2.0 half-way up the warm one, 5.0 clamped to dark red. */
  lemma DefaultRampSamples()
    ensures PixelColor(DefaultRamp, -2.0) == Rgba(32, 112, 173, 255)
    ensures PixelColor(DefaultRamp, 2.0) == Rgba(197, 127, 0, 255)
    ensures PixelColor(DefaultRamp, 5.0) == DarkRed
  {
    ColdRamp(DefaultRamp, -2.0);
    WarmRamp(DefaultRamp, 2.0);
  }

  /** Channel k of the planar (4, H, W) buffer: 0 red, 1 green, 2 blue, 3 alpha. */
  function ChannelOf(c: Rgba, k: int): int
    requires 0 <= k < 4
  {
    if k == 0 then c.r else if k == 1 then c.g else if k == 2 then c.b else c.a
  }

  /**
   * The pixel apply_color_gradient leaves for one sample: the masked writes
   * only happen when some sample of the raster is opaque; otherwise the
   * zero-initialised buffer is returned untouched.
   */
  function GradientPixel(ramp: Ramp, anyOpaque: bool, s: Sample): Rgba {
    if anyOpaque then PixelColor(ramp, Clean(s)) else Transparent
  }

  /** `np.any(opaque_mask)` over the cleaned raster. */
  method AnyOpaque(data: array2<Sample>, ramp: Ramp) returns (any: bool)
    ensures any <==> exists i, j :: 0 <= i < data.Length0 && 0 <= j < data.Length1
                                   && Opaque(ramp, Clean(data[i, j]))
  {
    var i := 0;
    while i < data.Length0
      invariant 0 <= i <= data.Length0
      invariant forall i', j :: 0 <= i' < i && 0 <= j < data.Length1 ==> !Opaque(ramp, Clean(data[i', j]))
    {
      var j := 0;
      while j < data.Length1
        invariant 0 <= j <= data.Length1
        invariant forall i', j' :: 0 <= i' < i && 0 <= j' < data.Length1 ==> !Opaque(ramp, Clean(data[i', j']))
        invariant forall j' :: 0 <= j' < j ==> !Opaque(ramp, Clean(data[i, j']))
      {
        if Opaque(ramp, Clean(data[i, j])) {
          return true;
        }
        j := j + 1;
      }
      i := i + 1;
    }
    return false;
  }

  /**
   * apply_color_gradient: a new (4, H, W) buffer, zero-initialised, into
   * which the pixel of every sample is written when some sample is opaque.
   * For an ordered ramp the result is simply the pixel rule applied to each
   * sample, since a raster without opaque samples maps to all-transparent
   * pixels either way.
   */
  method ApplyColorGradient(data: array2<Sample>, ramp: Ramp) returns (rgba: array3<int>)
    ensures fresh(rgba)
    ensures rgba.Length0 == 4 && rgba.Length1 == data.Length0 && rgba.Length2 == data.Length1
    ensures var any := exists i, j :: 0 <= i < data.Length0 && 0 <= j < data.Length1
                                     && Opaque(ramp, Clean(data[i, j]));
      forall k, i, j :: 0 <= k < 4 && 0 <= i < data.Length0 && 0 <= j < data.Length1 ==>
        rgba[k, i, j] == ChannelOf(GradientPixel(ramp, any, data[i, j]), k)
    ensures Ordered(ramp) ==>
      forall k, i, j :: 0 <= k < 4 && 0 <= i < data.Length0 && 0 <= j < data.Length1 ==>
        rgba[k, i, j] == ChannelOf(PixelColor(ramp, Clean(data[i, j])), k)
  {
    var h, w := data.Length0, data.Length1;
    rgba := new int[4, h, w]((k, i, j) => 0);
    var any := AnyOpaque(data, ramp);
    if any {
      var i := 0;
      while i < h
        invariant 0 <= i <= h
        invariant forall k, i', j :: 0 <= k < 4 && 0 <= i' < i && 0 <= j < w ==>
          rgba[k, i', j] == ChannelOf(PixelColor(ramp, Clean(data[i', j])), k)
      {
        var j := 0;
        while j < w
          invariant 0 <= j <= w
          invariant forall k, i', j' :: 0 <= k < 4 && 0 <= i' < i && 0 <= j' < w ==>
            rgba[k, i', j'] == ChannelOf(PixelColor(ramp, Clean(data[i', j'])), k)
          invariant forall k, j' :: 0 <= k < 4 && 0 <= j' < j ==>
            rgba[k, i, j'] == ChannelOf(PixelColor(ramp, Clean(data[i, j'])), k)
        {
          WritePixel(rgba, i, j, PixelColor(ramp, Clean(data[i, j])));
          j := j + 1;
        }
        i := i + 1;
      }
    } else {
      forall i, j | 0 <= i < h && 0 <= j < w
        ensures Ordered(ramp) ==> PixelColor(ramp, Clean(data[i, j])) == Transparent
      {
        if Ordered(ramp) {
          AlphaRule(ramp, Clean(data[i, j]));
        }
      }
    }
  }

  /** Write the four channels of one pixel of a planar (4, H, W) buffer. */
  method WritePixel(rgba: array3<int>, i: int, j: int, c: Rgba)
    requires rgba.Length0 == 4 && 0 <= i < rgba.Length1 && 0 <= j < rgba.Length2
    modifies rgba
    ensures forall k :: 0 <= k < 4 ==> rgba[k, i, j] == ChannelOf(c, k)
    ensures forall k, i', j' ::
      (0 <= k < 4 && 0 <= i' < rgba.Length1 && 0 <= j' < rgba.Length2 && (i' != i || j' != j))
      ==> rgba[k, i', j'] == old(rgba[k, i', j'])
  {
    rgba[0, i, j] := c.r;
    rgba[1, i, j] := c.g;
    rgba[2, i, j] := c.b;
    rgba[3, i, j] := c.a;
  }
}

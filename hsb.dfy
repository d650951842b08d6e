/** RGB to 16-bit hue/saturation/brightness, the max/min/delta transform of
    internal/util/color.go (RgbToHsb) and internal/lights/color.go (rgbToHsb),
    whose bodies are identical. Floats are modelled as exact reals. */
module Hsb {
  import opened Numeric

  datatype Hsb = Hsb(hue: U16, saturation: U16, brightness: U16)

  function Channel(c: Byte): (x: real)
    ensures 0.0 <= x <= 1.0
  {
    c as real / 255.0
  }

  function MaxChannel(r: Byte, g: Byte, b: Byte): (mx: real)
    ensures 0.0 <= mx <= 1.0
    ensures mx == Max3(r, g, b) as real / 255.0
  {
    MaxReal(Channel(r), MaxReal(Channel(g), Channel(b)))
  }

  function MinChannel(r: Byte, g: Byte, b: Byte): (mn: real)
    ensures 0.0 <= mn <= MaxChannel(r, g, b)
    ensures mn == Min3(r, g, b) as real / 255.0
  {
    MinReal(Channel(r), MinReal(Channel(g), Channel(b)))
  }

  /** (((max - c) / 6) + (delta / 2)) / delta, the per-channel term of the hue. */
  function DeltaTerm(mx: real, c: real, delta: real): real
    requires delta > 0.0
  {
    (((mx - c) / 6.0) + (delta / 2.0)) / delta
  }

  /** The difference of two per-channel terms is (c1 - c2) / (6 delta), which lies
      within one sixth of a turn when both channels are within delta of the maximum. */
  lemma DeltaTermDifference(mx: real, c1: real, c2: real, delta: real)
    requires delta > 0.0
    requires mx - delta <= c1 <= mx && mx - delta <= c2 <= mx
    ensures DeltaTerm(mx, c1, delta) - DeltaTerm(mx, c2, delta) == (c2 - c1) / (6.0 * delta)
    ensures -1.0 / 6.0 <= (c2 - c1) / (6.0 * delta) <= 1.0 / 6.0
  {
    var a, b := DeltaTerm(mx, c1, delta), DeltaTerm(mx, c2, delta);
    var q := (c2 - c1) / (6.0 * delta);
    DivTimes((mx - c1) / 6.0 + delta / 2.0, delta);
    DivTimes((mx - c2) / 6.0 + delta / 2.0, delta);
    DivTimes(c2 - c1, 6.0 * delta);
    assert a * delta - b * delta == (c2 - c1) / 6.0;
    assert q * (6.0 * delta) == c2 - c1;
    assert (a - b) * delta == q * delta;
    CancelPositive(a - b, q, delta);
    QuotientBound(c2 - c1, 6.0 * delta, delta);
  }

  lemma DivTimes(x: real, d: real)
    requires d != 0.0
    ensures (x / d) * d == x
  {
  }

  lemma CancelPositive(x: real, y: real, d: real)
    requires d > 0.0 && x * d == y * d
    ensures x == y
  {
    assert (x - y) * d == 0.0;
  }

  /** |x| <= bound ==> |x / d| <= bound / d, for d = 6 * bound > 0. */
  lemma QuotientBound(x: real, d: real, bound: real)
    requires bound > 0.0 && d == 6.0 * bound
    requires -bound <= x <= bound
    ensures -1.0 / 6.0 <= x / d <= 1.0 / 6.0
  {
    var q := x / d;
    assert q * d == x;
  }

  lemma FractionAtMostOne(a: real, b: real)
    requires 0.0 <= a <= b && b > 0.0
    ensures 0.0 <= a / b <= 1.0
  {
    var q := a / b;
    assert q * b == a;
  }

  /** The hue as a fraction of a full turn, exactly as the source computes it:
      the branch of whichever channel is the maximum, then wrapped into range. */
  function HueFraction(r: Byte, g: Byte, b: Byte): (h: real)
    ensures 0.0 <= h < 1.0
  {
    var red, green, blue := Channel(r), Channel(g), Channel(b);
    var mx, mn := MaxChannel(r, g, b), MinChannel(r, g, b);
    var delta := mx - mn;
    if delta == 0.0 then 0.0
    else
      var deltaR := DeltaTerm(mx, red, delta);
      var deltaG := DeltaTerm(mx, green, delta);
      var deltaB := DeltaTerm(mx, blue, delta);
      DeltaTermDifference(mx, blue, green, delta);
      DeltaTermDifference(mx, red, blue, delta);
      DeltaTermDifference(mx, green, red, delta);
      var h :=
        if red == mx then deltaB - deltaG
        else if green == mx then (1.0 / 3.0) + deltaR - deltaB
        else if blue == mx then (2.0 / 3.0) + deltaG - deltaR
        else 0.0;
      var h' := if h < 0.0 then h + 1.0 else h;
      if h' > 1.0 then h' - 1.0 else h'
  }

  function SaturationFraction(r: Byte, g: Byte, b: Byte): (s: real)
    ensures 0.0 <= s <= 1.0
  {
    var mx, mn := MaxChannel(r, g, b), MinChannel(r, g, b);
    var delta := mx - mn;
    if delta == 0.0 then 0.0 else FractionAtMostOne(delta, mx); delta / mx
  }

  /** The fraction scaled to the 16-bit range and rounded. */
  function Scale(f: real): (n: U16)
    requires 0.0 <= f <= 1.0
  {
    Round(f * 65535.0)
  }

  function RgbToHsb(r: Byte, g: Byte, b: Byte): (c: Hsb)
  {
    Hsb(Scale(HueFraction(r, g, b)), Scale(SaturationFraction(r, g, b)), Scale(MaxChannel(r, g, b)))
  }

  // ---------------------------------------------------------------------------
  // Properties of the conversion

  /** Brightness is round(max / 255 * 65535), which is exactly 257 * max(r, g, b). */
  lemma BrightnessIs257Max(r: Byte, g: Byte, b: Byte)
    ensures RgbToHsb(r, g, b).brightness == 257 * Max3(r, g, b)
  {
    var m := Max3(r, g, b);
    assert MaxChannel(r, g, b) * 65535.0 == (257 * m) as real;
  }

  /** A grey input has neither hue nor saturation. */
  lemma GreyHasNoHueOrSaturation(r: Byte, g: Byte, b: Byte)
    requires r == g == b
    ensures RgbToHsb(r, g, b).hue == 0 && RgbToHsb(r, g, b).saturation == 0
  {
  }

  /** The saturation of a non-grey input: (max - min) / max of the full scale,
      at least 257, and full when the smallest channel is 0. */
  lemma ChromaticSaturation(r: Byte, g: Byte, b: Byte)
    requires !(r == g == b)
    ensures var mx, mn := Max3(r, g, b), Min3(r, g, b);
            mx > 0 && RgbToHsb(r, g, b).saturation == Round((mx - mn) as real / mx as real * 65535.0)
    ensures RgbToHsb(r, g, b).saturation >= 257
    ensures Min3(r, g, b) == 0 ==> RgbToHsb(r, g, b).saturation == 65535
  {
    var mx, mn := Max3(r, g, b), Min3(r, g, b);
    SaturationFractionValue(r, g, b);
    SpreadRatio(mx, mn);
  }

  lemma SaturationFractionValue(r: Byte, g: Byte, b: Byte)
    requires !(r == g == b)
    ensures Max3(r, g, b) > 0
    ensures SaturationFraction(r, g, b) == (Max3(r, g, b) - Min3(r, g, b)) as real / Max3(r, g, b) as real
  {
    var mx, mn := Max3(r, g, b), Min3(r, g, b);
    ScaledRatio((mx - mn) as real, mx as real);
  }

  lemma ScaledRatio(x: real, y: real)
    requires y > 0.0
    ensures (x / 255.0) / (y / 255.0) == x / y
  {
  }

  lemma SpreadRatio(mx: int, mn: int)
    requires 0 <= mn < mx <= 255
    ensures (mx - mn) as real / mx as real * 65535.0 >= 257.0
    ensures mn == 0 ==> (mx - mn) as real / mx as real == 1.0
  {
    var s := (mx - mn) as real / mx as real;
    DivTimes((mx - mn) as real, mx as real);
    assert s * mx as real == (mx - mn) as real;
    assert s * 255.0 >= s * mx as real;
  }

  /** Saturation is zero exactly for greys. */
  lemma SaturationZeroIffGrey(r: Byte, g: Byte, b: Byte)
    ensures RgbToHsb(r, g, b).saturation == 0 <==> r == g == b
  {
    if !(r == g == b) {
      ChromaticSaturation(r, g, b);
    }
  }

  /** An independent statement of the hue: (g - b), (b - r) or (r - g) over
      six times the spread, offset by 0, 1/3 or 2/3 of a turn according to the
      dominant channel (red first, then green), and wrapped into [0, 1). */
  function ReferenceHue(r: Byte, g: Byte, b: Byte): real
  {
    var mx, mn := Max3(r, g, b), Min3(r, g, b);
    if mx == mn then 0.0
    else
      var d := 6.0 * (mx - mn) as real;
      var h :=
        if r == mx then (g - b) as real / d
        else if g == mx then 1.0 / 3.0 + (b - r) as real / d
        else 2.0 / 3.0 + (r - g) as real / d;
      if h < 0.0 then h + 1.0 else h
  }

  lemma HueMatchesReference(r: Byte, g: Byte, b: Byte)
    ensures HueFraction(r, g, b) == ReferenceHue(r, g, b)
    ensures RgbToHsb(r, g, b).hue == Round(ReferenceHue(r, g, b) * 65535.0)
  {
    var mx, mn := Max3(r, g, b), Min3(r, g, b);
    if mx != mn {
      var red, green, blue := Channel(r), Channel(g), Channel(b);
      var M := MaxChannel(r, g, b);
      var delta := M - MinChannel(r, g, b);
      assert delta == (mx - mn) as real / 255.0;
      DeltaTermDifference(M, blue, green, delta);
      DeltaTermDifference(M, red, blue, delta);
      DeltaTermDifference(M, green, red, delta);
      ScaledSpread(g - b, mx - mn);
      ScaledSpread(b - r, mx - mn);
      ScaledSpread(r - g, mx - mn);
    }
  }

  /** ((x / 255) / (6 * (d / 255))) == x / (6 d). */
  lemma ScaledSpread(x: int, d: int)
    requires d > 0
    ensures (x as real / 255.0) / (6.0 * (d as real / 255.0)) == x as real / (6.0 * d as real)
  {
  }

  /** Pure red is hue 0 at full saturation and brightness. */
  lemma PureRed()
    ensures RgbToHsb(255, 0, 0) == Hsb(0, 65535, 65535)
  {
    ChromaticSaturation(255, 0, 0);
    BrightnessIs257Max(255, 0, 0);
    HueMatchesReference(255, 0, 0);
  }
}

/** The colour adjuster: RGB to a LIFX colour, near-black suppression and the
    brightness clamp, shared by lights/lifx/lifx.go and internal/lights/lifx/lifx.go
    (identical newLifxColor and adjustColor), and the fixed 40%..70% clamp of
    internal/lights/lifx.go (normalizeBrightness). */
module LifxColor {
  import opened Numeric
  import opened Colors
  import Hsb

  /** The light service configuration: group label and brightness bounds as
      fractions of full scale (0..1 expected, not enforced). */
  datatype Config = Config(groupName: string, maxBrightness: real, minBrightness: real)

  /** uint16(0.015 * 0xFFFF): 1.5% of full scale. */
  const BlackThreshold: int := ToU16(0.015 * 65535.0)

  /** The colour temperature every converted colour carries. */
  const Kelvin: U16 := 3500

  /** The colour that turns a light off. */
  const Off: Hsbk := Hsbk(0, 0, 0, Kelvin)

  function NewLifxColor(c: Rgb): Hsbk
  {
    var hsb := Hsb.RgbToHsb(c.red, c.green, c.blue);
    Hsbk(hsb.hue, hsb.saturation, hsb.brightness, Kelvin)
  }

  predicate NearBlack(c: Hsbk)
  {
    c.brightness <= BlackThreshold && c.saturation <= BlackThreshold
  }

  /** uint16(math.Min(hi, math.Max(lo, float64(b)))). */
  function ClampBrightness(lo: real, hi: real, b: U16): U16
  {
    ToU16(MinReal(hi, MaxReal(lo, b as real)))
  }

  function AdjustColor(c: Hsbk, config: Config): Hsbk
  {
    if NearBlack(c) then Off
    else c.(brightness := ClampBrightness(config.minBrightness * 65535.0, config.maxBrightness * 65535.0, c.brightness))
  }

  /** normalizeBrightness: brightness kept between 40% and 70% of full scale. */
  function NormalizeBrightness(c: Hsbk): Hsbk
  {
    c.(brightness := ClampBrightness(0.4 * 65535.0, 0.7 * 65535.0, c.brightness))
  }

  // ---------------------------------------------------------------------------
  // Properties

  lemma BlackThresholdValue()
    ensures BlackThreshold == 983
  {
  }

  /** newLifxColor passes the conversion through and always uses 3500 K. */
  lemma NewLifxColorFields(c: Rgb)
    ensures var l, hsb := NewLifxColor(c), Hsb.RgbToHsb(c.red, c.green, c.blue);
            l.hue == hsb.hue && l.saturation == hsb.saturation && l.brightness == hsb.brightness && l.kelvin == 3500
    ensures NewLifxColor(c).brightness == 257 * Max3(c.red, c.green, c.blue)
  {
    Hsb.BrightnessIs257Max(c.red, c.green, c.blue);
  }

  /** With lo <= hi both within full scale, the clamp lands in [floor lo, floor hi]
      and leaves a brightness already in [lo, hi] unchanged. */
  lemma ClampBounds(lo: real, hi: real, b: U16)
    requires 0.0 <= lo <= hi <= 65535.0
    ensures lo.Floor <= ClampBrightness(lo, hi, b) <= hi.Floor
    ensures lo <= b as real <= hi ==> ClampBrightness(lo, hi, b) == b
    ensures ClampBrightness(lo, hi, b) == MinReal(hi, MaxReal(lo, b as real)).Floor
  {
    var x := MinReal(hi, MaxReal(lo, b as real));
    assert lo <= x <= hi;
    FloorMonotone(lo, x);
    FloorMonotone(x, hi);
  }

  lemma FloorMonotone(x: real, y: real)
    requires x <= y
    ensures x.Floor <= y.Floor
  {
  }

  /** A near-black colour becomes the off colour, whatever its hue. */
  lemma AdjustNearBlack(c: Hsbk, config: Config)
    requires c.brightness <= 983 && c.saturation <= 983
    ensures AdjustColor(c, config) == Hsbk(0, 0, 0, 3500)
  {
  }

  /** Any other colour keeps hue, saturation and kelvin and has its brightness
      clamped to floor(min(Max * 65535, max(Min * 65535, b))), which for
      0 <= Min <= Max <= 1 lies in [floor(Min * 65535), floor(Max * 65535)]. */
  lemma AdjustOtherwise(c: Hsbk, config: Config)
    requires !(c.brightness <= 983 && c.saturation <= 983)
    requires 0.0 <= config.minBrightness <= config.maxBrightness <= 1.0
    ensures var r, lo, hi := AdjustColor(c, config), config.minBrightness * 65535.0, config.maxBrightness * 65535.0;
            && r.hue == c.hue && r.saturation == c.saturation && r.kelvin == c.kelvin
            && r.brightness == MinReal(hi, MaxReal(lo, c.brightness as real)).Floor
            && lo.Floor <= r.brightness <= hi.Floor
            && (lo <= c.brightness as real <= hi ==> r.brightness == c.brightness)
  {
    ClampBounds(config.minBrightness * 65535.0, config.maxBrightness * 65535.0, c.brightness);
  }

  /** The off colour is produced exactly for near-black inputs, provided the
      configured maximum lets a bright input keep brightness 1 or more. A
      dark input with a strong saturation keeps its saturation and so is not
      the off colour even when its brightness clamps to 0. */
  lemma AdjustOffIffNearBlack(c: Hsbk, config: Config)
    requires 0.0 <= config.minBrightness
    requires 1.0 <= config.maxBrightness * 65535.0
    requires config.minBrightness <= config.maxBrightness <= 1.0
    ensures AdjustColor(c, config) == Off <==> c.brightness <= 983 && c.saturation <= 983
  {
    if !NearBlack(c) {
      AdjustOtherwise(c, config);
    }
  }

  /** With the shipped defaults (maximum 0.65, minimum 0) the off colour is
      produced exactly for near-black inputs. */
  lemma DefaultsOffIffNearBlack(c: Hsbk, groupName: string)
    ensures AdjustColor(c, Config(groupName, 0.65, 0.0)) == Off <==> c.brightness <= 983 && c.saturation <= 983
  {
    AdjustOffIffNearBlack(c, Config(groupName, 0.65, 0.0));
  }

  /** After conversion, a colour is near black exactly when it is a grey with
      every channel at most 3. Brightness 257 * max stays within the threshold
      only for max <= 3, and a chromatic colour that dark has saturation of at
      least a third of full scale. */
  lemma NearBlackIffDimGrey(c: Rgb)
    ensures NearBlack(NewLifxColor(c)) <==> c.red == c.green == c.blue <= 3
  {
    var r, g, b := c.red, c.green, c.blue;
    NewLifxColorFields(c);
    if r == g == b {
      Hsb.GreyHasNoHueOrSaturation(r, g, b);
    } else {
      Hsb.ChromaticSaturation(r, g, b);
      var mx, mn := Max3(r, g, b), Min3(r, g, b);
      if mx <= 3 {
        DimSpread(mx, mn);
      }
    }
  }

  lemma DimSpread(mx: int, mn: int)
    requires 0 <= mn < mx <= 3
    ensures Round((mx - mn) as real / mx as real * 65535.0) > 983
  {
    var s := (mx - mn) as real / mx as real;
    assert s * mx as real == (mx - mn) as real;
    assert s * 3.0 >= 1.0;
  }

  /** The dark blue (0, 0, 2) is not near black: its saturation is full, so it
      is driven at the configured minimum brightness instead of being turned off. */
  lemma DarkBlueIsNotOff(config: Config)
    requires 0.0 <= config.minBrightness <= config.maxBrightness <= 1.0
    ensures var r := AdjustColor(NewLifxColor(Rgb(0, 0, 2)), config);
            && !NearBlack(NewLifxColor(Rgb(0, 0, 2)))
            && r.saturation == 65535 && r.kelvin == 3500
            && r.brightness == MinReal(config.maxBrightness * 65535.0, MaxReal(config.minBrightness * 65535.0, 514.0)).Floor
  {
    Hsb.ChromaticSaturation(0, 0, 2);
    NewLifxColorFields(Rgb(0, 0, 2));
    AdjustOtherwise(NewLifxColor(Rgb(0, 0, 2)), config);
  }

  /** Mid grey (128, 128, 128) between 20% and 65% keeps its brightness 257 * 128. */
  lemma MidGrey()
    ensures AdjustColor(NewLifxColor(Rgb(128, 128, 128)), Config("", 0.65, 0.2)) == Hsbk(0, 0, 32896, 3500)
  {
    var c := NewLifxColor(Rgb(128, 128, 128));
    NewLifxColorFields(Rgb(128, 128, 128));
    Hsb.GreyHasNoHueOrSaturation(128, 128, 128);
    AdjustOtherwise(c, Config("", 0.65, 0.2));
  }

  /** normalizeBrightness puts brightness in [26214, 45874] and changes nothing else. */
  lemma NormalizeBrightnessBounds(c: Hsbk)
    ensures var r := NormalizeBrightness(c);
            && 26214 <= r.brightness <= 45874
            && r.hue == c.hue && r.saturation == c.saturation && r.kelvin == c.kelvin
            && (26214 <= c.brightness <= 45874 ==> r.brightness == c.brightness)
  {
    ClampBounds(0.4 * 65535.0, 0.7 * 65535.0, c.brightness);
  }
}

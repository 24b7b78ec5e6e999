/** HSV colour values (include/pigment/types_hsv.hpp): hue in degrees,
    saturation and value in [0, 1]. The type carries no alpha; conversion
    back to RGB always produces an opaque colour. */
module Hsv {
  import opened Numeric
  import opened Rgb
  import Hsl

  datatype HSV = HSV(h: real, s: real, v: real)

  /** The ranges `normalize()` establishes. */
  predicate Normalized(x: HSV)
  {
    0.0 <= x.h < 360.0 && 0.0 <= x.s <= 1.0 && 0.0 <= x.v <= 1.0
  }

  /** The `1e-6f` threshold below which a spread or a maximum counts as
      zero. */
  const Epsilon: real := 0.000001

  // ---------------------------------------------------------------------
  // Construction

  /** The hue wrap of `normalize()`: a hue outside [0, 360) is replaced by
      its truncated remainder modulo 360, and a negative remainder is moved
      up by one turn. */
  function WrapHue(h: real): (r: real)
    ensures 0.0 <= r < 360.0
    ensures Hsl.SameHue(h, r)
    ensures 0.0 <= h < 360.0 ==> r == h
  {
    if h < 0.0 || 360.0 <= h then
      var m := Fmod(h, 360.0);
      WrapHueTurns(h);
      if m < 0.0 then m + 360.0 else m
    else
      Hsl.WholeTurnsZero();
      h
  }

  lemma WrapHueTurns(h: real)
    ensures var n := Trunc(h / 360.0);
      && WholeTurns(h - (h - n as real * 360.0))
      && WholeTurns(h - (h - n as real * 360.0 + 360.0))
  {
    var n := Trunc(h / 360.0);
    assert (h - (h - n as real * 360.0)) / 360.0 == n as real;
    assert (h - (h - n as real * 360.0 + 360.0)) / 360.0 == (n - 1) as real;
  }

  /** The `fmod` wrap agrees with the two loops HSL uses: both give the one
      point of [0, 360) a whole number of turns from the input. */
  lemma WrapHueAgreesWithHsl(h: real)
    ensures WrapHue(h) == Hsl.WrapHue(h)
  {
    Hsl.WrapHueUnique(h, WrapHue(h));
  }

  /** `HSV(h, s, v)`: the constructor runs `normalize()`. */
  function MakeHSV(h: real, s: real, v: real): (x: HSV)
    ensures Normalized(x)
    ensures Hsl.SameHue(h, x.h)
    ensures 0.0 <= h < 360.0 ==> x.h == h
    ensures x.s == Clamp(s, 0.0, 1.0)
    ensures x.v == Clamp(v, 0.0, 1.0)
  {
    HSV(WrapHue(h), Clamp(s, 0.0, 1.0), Clamp(v, 0.0, 1.0))
  }

  /** `normalize()` leaves a value already in range unchanged. */
  lemma NormalizeKeepsNormalized(x: HSV)
    requires Normalized(x)
    ensures MakeHSV(x.h, x.s, x.v) == x
  {
  }

  /** Values the library's tests construct. */
  lemma ConstructorExamples()
    ensures MakeHSV(240.0, 0.8, 0.9) == HSV(240.0, 0.8, 0.9)
    ensures MakeHSV(400.0, 1.2, -0.1) == HSV(40.0, 1.0, 0.0)
    ensures MakeHSV(450.0, 1.5, 0.5) == HSV(90.0, 1.0, 0.5)
  {
    Hsl.WrapHueUnique(400.0, 40.0);
    Hsl.WrapHueUnique(450.0, 90.0);
    WrapHueAgreesWithHsl(400.0);
    WrapHueAgreesWithHsl(450.0);
  }

  // ---------------------------------------------------------------------
  // RGB -> HSV

  /** The hue of `fromRGB` before normalisation: sixty degrees per unit of
      the channel difference over the spread, offset by the sector of the
      largest channel, with a negative red-sector hue moved up a turn. */
  function SectorHue(r: real, g: real, b: real): (h: real)
    ensures 0.0 <= h < 360.0
    ensures Max3(r, g, b) - Min3(r, g, b) < Epsilon ==> h == 0.0
    ensures Epsilon <= Max3(r, g, b) - Min3(r, g, b) && Max3(r, g, b) == r ==> h <= 60.0 || 300.0 <= h
    ensures Epsilon <= Max3(r, g, b) - Min3(r, g, b) && Max3(r, g, b) != r && Max3(r, g, b) == g ==> 60.0 <= h <= 180.0
    ensures Epsilon <= Max3(r, g, b) - Min3(r, g, b) && Max3(r, g, b) != r && Max3(r, g, b) != g ==> 180.0 <= h <= 300.0
  {
    var mx := Max3(r, g, b);
    var delta := mx - Min3(r, g, b);
    var h0 := (
      if delta < Epsilon then 0.0
      else if mx == r then
        QuotientInUnit(g - b, delta);
        60.0 * Fmod((g - b) / delta, 6.0)
      else if mx == g then
        QuotientInUnit(b - r, delta);
        60.0 * ((b - r) / delta + 2.0)
      else
        QuotientInUnit(r - g, delta);
        60.0 * ((r - g) / delta + 4.0));
    if h0 < 0.0 then h0 + 360.0 else h0
  }

  /** `HSV::fromRGB`; the alpha of the input is ignored. */
  function FromRGB(c: RGB): (x: HSV)
    ensures Normalized(x)
    ensures x.h == SectorHue(Unit(c.r), Unit(c.g), Unit(c.b))
    ensures x.v == Clamp(Max3(Unit(c.r), Unit(c.g), Unit(c.b)), 0.0, 1.0)
    ensures Max3(Unit(c.r), Unit(c.g), Unit(c.b)) < Epsilon ==> x.s == 0.0
    ensures InGamut(c) ==> x.v == Max3(Unit(c.r), Unit(c.g), Unit(c.b))
    ensures InGamut(c) && Epsilon <= Max3(Unit(c.r), Unit(c.g), Unit(c.b)) ==>
      x.s == (Max3(Unit(c.r), Unit(c.g), Unit(c.b)) - Min3(Unit(c.r), Unit(c.g), Unit(c.b))) / Max3(Unit(c.r), Unit(c.g), Unit(c.b))
  {
    var r := Unit(c.r);
    var g := Unit(c.g);
    var b := Unit(c.b);
    var mx := Max3(r, g, b);
    var delta := mx - Min3(r, g, b);
    var s := if mx < Epsilon then 0.0 else delta / mx;
    SpreadOverMax(mx, Min3(r, g, b));
    MakeHSV(SectorHue(r, g, b), s, mx)
  }

  /** For a non-negative minimum the spread over the maximum is a fraction. */
  lemma SpreadOverMax(mx: real, mn: real)
    ensures 0.0 <= mn <= mx && 0.0 < mx ==> 0.0 <= (mx - mn) / mx <= 1.0
  {
    if 0.0 <= mn <= mx && 0.0 < mx {
      DivNonneg(mx - mn, mx);
      DivAtMostOne(mx - mn, mx);
    }
  }

  /** A grey has hue 0 and saturation 0, and its value is the channel over
      255. */
  lemma FromRGBGrey(c: RGB)
    requires InGamut(c) && c.r == c.g == c.b
    ensures FromRGB(c) == HSV(0.0, 0.0, Unit(c.r))
  {
    var u := Unit(c.r);
    if Epsilon <= u {
      assert (u - u) / u == 0.0;
    }
  }

  /** For channels in range the HSV and HSL hue formulas agree: the
      `1e-6` threshold never cuts in, because two different 8-bit channels
      are at least 1/255 apart, and the `fmod` of the red sector is the
      HSL branch that adds six sixths for a negative quotient. Lightness
      never exceeds value. */
  lemma HueAgreesWithHsl(c: RGB)
    requires InGamut(c)
    ensures FromRGB(c).h == Hsl.FromRGB(c).h
    ensures Hsl.FromRGB(c).l <= FromRGB(c).v
  {
    var r := Unit(c.r);
    var g := Unit(c.g);
    var b := Unit(c.b);
    var mx := Max3(r, g, b);
    var mn := Min3(r, g, b);
    if mx != mn {
      ChannelGap(c);
      var delta := mx - mn;
      var hr := Hsl.RawHue(r, g, b);
      Hsl.WrapHueUnique(hr / 6.0 * 360.0, hr / 6.0 * 360.0);
      assert Hsl.FromRGB(c).h == hr * 60.0;
      if mx == r {
        QuotientInUnit(g - b, delta);
        if g < b {
          DivNeg(g - b, delta);
        } else {
          DivNonneg(g - b, delta);
        }
      }
    }
  }

  /** Two different 8-bit channels differ by at least 1/255, which exceeds
      `Epsilon`. */
  lemma ChannelGap(c: RGB)
    ensures var mx := Max3(Unit(c.r), Unit(c.g), Unit(c.b));
      var mn := Min3(Unit(c.r), Unit(c.g), Unit(c.b));
      mx != mn ==> Epsilon <= mx - mn
  {
    var mx := Max3(Unit(c.r), Unit(c.g), Unit(c.b));
    var mn := Min3(Unit(c.r), Unit(c.g), Unit(c.b));
    if mx != mn {
      var i := if mx == Unit(c.r) then c.r else if mx == Unit(c.g) then c.g else c.b;
      var j := if mn == Unit(c.r) then c.r else if mn == Unit(c.g) then c.g else c.b;
      assert mx == Unit(i) && mn == Unit(j);
      UnitGap(i, j);
    }
  }

  lemma UnitGap(i: int, j: int)
    requires Unit(j) < Unit(i)
    ensures Epsilon <= Unit(i) - Unit(j)
  {
    assert Unit(i) - Unit(j) == (i - j) as real / 255.0;
    assert j < i;
  }

  /** Pure blue, as the library's tests convert it. */
  lemma FromRGBExamples()
    ensures FromRGB(Blue) == HSV(240.0, 1.0, 1.0)
    ensures FromRGB(Red) == HSV(0.0, 1.0, 1.0)
    ensures FromRGB(Green) == HSV(120.0, 1.0, 1.0)
  {
  }

  // ---------------------------------------------------------------------
  // HSV -> RGB

  /** The chroma `v * s`. */
  function Chroma(x: HSV): (c: real)
    ensures Normalized(x) ==> 0.0 <= c <= x.v
    ensures x.s == 0.0 ==> c == 0.0
  {
    Product(x.v, x.s)
  }

  /** The weight of the second-largest component: one minus the distance of
      the hue, in sixty-degree units modulo 2, from 1. */
  function SecondWeight(h: real): (w: real)
    ensures 0.0 <= h ==> 0.0 <= w <= 1.0
  {
    1.0 - Abs(Fmod(h / 60.0, 2.0) - 1.0)
  }

  /** A component is zero, the chroma or the second component. */
  predicate OneOf(k: real, c: real, x: real)
  {
    k == 0.0 || k == c || k == x
  }

  /** The unscaled components `(r', g', b')` of the sector the hue lies in. */
  function Components(h: real, c: real, x: real): (rgb: (real, real, real))
    ensures rgb.0 == c || rgb.1 == c || rgb.2 == c
    ensures OneOf(rgb.0, c, x) && OneOf(rgb.1, c, x) && OneOf(rgb.2, c, x)
  {
    if h < 60.0 then (c, x, 0.0)
    else if h < 120.0 then (x, c, 0.0)
    else if h < 180.0 then (0.0, c, x)
    else if h < 240.0 then (0.0, x, c)
    else if h < 300.0 then (x, 0.0, c)
    else (c, 0.0, x)
  }

  /** A component offset by `m` and scaled to a rounded channel. */
  function Channel(k: real, m: real): (n: int)
    ensures (k + m) * 255.0 - 0.5 <= n as real <= (k + m) * 255.0 + 0.5
    ensures 0.0 <= k + m <= 1.0 ==> 0 <= n <= 255
  {
    Round((k + m) * 255.0)
  }

  /** `HSV::toRGB`: the output is always opaque. */
  function ToRGB(x: HSV): (c: RGB)
    ensures c.a == 255
    ensures x.s == 0.0 ==> c.r == c.g == c.b == Round(x.v * 255.0)
    ensures Normalized(x) ==> InGamut(c)
  {
    var chroma := Chroma(x);
    var second := Product(chroma, SecondWeight(x.h));
    var m := x.v - chroma;
    var rgb := Components(x.h, chroma, second);
    ChannelsInRange(x);
    RGB(Channel(rgb.0, m), Channel(rgb.1, m), Channel(rgb.2, m), 255)
  }

  lemma ChannelsInRange(x: HSV)
    ensures var chroma := Chroma(x);
      var second := Product(chroma, SecondWeight(x.h));
      var rgb := Components(x.h, chroma, second);
      Normalized(x) ==>
        && 0 <= Channel(rgb.0, x.v - chroma) <= 255
        && 0 <= Channel(rgb.1, x.v - chroma) <= 255
        && 0 <= Channel(rgb.2, x.v - chroma) <= 255
  {
    var chroma := Chroma(x);
    var second := Product(chroma, SecondWeight(x.h));
    var rgb := Components(x.h, chroma, second);
  }

  /** The largest channel of the conversion carries the value: every
      channel is at most `round(v * 255)` and one of them equals it. */
  lemma ToRGBValueIsMax(x: HSV)
    requires Normalized(x)
    ensures var c := ToRGB(x);
      var top := Round(x.v * 255.0);
      && c.r <= top && c.g <= top && c.b <= top
      && (c.r == top || c.g == top || c.b == top)
  {
    var chroma := Chroma(x);
    var second := Product(chroma, SecondWeight(x.h));
    var m := x.v - chroma;
    var rgb := Components(x.h, chroma, second);
    assert chroma + m == x.v;
    RoundMono((rgb.0 + m) * 255.0, x.v * 255.0);
    RoundMono((rgb.1 + m) * 255.0, x.v * 255.0);
    RoundMono((rgb.2 + m) * 255.0, x.v * 255.0);
  }

  /** `fmod(z, 2)` of a non-negative `z` in the interval starting at `2k`. */
  lemma FmodTwo(z: real, k: int)
    requires 0 <= k && 2.0 * k as real <= z < 2.0 * k as real + 2.0
    ensures Fmod(z, 2.0) == z - 2.0 * k as real
  {
    assert k as real <= z / 2.0 < k as real + 1.0;
    assert Trunc(z / 2.0) == k;
  }

  /** The second weight at hue `60 hr`, for `hr` in the interval starting
      at `2k`: one minus the distance of `hr - 2k` from 1. */
  lemma WeightInSector(hr: real, k: int)
    requires 0 <= k && 2.0 * k as real <= hr < 2.0 * k as real + 2.0
    ensures SecondWeight(60.0 * hr) == 1.0 - Abs(hr - 2.0 * k as real - 1.0)
  {
    assert 60.0 * hr / 60.0 == hr;
    FmodTwo(hr, k);
  }

  /** Scaling `delta` by a channel difference over `delta` gives the
      difference back. */
  lemma ProductQuotient(d: real, y: real)
    requires d != 0.0
    ensures Product(d, y / d) == y
    ensures Product(d, -(y / d)) == -y
  {
    assert d * (y / d) == y;
  }

  /** Offsetting each component by the smallest channel gives back the
      three channels. */
  predicate Recovers(rgb: (real, real, real), mn: real, r: real, g: real, b: real)
  {
    rgb.0 + mn == r && rgb.1 + mn == g && rgb.2 + mn == b
  }

  /** With the spread as chroma and the HSL hue in sixths `hr`, the sector
      components of `toRGB` offset by the smallest channel are the three
      channels. */
  lemma {:induction false} ComponentsRecover(r: real, g: real, b: real)
    requires Max3(r, g, b) != Min3(r, g, b)
    ensures var delta := Max3(r, g, b) - Min3(r, g, b);
      var h := 60.0 * Hsl.RawHue(r, g, b);
      Recovers(Components(h, delta, Product(delta, SecondWeight(h))), Min3(r, g, b), r, g, b)
  {
    var mx := Max3(r, g, b);
    if mx == r {
      RedComponents(r, g, b);
    } else if mx == g {
      GreenComponents(r, g, b);
    } else {
      BlueComponents(r, g, b);
    }
  }

  lemma RedComponents(r: real, g: real, b: real)
    requires Max3(r, g, b) != Min3(r, g, b) && Max3(r, g, b) == r
    ensures var delta := r - Min3(r, g, b);
      var h := 60.0 * Hsl.RawHue(r, g, b);
      Recovers(Components(h, delta, Product(delta, SecondWeight(h))), Min3(r, g, b), r, g, b)
  {
    var mn := Min3(r, g, b);
    var delta := r - mn;
    var x := (g - b) / delta;
    QuotientInUnit(g - b, delta);
    ProductQuotient(delta, g - b);
    if g < b {
      assert mn == g;
      assert Hsl.RawHue(r, g, b) == x + 6.0;
      WeightInSector(x + 6.0, 2);
    } else {
      assert mn == b;
      assert Hsl.RawHue(r, g, b) == x;
      WeightInSector(x, 0);
    }
  }

  lemma GreenComponents(r: real, g: real, b: real)
    requires Max3(r, g, b) != Min3(r, g, b) && Max3(r, g, b) == g && Max3(r, g, b) != r
    ensures var delta := g - Min3(r, g, b);
      var h := 60.0 * Hsl.RawHue(r, g, b);
      Recovers(Components(h, delta, Product(delta, SecondWeight(h))), Min3(r, g, b), r, g, b)
  {
    var mn := Min3(r, g, b);
    var delta := g - mn;
    var x := (b - r) / delta;
    QuotientInUnit(b - r, delta);
    ProductQuotient(delta, b - r);
    assert Hsl.RawHue(r, g, b) == x + 2.0;
    if x < 0.0 {
      assert mn == b;
      WeightInSector(x + 2.0, 0);
    } else {
      assert mn == r;
      WeightInSector(x + 2.0, 1);
    }
  }

  lemma BlueComponents(r: real, g: real, b: real)
    requires Max3(r, g, b) != Min3(r, g, b) && Max3(r, g, b) == b
    requires Max3(r, g, b) != r && Max3(r, g, b) != g
    ensures var delta := b - Min3(r, g, b);
      var h := 60.0 * Hsl.RawHue(r, g, b);
      Recovers(Components(h, delta, Product(delta, SecondWeight(h))), Min3(r, g, b), r, g, b)
  {
    var mn := Min3(r, g, b);
    var delta := b - mn;
    var x := (r - g) / delta;
    QuotientInUnit(r - g, delta);
    ProductQuotient(delta, r - g);
    assert Hsl.RawHue(r, g, b) == x + 4.0;
    if x < 0.0 {
      assert mn == r;
      WeightInSector(x + 4.0, 1);
    } else {
      assert mn == g;
      WeightInSector(x + 4.0, 2);
    }
  }

  /** Converting an in-range colour to HSV and back gives the colour
      unchanged, made opaque: value and saturation give back the largest
      channel and the spread, the sector components put the spread and the
      middle channel in place, and every channel is a whole multiple of
      1/255. */
  lemma RoundTrip(c: RGB)
    requires InGamut(c)
    ensures ToRGB(FromRGB(c)) == RGB(c.r, c.g, c.b, 255)
  {
    var r, g, b := Unit(c.r), Unit(c.g), Unit(c.b);
    assert r * 255.0 == c.r as real;
    assert g * 255.0 == c.g as real;
    assert b * 255.0 == c.b as real;
    RoundOfInt(c.r);
    RoundOfInt(c.g);
    RoundOfInt(c.b);
    if c.r == c.g == c.b {
      FromRGBGrey(c);
    } else {
      FromRGBChromatic(c);
      ToRGBChromatic(r, g, b);
    }
  }

  /** A chromatic in-range colour converts to sixty times its HSL hue in
      sixths, the spread over the maximum, and the maximum. */
  lemma FromRGBChromatic(c: RGB)
    requires InGamut(c) && !(c.r == c.g == c.b)
    ensures var r, g, b := Unit(c.r), Unit(c.g), Unit(c.b);
      var mx, mn := Max3(r, g, b), Min3(r, g, b);
      mn < mx && FromRGB(c) == HSV(60.0 * Hsl.RawHue(r, g, b), (mx - mn) / mx, mx)
  {
    var r, g, b := Unit(c.r), Unit(c.g), Unit(c.b);
    var mx, mn := Max3(r, g, b), Min3(r, g, b);
    ChannelGap(c);
    HueAgreesWithHsl(c);
    var hr := Hsl.RawHue(r, g, b);
    Hsl.WrapHueUnique(hr / 6.0 * 360.0, hr / 6.0 * 360.0);
  }

  /** `toRGB` of that value puts every unit channel back, before rounding. */
  lemma ToRGBChromatic(r: real, g: real, b: real)
    requires Max3(r, g, b) != Min3(r, g, b) && 0.0 < Max3(r, g, b)
    ensures var mx, mn := Max3(r, g, b), Min3(r, g, b);
      ToRGB(HSV(60.0 * Hsl.RawHue(r, g, b), (mx - mn) / mx, mx))
        == RGB(Round(r * 255.0), Round(g * 255.0), Round(b * 255.0), 255)
  {
    var mx, mn := Max3(r, g, b), Min3(r, g, b);
    var x := HSV(60.0 * Hsl.RawHue(r, g, b), (mx - mn) / mx, mx);
    ProductQuotient(mx, mx - mn);
    assert Chroma(x) == mx - mn;
    ComponentsRecover(r, g, b);
  }

  // ---------------------------------------------------------------------
  // In-place adjustments, modelled as functions returning the new value.

  /** `adjustBrightness(factor)`: scales the value and clamps it. */
  function AdjustBrightness(x: HSV, factor: real): (y: HSV)
    ensures y.h == x.h && y.s == x.s
    ensures y.v == Clamp(x.v * factor, 0.0, 1.0)
    ensures 0.0 <= y.v <= 1.0
    ensures 0.0 <= x.v && 0.0 <= factor <= 1.0 ==> y.v <= x.v
    ensures 0.0 <= x.v <= 1.0 && 0.0 <= factor <= 1.0 ==> y.v == x.v * factor
    ensures Normalized(x) && factor == 1.0 ==> y == x
  {
    x.(v := Clamp(Product(x.v, factor), 0.0, 1.0))
  }

  /** `adjustSaturation(factor)`: scales the saturation and clamps it. */
  function AdjustSaturation(x: HSV, factor: real): (y: HSV)
    ensures y.h == x.h && y.v == x.v
    ensures y.s == Clamp(x.s * factor, 0.0, 1.0)
    ensures 0.0 <= y.s <= 1.0
    ensures 0.0 <= x.s && 0.0 <= factor <= 1.0 ==> y.s <= x.s
    ensures 0.0 <= x.s <= 1.0 && 0.0 <= factor <= 1.0 ==> y.s == x.s * factor
    ensures Normalized(x) && factor == 1.0 ==> y == x
  {
    x.(s := Clamp(Product(x.s, factor), 0.0, 1.0))
  }

  /** Both adjusters scale rather than add: a factor below one lowers the
      field, so brightening (180, 0.5, 0.7) by 0.2 gives value 0.14 and
      saturating it by 0.3 gives saturation 0.15. */
  lemma AdjustmentExamples()
    ensures AdjustBrightness(MakeHSV(180.0, 0.5, 0.7), 0.2).v == 0.14
    ensures AdjustSaturation(MakeHSV(180.0, 0.5, 0.7), 0.3).s == 0.15
  {
  }

  // ---------------------------------------------------------------------
  // The adjusters against the library's own test

  /** The library's test expects brightening (180, 0.5, 0.7) by 0.2 to raise
      the value above 0.7, and saturating it by 0.3 to raise the saturation
      above 0.5; the adjusters as written lower both. */
  lemma TestExpectationFailsAsWritten()
    ensures !(AdjustBrightness(MakeHSV(180.0, 0.5, 0.7), 0.2).v > 0.7)
    ensures !(AdjustSaturation(MakeHSV(180.0, 0.5, 0.7), 0.3).s > 0.5)
  {
    AdjustmentExamples();
  }

  /** A field in [0, 1] moved by a signed amount: a positive amount covers
      that fraction of the way up to 1, a negative one that fraction of the
      way down to 0; the result is clamped to [0, 1]. */
  function ShiftToward(f: real, amount: real): (r: real)
    ensures 0.0 <= r <= 1.0
    ensures 0.0 < amount && f < 1.0 ==> f < r
    ensures amount < 0.0 && 0.0 < f ==> r < f
    ensures amount == 0.0 && 0.0 <= f <= 1.0 ==> r == f
  {
    var step := if amount > 0.0 then Product(amount, 1.0 - f) else Product(amount, f);
    Clamp(f + step, 0.0, 1.0)
  }

  /** The brightness adjuster the test expects: a positive amount raises the
      value, a negative one lowers it. */
  function ShiftBrightness(x: HSV, amount: real): (y: HSV)
    ensures y.h == x.h && y.s == x.s
    ensures Normalized(x) ==> Normalized(y)
    ensures 0.0 < amount && x.v < 1.0 ==> x.v < y.v
    ensures amount < 0.0 && 0.0 < x.v ==> y.v < x.v
  {
    x.(v := ShiftToward(x.v, amount))
  }

  /** The saturation adjuster the test expects. */
  function ShiftSaturation(x: HSV, amount: real): (y: HSV)
    ensures y.h == x.h && y.v == x.v
    ensures Normalized(x) ==> Normalized(y)
    ensures 0.0 < amount && x.s < 1.0 ==> x.s < y.s
    ensures amount < 0.0 && 0.0 < x.s ==> y.s < x.s
  {
    x.(s := ShiftToward(x.s, amount))
  }

  /** The shifting adjusters meet the test's expectations, at 0.76 and
      0.65. */
  lemma TestExpectationHoldsForShift()
    ensures ShiftBrightness(MakeHSV(180.0, 0.5, 0.7), 0.2).v == 0.76
    ensures ShiftSaturation(MakeHSV(180.0, 0.5, 0.7), 0.3).s == 0.65
  {
  }
}

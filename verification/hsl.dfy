/** HSL colour values (include/pigment/types_hsl.hpp): hue in degrees,
    saturation and lightness in [0, 1], integer alpha. */
module Hsl {
  import opened Numeric
  import opened Rgb

  datatype HSL = HSL(h: real, s: real, l: real, a: int)

  /** The ranges the constructor establishes. */
  predicate Normalized(x: HSL)
  {
    0.0 <= x.h < 360.0 && 0.0 <= x.s <= 1.0 && 0.0 <= x.l <= 1.0 && 0 <= x.a <= 255
  }

  /** Two hues name the same direction on the colour wheel. */
  predicate SameHue(h1: real, h2: real)
  {
    WholeTurns(h1 - h2)
  }

  // ---------------------------------------------------------------------
  // Hue arithmetic modulo 360

  lemma WholeTurnsZero()
    ensures WholeTurns(0.0)
  {
  }

  lemma WholeTurnsShift(d: real)
    ensures WholeTurns(d) <==> WholeTurns(d - 360.0)
  {
    assert (d - 360.0) / 360.0 == d / 360.0 - 1.0;
    assert ((d - 360.0) / 360.0).Floor == (d / 360.0).Floor - 1;
  }

  lemma WholeTurnsAdd(d1: real, d2: real)
    requires WholeTurns(d1) && WholeTurns(d2)
    ensures WholeTurns(d1 + d2) && WholeTurns(d1 - d2)
  {
    var k1 := (d1 / 360.0).Floor;
    var k2 := (d2 / 360.0).Floor;
    assert d1 / 360.0 == k1 as real;
    assert d2 / 360.0 == k2 as real;
    IntegralFloor(k1 + k2, (d1 + d2) / 360.0);
    IntegralFloor(k1 - k2, (d1 - d2) / 360.0);
  }

  lemma IntegralFloor(k: int, z: real)
    requires z == k as real
    ensures z.Floor == k
  {
  }

  /** Two points of [0, 360) a whole number of turns apart coincide. */
  lemma WholeTurnsInRange(x: real, y: real)
    requires 0.0 <= x < 360.0 && 0.0 <= y < 360.0 && WholeTurns(x - y)
    ensures x == y
  {
    var k := ((x - y) / 360.0).Floor;
    assert -1.0 < (x - y) / 360.0 < 1.0;
  }

  /** The two loops of `normalize()`: subtract 360 while the hue is at least
      360, then add 360 while it is negative. */
  function WrapHue(h: real): (r: real)
    ensures 0.0 <= r < 360.0
    ensures SameHue(h, r)
    ensures 0.0 <= h < 360.0 ==> r == h
    decreases if 360.0 <= h then h.Floor else if h < 0.0 then -h.Floor else 0
  {
    if 360.0 <= h then
      var r := WrapHue(h - 360.0);
      WholeTurnsShift(h - r);
      r
    else if h < 0.0 then
      var r := WrapHue(h + 360.0);
      WholeTurnsShift(h + 360.0 - r);
      r
    else
      WholeTurnsZero();
      h
  }

  /** The wrapped hue is the only point of [0, 360) that names the same
      direction as the input. */
  lemma WrapHueUnique(h: real, x: real)
    requires 0.0 <= x < 360.0 && SameHue(h, x)
    ensures WrapHue(h) == x
  {
    var r := WrapHue(h);
    WholeTurnsAdd(h - x, h - r);
    assert r - x == (h - x) - (h - r);
    WholeTurnsInRange(r, x);
  }

  /** Closed form of the wrap: the floored remainder modulo 360. */
  lemma WrapHueClosedForm(h: real)
    ensures WrapHue(h) == h - 360.0 * (h / 360.0).Floor as real
  {
    var k := (h / 360.0).Floor;
    var x := h - 360.0 * k as real;
    assert (h - x) / 360.0 == k as real;
    WrapHueUnique(h, x);
  }

  lemma WrapHueCompose(h: real, d: real)
    ensures WrapHue(WrapHue(h) + d) == WrapHue(h + d)
  {
    var w := WrapHue(h);
    var r := WrapHue(h + d);
    WholeTurnsAdd(h + d - r, h - w);
    assert (w + d) - r == (h + d - r) - (h - w);
    WrapHueUnique(w + d, r);
  }

  // ---------------------------------------------------------------------
  // Construction

  /** `HSL(h, s, l, a)`: the constructor runs `normalize()`. */
  function MakeHSL(h: real, s: real, l: real, a: int): (x: HSL)
    ensures Normalized(x)
    ensures SameHue(h, x.h)
    ensures 0.0 <= h < 360.0 ==> x.h == h
    ensures 0.0 <= s <= 1.0 ==> x.s == s
    ensures 0.0 <= l <= 1.0 ==> x.l == l
    ensures 0 <= a <= 255 ==> x.a == a
    ensures s < 0.0 ==> x.s == 0.0
    ensures 1.0 < s ==> x.s == 1.0
    ensures l < 0.0 ==> x.l == 0.0
    ensures 1.0 < l ==> x.l == 1.0
    ensures a < 0 ==> x.a == 0
    ensures 255 < a ==> x.a == 255
  {
    HSL(WrapHue(h), Clamp(s, 0.0, 1.0), Clamp(l, 0.0, 1.0), ClampInt(a, 0, 255))
  }

  /** `normalize()` applied to a value whose fields were set directly. */
  function Normalize(x: HSL): (y: HSL)
    ensures Normalized(y)
    ensures Normalized(x) ==> y == x
  {
    MakeHSL(x.h, x.s, x.l, x.a)
  }

  lemma NormalizeIdempotent(x: HSL)
    ensures Normalize(Normalize(x)) == Normalize(x)
  {
  }

  /** Values the library's tests construct. */
  lemma ConstructorExamples()
    ensures MakeHSL(120.0, 0.5, 0.7, 255) == HSL(120.0, 0.5, 0.7, 255)
    ensures MakeHSL(370.0, 1.5, -0.1, 255) == HSL(10.0, 1.0, 0.0, 255)
    ensures MakeHSL(720.0, 0.5, 0.5, 255).h == 0.0
    ensures MakeHSL(-120.0, 0.5, 0.5, 255).h == 240.0
    ensures MakeHSL(180.0, 2.0, -0.5, 255) == HSL(180.0, 1.0, 0.0, 255)
  {
    WrapHueUnique(370.0, 10.0);
    WrapHueUnique(720.0, 0.0);
    WrapHueUnique(-120.0, 240.0);
  }

  // ---------------------------------------------------------------------
  // RGB -> HSL

  /** The six-branch hue formula, in sixths of a turn, for a colour whose
      channels are not all equal. */
  function RawHue(r: real, g: real, b: real): (hr: real)
    requires Max3(r, g, b) != Min3(r, g, b)
    ensures 0.0 <= hr < 6.0
  {
    var mx := Max3(r, g, b);
    var delta := mx - Min3(r, g, b);
    if mx == r then
      QuotientInUnit(g - b, delta);
      (g - b) / delta + (if g < b then 6.0 else 0.0)
    else if mx == g then
      QuotientInUnit(b - r, delta);
      (b - r) / delta + 2.0
    else
      QuotientInUnit(r - g, delta);
      (r - g) / delta + 4.0
  }

  /** Saturation of a chromatic colour: delta over the lightness-dependent
      denominator. */
  function Saturation(mx: real, mn: real): (s: real)
    requires 0.0 <= mn < mx <= 1.0
    ensures 0.0 < s <= 1.0
  {
    var l := (mx + mn) / 2.0;
    var delta := mx - mn;
    if l > 0.5 then
      SaturationBound(delta, 2.0 - mx - mn);
      delta / (2.0 - mx - mn)
    else
      SaturationBound(delta, mx + mn);
      delta / (mx + mn)
  }

  lemma SaturationBound(delta: real, den: real)
    requires 0.0 < delta <= den
    ensures 0.0 < delta / den <= 1.0
  {
    DivPos(delta, den);
    DivAtMostOne(delta, den);
  }

  /** `HSL::fromRGB`, for channels in [0, 255]. Outside that range a
      saturation denominator can be zero; the double quotient is then
      infinite and the constructor clamps it to 1, a case the model leaves
      out. */
  function FromRGB(c: RGB): (x: HSL)
    requires InGamut(c)
    ensures Normalized(x)
    ensures x.l == (Max3(Unit(c.r), Unit(c.g), Unit(c.b)) + Min3(Unit(c.r), Unit(c.g), Unit(c.b))) / 2.0
    ensures x.a == ClampInt(c.a, 0, 255)
    ensures x.s == 0.0 <==> c.r == c.g == c.b
    ensures c.r == c.g == c.b ==> x.h == 0.0
  {
    var r := Unit(c.r);
    var g := Unit(c.g);
    var b := Unit(c.b);
    var mx := Max3(r, g, b);
    var mn := Min3(r, g, b);
    var l := (mx + mn) / 2.0;
    if mx - mn == 0.0 then
      MakeHSL(0.0 * 360.0, 0.0, l, c.a)
    else
      MakeHSL(RawHue(r, g, b) / 6.0 * 360.0, Saturation(mx, mn), l, c.a)
  }

  lemma FromRGBExamples()
    ensures FromRGB(Red) == HSL(0.0, 1.0, 0.5, 255)
    ensures FromRGB(Green) == HSL(120.0, 1.0, 0.5, 255)
    ensures FromRGB(Blue) == HSL(240.0, 1.0, 0.5, 255)
    ensures FromRGB(White) == HSL(0.0, 0.0, 1.0, 255)
    ensures FromRGB(Black) == HSL(0.0, 0.0, 0.0, 255)
  {
  }

  // ---------------------------------------------------------------------
  // HSL -> RGB

  /** The `hue_to_rgb` helper of `to_rgb`: a trapezoid over one turn that
      rises from `p` to `q`, stays at `q`, and falls back to `p`. */
  function HueToRgb(p: real, q: real, t: real): (v: real)
    ensures -1.0 <= t <= 2.0 ==> (p <= v <= q || q <= v <= p)
  {
    var t1 := if t < 0.0 then t + 1.0 else t;
    var t2 := if t1 > 1.0 then t1 - 1.0 else t1;
    if t2 < 1.0 / 6.0 then Lerp(p, q, 6.0 * t2)
    else if t2 < 1.0 / 2.0 then q
    else if t2 < 2.0 / 3.0 then Lerp(p, q, (2.0 / 3.0 - t2) * 6.0)
    else p
  }

  /** The two interpolation endpoints of `to_rgb`, from lightness and
      saturation. */
  function Q(l: real, s: real): real
  {
    if l < 0.5 then l * (1.0 + s) else l + s - l * s
  }

  function P(l: real, s: real): real
  {
    2.0 * l - Q(l, s)
  }

  /** For lightness and saturation in [0, 1] the endpoints are ordered and
      stay in [0, 1]. */
  lemma EndpointBounds(l: real, s: real)
    requires 0.0 <= l <= 1.0 && 0.0 <= s <= 1.0
    ensures 0.0 <= P(l, s) <= Q(l, s) <= 1.0
  {
    ProductNonneg(l, s);
    ProductAtMostLeft(l, s);
    if 0.5 <= l {
      ProductAtMostRight(l, s);
      SaturationSlack(l, s);
    }
  }

  lemma ProductNonneg(l: real, s: real)
    requires 0.0 <= l && 0.0 <= s
    ensures 0.0 <= l * s
  {
  }

  lemma ProductAtMostLeft(l: real, s: real)
    requires 0.0 <= l <= 1.0 && 0.0 <= s <= 1.0
    ensures l * s <= l
  {
  }

  lemma ProductAtMostRight(l: real, s: real)
    requires 0.0 <= l <= 1.0 && 0.0 <= s <= 1.0
    ensures l * s <= s
  {
  }

  lemma SaturationSlack(l: real, s: real)
    requires 0.0 <= l <= 1.0 && 0.0 <= s <= 1.0
    ensures s - l * s <= 1.0 - l
  {
  }

  /** `HSL::to_rgb`. */
  function ToRGB(x: HSL): (c: RGB)
    ensures c.a == x.a
    ensures x.s == 0.0 ==> c.r == c.g == c.b == Trunc(x.l * 255.0)
    ensures Normalized(x) ==> InGamut(c)
  {
    if x.s == 0.0 then
      var v := Trunc(x.l * 255.0);
      RGB(v, v, v, x.a)
    else
      var q := Q(x.l, x.s);
      var p := P(x.l, x.s);
      var hn := x.h / 360.0;
      var r := HueToRgb(p, q, hn + 1.0 / 3.0);
      var g := HueToRgb(p, q, hn);
      var b := HueToRgb(p, q, hn - 1.0 / 3.0);
      HueChannelInRange(x, hn + 1.0 / 3.0);
      HueChannelInRange(x, hn);
      HueChannelInRange(x, hn - 1.0 / 3.0);
      RGB(Round(r * 255.0), Round(g * 255.0), Round(b * 255.0), x.a)
  }

  lemma HueChannelInRange(x: HSL, t: real)
    ensures Normalized(x) && -1.0 <= t <= 2.0 ==> 0 <= Round(HueToRgb(P(x.l, x.s), Q(x.l, x.s), t) * 255.0) <= 255
  {
    if Normalized(x) && -1.0 <= t <= 2.0 {
      EndpointBounds(x.l, x.s);
    }
  }

  /** Converting a grey to HSL and back gives the grey unchanged: the
      lightness is the channel over 255 and the grey branch of `to_rgb`
      truncates it back to the channel. */
  lemma GreyRoundTrip(c: RGB)
    requires InGamut(c) && c.r == c.g == c.b
    ensures ToRGB(FromRGB(c)) == RGB(c.r, c.g, c.b, ClampInt(c.a, 0, 255))
  {
    var x := FromRGB(c);
    assert x.l == Unit(c.r);
    assert x.l * 255.0 == c.r as real;
  }

  /** For a chromatic colour the endpoint `q` of `to_rgb` is the largest
      channel: lightness plus half of `delta`, whichever saturation
      denominator was used. */
  lemma QIsMax(mx: real, mn: real)
    requires 0.0 <= mn < mx <= 1.0
    ensures Q((mx + mn) / 2.0, Saturation(mx, mn)) == mx
  {
    var l := (mx + mn) / 2.0;
    var s := Saturation(mx, mn);
    if l > 0.5 {
      QuotientTimes(2.0 - mx - mn, mx - mn);
      assert l * s == l * ((mx - mn) / (2.0 - mx - mn));
      assert s - l * s == s * (2.0 - mx - mn) / 2.0;
    } else {
      QuotientTimes(mx + mn, mx - mn);
      assert l * (1.0 + s) == l + s * (mx + mn) / 2.0;
    }
  }

  /** ... and the endpoint `p` is the smallest channel. */
  lemma PIsMin(mx: real, mn: real)
    requires 0.0 <= mn < mx <= 1.0
    ensures P((mx + mn) / 2.0, Saturation(mx, mn)) == mn
  {
    QIsMax(mx, mn);
  }

  lemma QuotientTimes(d: real, y: real)
    requires d != 0.0
    ensures y / d * d == y
  {
  }

  /** The rising edge of `hue_to_rgb` at weight `y / delta + c`. */
  lemma LerpRising(mn: real, mx: real, y: real, c: real)
    requires mn < mx
    ensures Lerp(mn, mx, y / (mx - mn) + c) == mn + y + c * (mx - mn)
  {
    QuotientTimes(mx - mn, y);
    assert (mx - mn) * (y / (mx - mn) + c) == y + c * (mx - mn);
  }

  /** The falling edge of `hue_to_rgb` at weight `c - y / delta`. */
  lemma LerpFalling(mn: real, mx: real, y: real, c: real)
    requires mn < mx
    ensures Lerp(mn, mx, c - y / (mx - mn)) == mn - y + c * (mx - mn)
  {
    QuotientTimes(mx - mn, y);
    assert (mx - mn) * (c - y / (mx - mn)) == c * (mx - mn) - y;
  }

  /** With the extremes as endpoints and the hue `from_rgb` computed,
      `hue_to_rgb` gives back each of the three channels. */
  lemma {:induction false} ChannelsRecovered(r: real, g: real, b: real)
    requires Max3(r, g, b) != Min3(r, g, b)
    ensures HueToRgb(Min3(r, g, b), Max3(r, g, b), RawHue(r, g, b) / 6.0 + 1.0 / 3.0) == r
    ensures HueToRgb(Min3(r, g, b), Max3(r, g, b), RawHue(r, g, b) / 6.0) == g
    ensures HueToRgb(Min3(r, g, b), Max3(r, g, b), RawHue(r, g, b) / 6.0 - 1.0 / 3.0) == b
  {
    var mx, mn := Max3(r, g, b), Min3(r, g, b);
    if mx == r {
      RedMaxRecovered(r, g, b);
    } else if mx == g {
      GreenMaxRecovered(r, g, b);
    } else {
      BlueMaxRecovered(r, g, b);
    }
  }

  lemma RedMaxRecovered(r: real, g: real, b: real)
    requires Max3(r, g, b) != Min3(r, g, b) && Max3(r, g, b) == r
    ensures HueToRgb(Min3(r, g, b), r, RawHue(r, g, b) / 6.0 + 1.0 / 3.0) == r
    ensures HueToRgb(Min3(r, g, b), r, RawHue(r, g, b) / 6.0) == g
    ensures HueToRgb(Min3(r, g, b), r, RawHue(r, g, b) / 6.0 - 1.0 / 3.0) == b
  {
    var delta := r - Min3(r, g, b);
    QuotientInUnit(g - b, delta);
    QuotientTimes(delta, g - b);
    if g < b {
      RedMaxBlueAbove(r, g, b);
    } else {
      RedMaxBlueBelow(r, g, b);
    }
  }

  /** Hue in the last sixth of the turn: red rises from `p` to `q`. */
  lemma RedMaxBlueAbove(r: real, g: real, b: real)
    requires g < b <= r
    ensures HueToRgb(g, r, RawHue(r, g, b) / 6.0 + 1.0 / 3.0) == r
    ensures HueToRgb(g, r, RawHue(r, g, b) / 6.0) == g
    ensures HueToRgb(g, r, RawHue(r, g, b) / 6.0 - 1.0 / 3.0) == b
  {
    var x := (g - b) / (r - g);
    QuotientInUnit(g - b, r - g);
    assert RawHue(r, g, b) == x + 6.0;
    LerpFalling(g, r, g - b, 0.0);
  }

  /** Hue in the first sixth of the turn: green rises from `p`. */
  lemma RedMaxBlueBelow(r: real, g: real, b: real)
    requires b <= g <= r && b < r
    ensures HueToRgb(b, r, RawHue(r, g, b) / 6.0 + 1.0 / 3.0) == r
    ensures HueToRgb(b, r, RawHue(r, g, b) / 6.0) == g
    ensures HueToRgb(b, r, RawHue(r, g, b) / 6.0 - 1.0 / 3.0) == b
  {
    var x := (g - b) / (r - b);
    QuotientInUnit(g - b, r - b);
    QuotientTimes(r - b, g - b);
    assert RawHue(r, g, b) == x;
    LerpRising(b, r, g - b, 0.0);
  }

  lemma GreenMaxRecovered(r: real, g: real, b: real)
    requires Max3(r, g, b) != Min3(r, g, b) && Max3(r, g, b) == g && Max3(r, g, b) != r
    ensures HueToRgb(Min3(r, g, b), g, RawHue(r, g, b) / 6.0 + 1.0 / 3.0) == r
    ensures HueToRgb(Min3(r, g, b), g, RawHue(r, g, b) / 6.0) == g
    ensures HueToRgb(Min3(r, g, b), g, RawHue(r, g, b) / 6.0 - 1.0 / 3.0) == b
  {
    var mn := Min3(r, g, b);
    var delta := g - mn;
    var x := (b - r) / delta;
    QuotientInUnit(b - r, delta);
    QuotientTimes(delta, b - r);
    assert RawHue(r, g, b) == x + 2.0;
    GreenMaxRed(r, g, b, mn, x);
    GreenMaxBlue(r, g, b, mn, x);
  }

  lemma GreenMaxRed(r: real, g: real, b: real, mn: real, x: real)
    requires mn == Min3(r, g, b) && mn < g && r < g && b <= g
    requires x == (b - r) / (g - mn) && -1.0 <= x <= 1.0
    requires x < 0.0 <==> b < r
    ensures HueToRgb(mn, g, (x + 2.0) / 6.0 + 1.0 / 3.0) == r
  {
    if x < 0.0 {
      assert mn == b;
      LerpFalling(mn, g, b - r, 0.0);
    }
  }

  lemma GreenMaxBlue(r: real, g: real, b: real, mn: real, x: real)
    requires mn == Min3(r, g, b) && mn < g && r < g && b <= g
    requires x == (b - r) / (g - mn) && -1.0 <= x <= 1.0
    requires x < 0.0 <==> b < r
    requires (b - r) / (g - mn) * (g - mn) == b - r
    ensures HueToRgb(mn, g, (x + 2.0) / 6.0 - 1.0 / 3.0) == b
  {
    if 0.0 <= x {
      assert mn == r;
      LerpRising(mn, g, b - r, 0.0);
    }
  }

  lemma BlueMaxRecovered(r: real, g: real, b: real)
    requires Max3(r, g, b) != Min3(r, g, b) && Max3(r, g, b) == b
    requires Max3(r, g, b) != r && Max3(r, g, b) != g
    ensures HueToRgb(Min3(r, g, b), b, RawHue(r, g, b) / 6.0 + 1.0 / 3.0) == r
    ensures HueToRgb(Min3(r, g, b), b, RawHue(r, g, b) / 6.0) == g
    ensures HueToRgb(Min3(r, g, b), b, RawHue(r, g, b) / 6.0 - 1.0 / 3.0) == b
  {
    var mn := Min3(r, g, b);
    var delta := b - mn;
    var x := (r - g) / delta;
    QuotientInUnit(r - g, delta);
    QuotientTimes(delta, r - g);
    assert RawHue(r, g, b) == x + 4.0;
    BlueMaxRed(r, g, b, mn, x);
    BlueMaxGreen(r, g, b, mn, x);
  }

  lemma BlueMaxRed(r: real, g: real, b: real, mn: real, x: real)
    requires mn == Min3(r, g, b) && mn < b && r < b && g < b
    requires x == (r - g) / (b - mn) && -1.0 <= x <= 1.0
    requires x < 0.0 <==> r < g
    requires (r - g) / (b - mn) * (b - mn) == r - g
    ensures HueToRgb(mn, b, (x + 4.0) / 6.0 + 1.0 / 3.0) == r
  {
    if 0.0 < x {
      assert mn == g;
      LerpRising(mn, b, r - g, 0.0);
    } else {
      assert mn == r;
    }
  }

  lemma BlueMaxGreen(r: real, g: real, b: real, mn: real, x: real)
    requires mn == Min3(r, g, b) && mn < b && r < b && g < b
    requires x == (r - g) / (b - mn) && -1.0 <= x <= 1.0
    requires x < 0.0 <==> r < g
    ensures HueToRgb(mn, b, (x + 4.0) / 6.0) == g
  {
    if x < 0.0 {
      assert mn == r;
      LerpFalling(mn, b, r - g, 0.0);
    } else {
      assert mn == g;
    }
  }

  /** Converting an in-range colour to HSL and back gives the colour
      unchanged (with its alpha clamped): `q` and `p` are the largest and
      smallest channel, `hue_to_rgb` recovers each channel exactly, and
      rounding a whole multiple of 1/255 times 255 returns the channel. */
  lemma RoundTrip(c: RGB)
    requires InGamut(c)
    ensures ToRGB(FromRGB(c)) == RGB(c.r, c.g, c.b, ClampInt(c.a, 0, 255))
  {
    var r, g, b := Unit(c.r), Unit(c.g), Unit(c.b);
    var mx, mn := Max3(r, g, b), Min3(r, g, b);
    if c.r == c.g == c.b {
      GreyRoundTrip(c);
    } else {
      var x := FromRGB(c);
      assert mx != mn;
      assert x.s == Saturation(mx, mn);
      assert x.h == RawHue(r, g, b) / 6.0 * 360.0;
      QIsMax(mx, mn);
      PIsMin(mx, mn);
      ChannelsRecovered(r, g, b);
      assert r * 255.0 == c.r as real;
      assert g * 255.0 == c.g as real;
      assert b * 255.0 == c.b as real;
      RoundOfInt(c.r);
      RoundOfInt(c.g);
      RoundOfInt(c.b);
    }
  }

  // ---------------------------------------------------------------------
  // Adjustments: each rebuilds the value through the constructor.

  function AdjustHue(x: HSL, degrees: real): (y: HSL)
    ensures Normalized(y)
    ensures SameHue(x.h + degrees, y.h)
    ensures Normalized(x) ==> y.s == x.s && y.l == x.l && y.a == x.a
  {
    MakeHSL(x.h + degrees, x.s, x.l, x.a)
  }

  function AdjustSaturation(x: HSL, factor: real): (y: HSL)
    ensures Normalized(y)
    ensures y.s == Clamp(x.s * factor, 0.0, 1.0)
    ensures Normalized(x) ==> y.h == x.h && y.l == x.l && y.a == x.a
  {
    MakeHSL(x.h, x.s * factor, x.l, x.a)
  }

  function AdjustLightness(x: HSL, factor: real): (y: HSL)
    ensures Normalized(y)
    ensures y.l == Clamp(x.l * factor, 0.0, 1.0)
    ensures Normalized(x) ==> y.h == x.h && y.s == x.s && y.a == x.a
  {
    MakeHSL(x.h, x.s, x.l * factor, x.a)
  }

  function Saturate(x: HSL, amount: real): (y: HSL)
    ensures Normalized(y)
    ensures y.s == Clamp(x.s + amount, 0.0, 1.0)
    ensures Normalized(x) ==> y.h == x.h && y.l == x.l && y.a == x.a
  {
    MakeHSL(x.h, Clamp(x.s + amount, 0.0, 1.0), x.l, x.a)
  }

  function Desaturate(x: HSL, amount: real): (y: HSL)
    ensures Normalized(y)
    ensures y.s == Clamp(x.s - amount, 0.0, 1.0)
    ensures Normalized(x) ==> y.h == x.h && y.l == x.l && y.a == x.a
  {
    MakeHSL(x.h, Clamp(x.s - amount, 0.0, 1.0), x.l, x.a)
  }

  function Lighten(x: HSL, amount: real): (y: HSL)
    ensures Normalized(y)
    ensures y.l == Clamp(x.l + amount, 0.0, 1.0)
    ensures Normalized(x) ==> y.h == x.h && y.s == x.s && y.a == x.a
  {
    MakeHSL(x.h, x.s, Clamp(x.l + amount, 0.0, 1.0), x.a)
  }

  function Darken(x: HSL, amount: real): (y: HSL)
    ensures Normalized(y)
    ensures y.l == Clamp(x.l - amount, 0.0, 1.0)
    ensures Normalized(x) ==> y.h == x.h && y.s == x.s && y.a == x.a
  {
    MakeHSL(x.h, x.s, Clamp(x.l - amount, 0.0, 1.0), x.a)
  }

  /** Rotations compose: two hue adjustments are one by the sum. */
  lemma AdjustHueCompose(x: HSL, d1: real, d2: real)
    requires Normalized(x)
    ensures AdjustHue(AdjustHue(x, d1), d2) == AdjustHue(x, d1 + d2)
  {
    WrapHueCompose(x.h + d1, d2);
    assert x.h + d1 + d2 == x.h + (d1 + d2);
  }

  /** A full turn changes nothing. */
  lemma AdjustHueFullTurn(x: HSL)
    requires Normalized(x)
    ensures AdjustHue(x, 360.0) == x
    ensures AdjustHue(x, 0.0) == x
  {
    assert WholeTurns(x.h + 360.0 - x.h);
    WrapHueUnique(x.h + 360.0, x.h);
  }

  lemma AdjustmentExamples()
    ensures AdjustHue(MakeHSL(180.0, 0.5, 0.5, 255), 30.0).h == 210.0
    ensures Saturate(MakeHSL(180.0, 0.5, 0.5, 255), 0.2).s == 0.7
    ensures Desaturate(MakeHSL(180.0, 0.5, 0.5, 255), 0.2).s == 0.3
    ensures Lighten(MakeHSL(180.0, 0.5, 0.5, 255), 0.2).l == 0.7
    ensures Darken(MakeHSL(180.0, 0.5, 0.5, 255), 0.2).l == 0.3
  {
  }

  // ---------------------------------------------------------------------
  // Harmonies

  function Complement(x: HSL): (y: HSL)
    ensures Normalized(y)
    ensures SameHue(x.h + 180.0, y.h)
    ensures Normalized(x) ==> y.s == x.s && y.l == x.l && y.a == x.a
  {
    AdjustHue(x, 180.0)
  }

  /** The complement of the complement is the colour itself. */
  lemma ComplementInvolutive(x: HSL)
    requires Normalized(x)
    ensures Complement(Complement(x)) == x
  {
    AdjustHueCompose(x, 180.0, 180.0);
    AdjustHueFullTurn(x);
  }

  function Triadic(x: HSL): (t: seq<HSL>)
    ensures |t| == 3 && t[0] == x
    ensures SameHue(x.h + 120.0, t[1].h) && SameHue(x.h + 240.0, t[2].h)
    ensures Normalized(x) ==> forall i :: 0 <= i < 3 ==> t[i].s == x.s && t[i].l == x.l && t[i].a == x.a
  {
    [x, AdjustHue(x, 120.0), AdjustHue(x, 240.0)]
  }

  /** Each member of a triad rotated by a third of a turn is the next one,
      cyclically. */
  lemma TriadicCycle(x: HSL)
    requires Normalized(x)
    ensures AdjustHue(Triadic(x)[0], 120.0) == Triadic(x)[1]
    ensures AdjustHue(Triadic(x)[1], 120.0) == Triadic(x)[2]
    ensures AdjustHue(Triadic(x)[2], 120.0) == Triadic(x)[0]
  {
    AdjustHueCompose(x, 120.0, 120.0);
    AdjustHueCompose(x, 240.0, 120.0);
    AdjustHueFullTurn(x);
  }

  function Analogous(x: HSL, angle: real): (t: seq<HSL>)
    ensures |t| == 3 && t[1] == x
    ensures SameHue(x.h - angle, t[0].h) && SameHue(x.h + angle, t[2].h)
    ensures Normalized(x) ==> forall i :: 0 <= i < 3 ==> t[i].s == x.s && t[i].l == x.l && t[i].a == x.a
  {
    [AdjustHue(x, -angle), x, AdjustHue(x, angle)]
  }

  /** Rotating the outer analogous colours back by the angle recovers the
      base colour. */
  lemma AnalogousSymmetric(x: HSL, angle: real)
    requires Normalized(x)
    ensures AdjustHue(Analogous(x, angle)[0], angle) == x
    ensures AdjustHue(Analogous(x, angle)[2], -angle) == x
  {
    AdjustHueCompose(x, -angle, angle);
    AdjustHueCompose(x, angle, -angle);
    AdjustHueFullTurn(x);
  }

  function SplitComplementary(x: HSL, angle: real): (t: seq<HSL>)
    ensures |t| == 3 && t[0] == x
    ensures SameHue(x.h + 180.0 - angle, t[1].h) && SameHue(x.h + 180.0 + angle, t[2].h)
    ensures Normalized(x) ==> forall i :: 0 <= i < 3 ==> t[i].s == x.s && t[i].l == x.l && t[i].a == x.a
  {
    [x, AdjustHue(x, 180.0 - angle), AdjustHue(x, 180.0 + angle)]
  }

  /** The split complements are the analogous neighbours of the complement. */
  lemma SplitComplementaryIsAnalogousOfComplement(x: HSL, angle: real)
    requires Normalized(x)
    ensures SplitComplementary(x, angle)[1] == Analogous(Complement(x), angle)[0]
    ensures SplitComplementary(x, angle)[2] == Analogous(Complement(x), angle)[2]
  {
    AdjustHueCompose(x, 180.0, -angle);
    AdjustHueCompose(x, 180.0, angle);
    assert 180.0 + -angle == 180.0 - angle;
  }

  lemma HarmonyExamples()
    ensures Complement(MakeHSL(120.0, 0.8, 0.6, 255)).h == 300.0
    ensures Triadic(MakeHSL(120.0, 0.8, 0.6, 255))[1].h == 240.0
    ensures Triadic(MakeHSL(120.0, 0.8, 0.6, 255))[2].h == 0.0
  {
    WrapHueUnique(360.0, 0.0);
  }
}

/** Colour utilities (include/pigment/utils.hpp): colour-blindness
    simulation, WCAG contrast and accessibility levels, harmony schemes,
    sorting, nearest-colour search and palette quantisation. */
module Utils {
  import opened Numeric
  import opened Rgb
  import Hsl
  import Palettes

  // ---------------------------------------------------------------------
  // Colour-blindness simulation

  /** `ColorBlindness::Type`, in declaration order. */
  datatype Deficiency =
    | Protanopia | Deuteranopia | Tritanopia
    | Protanomaly | Deuteranomaly | Tritanomaly

  /** The enumerator's integer value. */
  function Ordinal(t: Deficiency): nat
  {
    match t
    case Protanopia => 0
    case Deuteranopia => 1
    case Tritanopia => 2
    case Protanomaly => 3
    case Deuteranomaly => 4
    case Tritanomaly => 5
  }

  function FromOrdinal(n: nat): (t: Deficiency)
    requires n < 6
    ensures Ordinal(t) == n
  {
    if n == 0 then Protanopia
    else if n == 1 then Deuteranopia
    else if n == 2 then Tritanopia
    else if n == 3 then Protanomaly
    else if n == 4 then Deuteranomaly
    else Tritanomaly
  }

  /** The three types with a matrix of their own; the others are the
      weaker "anomaly" forms. */
  predicate IsFull(t: Deficiency)
  {
    Ordinal(t) < 3
  }

  /** One row of a simulation matrix: the weights of the red, green and
      blue inputs. */
  datatype Row = Row(wr: real, wg: real, wb: real)

  /** The matrix rows of a full deficiency, as the `switch` lists them. */
  function Matrix(t: Deficiency): (m: (Row, Row, Row))
    requires IsFull(t)
    ensures Stochastic(m.0) && Stochastic(m.1) && Stochastic(m.2)
  {
    match t
    case Protanopia => (Row(0.567, 0.433, 0.0), Row(0.558, 0.442, 0.0), Row(0.0, 0.242, 0.758))
    case Deuteranopia => (Row(0.625, 0.375, 0.0), Row(0.7, 0.3, 0.0), Row(0.0, 0.3, 0.7))
    case Tritanopia => (Row(0.95, 0.05, 0.0), Row(0.0, 0.433, 0.567), Row(0.0, 0.475, 0.525))
  }

  /** Every matrix is stochastic: non-negative weights summing to one. */
  predicate Stochastic(w: Row)
  {
    0.0 <= w.wr && 0.0 <= w.wg && 0.0 <= w.wb && w.wr + w.wg + w.wb == 1.0
  }

  lemma MatrixStochastic(t: Deficiency)
    requires IsFull(t)
    ensures Stochastic(Matrix(t).0) && Stochastic(Matrix(t).1) && Stochastic(Matrix(t).2)
  {
  }

  /** A row applied to the scaled channels, scaled back, truncated toward
      zero and clamped to [0, 255]. */
  function Apply(w: Row, c: RGB): (v: int)
    ensures 0 <= v <= 255
  {
    var x := w.wr * Unit(c.r) + w.wg * Unit(c.g) + w.wb * Unit(c.b);
    ClampInt(Trunc(x * 255.0), 0, 255)
  }

  /** A stochastic row maps a grey channel value in [0, 255] to itself. */
  lemma ApplyGrey(w: Row, c: RGB)
    requires Stochastic(w) && c.r == c.g == c.b && 0 <= c.r <= 255
    ensures Apply(w, c) == c.r
  {
    var u := Unit(c.r);
    assert w.wr * u + w.wg * u + w.wb * u == (w.wr + w.wg + w.wb) * u;
    assert u * 255.0 == c.r as real;
  }

  /** `ColorBlindness::simulate(color, type)`. The anomaly types recurse
      once, into the type three places earlier, and blend that result
      half-way back towards the original colour with `mix`. */
  function Simulate(c: RGB, t: Deficiency, mix: Mixer): (s: RGB)
    ensures IsFull(t) ==> InGamut(s) && s.a == c.a
    decreases Ordinal(t)
  {
    if IsFull(t) then
      var m := Matrix(t);
      RGB(Apply(m.0, c), Apply(m.1, c), Apply(m.2, c), c.a)
    else
      mix(Simulate(c, FromOrdinal(Ordinal(t) - 3), mix), c, 0.5)
  }

  /** The anomaly of a type is the blend of the matching full type with
      the original, and the recursion bottoms out after one level. */
  lemma AnomalyIsHalfBlend(c: RGB, t: Deficiency, mix: Mixer)
    requires !IsFull(t)
    ensures IsFull(FromOrdinal(Ordinal(t) - 3))
    ensures Simulate(c, t, mix) == mix(Simulate(c, FromOrdinal(Ordinal(t) - 3), mix), c, 0.5)
  {
  }

  /** Greys look the same to everyone: a full simulation of a grey is the
      identity, and so, under the laws of `mix`, is an anomaly. */
  lemma SimulateGrey(c: RGB, t: Deficiency, mix: Mixer)
    requires MixLaws(mix) && c.r == c.g == c.b && 0 <= c.r <= 255
    ensures Simulate(c, t, mix) == c
  {
    var f := if IsFull(t) then t else FromOrdinal(Ordinal(t) - 3);
    MatrixStochastic(f);
    ApplyGrey(Matrix(f).0, c);
    ApplyGrey(Matrix(f).1, c);
    ApplyGrey(Matrix(f).2, c);
    assert Simulate(c, f, mix) == c;
  }

  /** The library's test colour (255, 100, 50) under protanopia: every
      channel changes. */
  lemma SimulateExample(mix: Mixer)
    ensures Simulate(RGB(255, 100, 50, 255), Protanopia, mix) == RGB(187, 186, 62, 255)
  {
    var c := RGB(255, 100, 50, 255);
    assert Apply(Row(0.567, 0.433, 0.0), c) == 187;
    assert Apply(Row(0.558, 0.442, 0.0), c) == 186;
    assert Apply(Row(0.0, 0.242, 0.758), c) == 62;
  }

  // ---------------------------------------------------------------------
  // Contrast

  /** `(lighter + 0.05) / (darker + 0.05)` for two relative luminances. */
  function ContrastOf(l1: real, l2: real): (ratio: real)
    requires 0.0 <= l1 && 0.0 <= l2
    ensures 1.0 <= ratio
    ensures ratio == 1.0 <==> l1 == l2
  {
    var hi := if l1 < l2 then l2 else l1;
    var lo := if l1 < l2 then l1 else l2;
    DivAtLeastOne(hi + 0.05, lo + 0.05);
    DivIsOne(hi + 0.05, lo + 0.05);
    (hi + 0.05) / (lo + 0.05)
  }

  lemma DivAtLeastOne(x: real, y: real)
    requires 0.0 < y <= x
    ensures 1.0 <= x / y
  {
  }

  lemma DivIsOne(x: real, y: real)
    requires 0.0 < y
    ensures x / y == 1.0 <==> x == y
  {
  }

  lemma DivAtMost(x: real, y: real, k: real)
    requires 0.0 < y && x <= k * y
    ensures x / y <= k
  {
  }

  /** `contrast_ratio(color1, color2)`: the luminances come from
      `luminance()` divided by 255; the luminance function is the parameter
      `lum` and must not be negative. */
  function ContrastRatio(lum: Luminance, c1: RGB, c2: RGB): (ratio: real)
    requires 0.0 <= lum(c1) && 0.0 <= lum(c2)
    ensures 1.0 <= ratio
    ensures ratio == 1.0 <==> lum(c1) == lum(c2)
  {
    ContrastOf(lum(c1) / 255.0, lum(c2) / 255.0)
  }

  lemma ContrastSymmetric(lum: Luminance, c1: RGB, c2: RGB)
    requires 0.0 <= lum(c1) && 0.0 <= lum(c2)
    ensures ContrastRatio(lum, c1, c2) == ContrastRatio(lum, c2, c1)
  {
  }

  /** For luminances in [0, 255] the ratio is at most 21, reached by black
      against white. */
  lemma ContrastBounded(lum: Luminance, c1: RGB, c2: RGB)
    requires 0.0 <= lum(c1) <= 255.0 && 0.0 <= lum(c2) <= 255.0
    ensures ContrastRatio(lum, c1, c2) <= 21.0
    ensures lum(c1) == 255.0 && lum(c2) == 0.0 ==> ContrastRatio(lum, c1, c2) == 21.0
  {
    var l1 := lum(c1) / 255.0;
    var l2 := lum(c2) / 255.0;
    var hi := if l1 < l2 then l2 else l1;
    var lo := if l1 < l2 then l1 else l2;
    DivAtMost(hi + 0.05, lo + 0.05, 21.0);
  }

  /** Contrast grows as the lighter colour gets lighter. */
  lemma ContrastMonotone(l1: real, l2: real, lo: real)
    requires 0.0 <= lo <= l1 <= l2
    ensures ContrastOf(l1, lo) <= ContrastOf(l2, lo)
  {
    DivMono(l1 + 0.05, l2 + 0.05, lo + 0.05);
  }

  lemma DivMono(x: real, y: real, d: real)
    requires 0.0 < d && x <= y
    ensures x / d <= y / d
  {
  }

  // ---------------------------------------------------------------------
  // Accessibility levels (WCAG 2.1, success criteria 1.4.3 and 1.4.6)

  datatype Level = Fail | AANormal | AALarge | AAANormal | AAALarge

  /** The branch structure of `check_accessibility` on a ratio. */
  function Classify(ratio: real, largeText: bool): (level: Level)
    ensures level == AANormal ==> !largeText
  {
    if ratio >= 7.0 then AAANormal
    else if ratio >= 4.5 then (if largeText then AAALarge else AANormal)
    else if ratio >= 3.0 && largeText then AALarge
    else Fail
  }

  /** Each level holds for exactly the ratios WCAG assigns it. */
  lemma ClassifyExactly(ratio: real, largeText: bool)
    ensures Classify(ratio, largeText) == AAANormal <==> 7.0 <= ratio
    ensures Classify(ratio, largeText) == AAALarge <==> largeText && 4.5 <= ratio < 7.0
    ensures Classify(ratio, largeText) == AANormal <==> !largeText && 4.5 <= ratio < 7.0
    ensures Classify(ratio, largeText) == AALarge <==> largeText && 3.0 <= ratio < 4.5
    ensures Classify(ratio, largeText) == Fail <==> ratio < 3.0 || (!largeText && ratio < 4.5)
  {
  }

  /** The minimum ratio a level guarantees. */
  function Threshold(level: Level): real
  {
    match level
    case Fail => 0.0
    case AALarge => 3.0
    case AANormal => 4.5
    case AAALarge => 4.5
    case AAANormal => 7.0
  }

  /** The level reached is the best one whose threshold the ratio meets:
      a better ratio never yields a lower threshold. */
  lemma ClassifyMonotone(r1: real, r2: real, largeText: bool)
    requires r1 <= r2
    ensures Threshold(Classify(r1, largeText)) <= Threshold(Classify(r2, largeText))
    ensures Threshold(Classify(r1, largeText)) <= r1 || Classify(r1, largeText) == Fail
  {
  }

  /** `check_accessibility(foreground, background, large_text)`. */
  function CheckAccessibility(lum: Luminance, fg: RGB, bg: RGB, largeText: bool): (level: Level)
    requires 0.0 <= lum(fg) && 0.0 <= lum(bg)
    ensures level == AANormal ==> !largeText
    ensures lum(fg) == lum(bg) ==> level == Fail
  {
    Classify(ContrastRatio(lum, fg, bg), largeText)
  }

  /** Swapping foreground and background does not change the level. */
  lemma CheckAccessibilitySymmetric(lum: Luminance, fg: RGB, bg: RGB, largeText: bool)
    requires 0.0 <= lum(fg) && 0.0 <= lum(bg)
    ensures CheckAccessibility(lum, fg, bg, largeText) == CheckAccessibility(lum, bg, fg, largeText)
  {
    ContrastSymmetric(lum, fg, bg);
  }

  /** Black text on white reaches the top level. */
  lemma BlackOnWhite(lum: Luminance, largeText: bool)
    requires lum(Black) == 0.0 && lum(White) == 255.0
    ensures ContrastRatio(lum, Black, White) == 21.0
    ensures CheckAccessibility(lum, Black, White, largeText) == AAANormal
  {
    ContrastSymmetric(lum, Black, White);
    ContrastBounded(lum, White, Black);
  }

  /** `best_contrast_color(background)`: white when it contrasts strictly
      more than black, otherwise black. */
  function BestContrastColor(lum: Luminance, bg: RGB): (c: RGB)
    requires 0.0 <= lum(bg) && 0.0 <= lum(White) && 0.0 <= lum(Black)
    ensures c == White || c == Black
    ensures ContrastRatio(lum, White, bg) <= ContrastRatio(lum, c, bg)
    ensures ContrastRatio(lum, Black, bg) <= ContrastRatio(lum, c, bg)
    ensures ContrastRatio(lum, White, bg) == ContrastRatio(lum, Black, bg) ==> c == Black
  {
    if ContrastRatio(lum, White, bg) > ContrastRatio(lum, Black, bg) then White else Black
  }

  /** The library's checks: black on white, and white on black. */
  lemma BestContrastExamples(lum: Luminance)
    requires lum(Black) == 0.0 && lum(White) == 255.0
    ensures BestContrastColor(lum, White) == Black
    ensures BestContrastColor(lum, Black) == White
  {
    ContrastBounded(lum, Black, White);
    ContrastSymmetric(lum, Black, White);
  }

  // ---------------------------------------------------------------------
  // Harmony schemes

  /** The number of colours `generate_harmony` returns for a scheme. */
  function HarmonySize(scheme: string): nat
  {
    if scheme == "complementary" then 2
    else if scheme == "triadic" then 3
    else if scheme == "split_complementary" then 3
    else if scheme == "analogous" then 3
    else if scheme == "tetradic" then 4
    else 1
  }

  /** `generate_harmony(base, scheme)`: the base colour followed by the
      scheme's other members, converted back from HSL; an unknown scheme
      gives the base colour alone. The default angles are 30 degrees. */
  function GenerateHarmony(base: RGB, scheme: string): (cs: seq<RGB>)
    requires InGamut(base)
    ensures |cs| == HarmonySize(scheme)
    ensures cs[0] == base
  {
    var x := Hsl.FromRGB(base);
    if scheme == "complementary" then
      [base, Hsl.ToRGB(Hsl.Complement(x))]
    else if scheme == "triadic" then
      var t := Hsl.Triadic(x);
      [base, Hsl.ToRGB(t[1]), Hsl.ToRGB(t[2])]
    else if scheme == "split_complementary" then
      var t := Hsl.SplitComplementary(x, 30.0);
      [base, Hsl.ToRGB(t[1]), Hsl.ToRGB(t[2])]
    else if scheme == "analogous" then
      var t := Hsl.Analogous(x, 30.0);
      [base, Hsl.ToRGB(t[0]), Hsl.ToRGB(t[2])]
    else if scheme == "tetradic" then
      [base, Hsl.ToRGB(Hsl.AdjustHue(x, 90.0)), Hsl.ToRGB(Hsl.AdjustHue(x, 180.0)),
       Hsl.ToRGB(Hsl.AdjustHue(x, 270.0))]
    else
      [base]
  }

  /** The complementary and triadic schemes agree with the palette
      builders of the same name, except that the scheme keeps the base
      colour itself in front. */
  lemma HarmonyMatchesPalettes(base: RGB)
    requires InGamut(base)
    ensures GenerateHarmony(base, "complementary") == Palettes.Complementary(base).colors
    ensures GenerateHarmony(base, "triadic")[1..] == Palettes.Triadic(base).colors[1..]
  {
  }

  /** Every member after the first is a valid colour with the base's
      saturation and lightness in HSL and its alpha, clamped. */
  lemma HarmonyMembersValid(base: RGB, scheme: string, i: nat)
    requires InGamut(base) && 0 < i < HarmonySize(scheme)
    ensures InGamut(GenerateHarmony(base, scheme)[i])
    ensures GenerateHarmony(base, scheme)[i].a == ClampInt(base.a, 0, 255)
  {
  }

  /** The tetradic scheme is closed under a quarter turn: rotating its
      second member by another 90 degrees gives the HSL of its third. */
  lemma TetradicQuarterTurns(base: RGB)
    requires InGamut(base)
    ensures Hsl.AdjustHue(Hsl.AdjustHue(Hsl.FromRGB(base), 90.0), 90.0) == Hsl.AdjustHue(Hsl.FromRGB(base), 180.0)
    ensures Hsl.AdjustHue(Hsl.AdjustHue(Hsl.FromRGB(base), 180.0), 90.0) == Hsl.AdjustHue(Hsl.FromRGB(base), 270.0)
  {
    Hsl.AdjustHueCompose(Hsl.FromRGB(base), 90.0, 90.0);
    Hsl.AdjustHueCompose(Hsl.FromRGB(base), 180.0, 90.0);
  }

  // ---------------------------------------------------------------------
  // Sorting. `std::sort` with a strict `<` on a key; the order of equal
  // keys is unspecified, and the model fixes one: insertion order.

  /** The elements are ordered by non-decreasing key. */
  predicate SortedBy<T>(xs: seq<T>, key: T -> real)
  {
    forall i, j :: 0 <= i < j < |xs| ==> key(xs[i]) <= key(xs[j])
  }

  /** Inserting into a sorted sequence before the first larger key. */
  function Insert<T>(x: T, xs: seq<T>, key: T -> real): (r: seq<T>)
    ensures multiset(r) == multiset(xs) + multiset{x}
    decreases |xs|
  {
    if |xs| == 0 then [x]
    else if key(x) <= key(xs[0]) then [x] + xs
    else
      assert xs == [xs[0]] + xs[1..];
      [xs[0]] + Insert(x, xs[1..], key)
  }

  /** The elements all have a key of at least `b`. */
  predicate KeysAtLeast<T>(xs: seq<T>, key: T -> real, b: real)
  {
    forall i :: 0 <= i < |xs| ==> b <= key(xs[i])
  }

  /** Inserting an element above a lower bound keeps the bound. */
  lemma {:induction false} InsertKeepsBound<T>(x: T, xs: seq<T>, key: T -> real, b: real)
    requires KeysAtLeast(xs, key, b) && b <= key(x)
    ensures KeysAtLeast(Insert(x, xs, key), key, b)
    decreases |xs|
  {
    if |xs| > 0 && key(xs[0]) < key(x) {
      InsertKeepsBound(x, xs[1..], key, b);
      var r := Insert(x, xs, key);
      assert r == [xs[0]] + Insert(x, xs[1..], key);
    }
  }

  /** Putting an element in front of a sorted sequence whose keys are all
      at least its own keeps it sorted. */
  lemma ConsSorted<T>(y: T, ys: seq<T>, key: T -> real)
    requires SortedBy(ys, key) && KeysAtLeast(ys, key, key(y))
    ensures SortedBy([y] + ys, key)
  {
    var r := [y] + ys;
    forall i, j | 0 <= i < j < |r|
      ensures key(r[i]) <= key(r[j])
    {
      assert r[j] == ys[j - 1];
      if i > 0 {
        assert r[i] == ys[i - 1];
      }
    }
  }

  /** Insertion keeps a sorted sequence sorted. */
  lemma {:induction false} InsertSorted<T>(x: T, xs: seq<T>, key: T -> real)
    requires SortedBy(xs, key)
    ensures SortedBy(Insert(x, xs, key), key)
    decreases |xs|
  {
    if |xs| == 0 {
    } else if key(x) <= key(xs[0]) {
      assert forall i :: 0 <= i < |xs| ==> key(xs[0]) <= key(xs[i]);
      ConsSorted(x, xs, key);
    } else {
      var rest := Insert(x, xs[1..], key);
      assert SortedBy(xs[1..], key);
      assert KeysAtLeast(xs[1..], key, key(xs[0]));
      InsertSorted(x, xs[1..], key);
      InsertKeepsBound(x, xs[1..], key, key(xs[0]));
      ConsSorted(xs[0], rest, key);
    }
  }

  /** Sorting by a key: a permutation of the input in key order. */
  function SortBy<T>(xs: seq<T>, key: T -> real): (r: seq<T>)
    ensures multiset(r) == multiset(xs)
    ensures SortedBy(r, key)
    decreases |xs|
  {
    if |xs| == 0 then []
    else
      assert xs == [xs[0]] + xs[1..];
      var rest := SortBy(xs[1..], key);
      InsertSorted(xs[0], rest, key);
      Insert(xs[0], rest, key)
  }

  /** Colours with every channel in [0, 255], the ones `HSL::fromRGB` can
      convert. */
  type GamutColor = c: RGB | InGamut(c) witness Black

  /** The HSL hue of a colour, the key of `sort_by_hue`. */
  function HueKey(c: GamutColor): (k: real)
    ensures 0.0 <= k < 360.0
    ensures c.r == c.g == c.b ==> k == 0.0
  {
    Hsl.FromRGB(c).h
  }

  /** The HSL saturation of a colour, the key of `sort_by_saturation`. */
  function SaturationKey(c: GamutColor): (k: real)
    ensures 0.0 <= k <= 1.0
    ensures k == 0.0 <==> c.r == c.g == c.b
  {
    Hsl.FromRGB(c).s
  }

  /** `sort_by_hue(colors)`. */
  function SortByHue(cs: seq<GamutColor>): (r: seq<GamutColor>)
    ensures multiset(r) == multiset(cs)
    ensures SortedBy(r, HueKey)
  {
    SortBy(cs, HueKey)
  }

  /** `sort_by_saturation(colors)`. */
  function SortBySaturation(cs: seq<GamutColor>): (r: seq<GamutColor>)
    ensures multiset(r) == multiset(cs)
    ensures SortedBy(r, SaturationKey)
  {
    SortBy(cs, SaturationKey)
  }

  /** `sort_by_brightness(colors)`, keyed by `luminance()`. */
  function SortByBrightness(cs: seq<RGB>, lum: Luminance): (r: seq<RGB>)
    ensures multiset(r) == multiset(cs)
    ensures SortedBy(r, lum)
  {
    SortBy(cs, lum)
  }

  /** Three elements with distinct keys come out in key order. */
  lemma SortThree<T>(a: T, b: T, c: T, key: T -> real)
    requires key(b) < key(c) < key(a)
    ensures SortBy([a, b, c], key) == [b, c, a]
  {
    assert [a, b, c][1..] == [b, c];
    assert [b, c][1..] == [c];
    assert [c][1..] == [];
    assert SortBy([c], key) == [c];
    assert SortBy([b, c], key) == Insert(b, [c], key) == [b, c];
    assert Insert(a, [c], key) == [c] + Insert(a, [], key);
  }

  /** The hues of the primaries: by `SortThree`, sorting blue, red, green
      by hue gives red, green, blue, as the library's test expects. */
  lemma PrimaryHues()
    ensures HueKey(Red) == 0.0 && HueKey(Green) == 120.0 && HueKey(Blue) == 240.0
  {
    Hsl.FromRGBExamples();
  }

  // ---------------------------------------------------------------------
  // Nearest colour and quantisation

  /** The index the scan of `find_closest_color` settles on: the first
      position of the smallest distance, since only a strictly smaller
      distance replaces the current best. */
  function ArgMin(ds: seq<real>): (k: nat)
    requires |ds| > 0
    ensures k < |ds|
    ensures forall j :: 0 <= j < |ds| ==> ds[k] <= ds[j]
    ensures forall j :: 0 <= j < k ==> ds[k] < ds[j]
    decreases |ds|
  {
    if |ds| == 1 then 0
    else
      var k := ArgMin(ds[..|ds| - 1]);
      if ds[|ds| - 1] < ds[k] then |ds| - 1 else k
  }

  /** The distances from the target to each palette colour. */
  function Distances(target: RGB, palette: seq<RGB>, dist: Distance): (ds: seq<real>)
    ensures |ds| == |palette|
    ensures forall i :: 0 <= i < |palette| ==> ds[i] == dist(target, palette[i])
  {
    seq(|palette|, i requires 0 <= i < |palette| => dist(target, palette[i]))
  }

  /** `find_closest_color(target, palette)`: the target itself for an empty
      palette, otherwise the first palette colour at the least distance;
      `color_distance` is the parameter `dist`. */
  function FindClosestColor(target: RGB, palette: seq<RGB>, dist: Distance): (c: RGB)
    ensures |palette| == 0 ==> c == target
    ensures |palette| > 0 ==> c in palette
    ensures forall j :: 0 <= j < |palette| ==> dist(target, c) <= dist(target, palette[j])
    ensures forall j :: 0 <= j < |palette| && palette[j] != c ==>
      (exists k :: 0 <= k < |palette| && palette[k] == c && (k < j || dist(target, c) < dist(target, palette[j])))
  {
    if |palette| == 0 then target
    else
      var ds := Distances(target, palette, dist);
      var k := ArgMin(ds);
      assert forall j :: 0 <= j < |palette| && palette[j] != palette[k] ==>
        k < j || dist(target, palette[k]) < dist(target, palette[j]);
      palette[k]
  }

  /** The loop of `find_closest_color`: it starts from the first colour and
      replaces the current best only on a strictly smaller distance. */
  method FindClosestColorLoop(target: RGB, palette: seq<RGB>, dist: Distance) returns (closest: RGB)
    ensures closest == FindClosestColor(target, palette, dist)
  {
    if |palette| == 0 {
      return target;
    }
    var ds := Distances(target, palette, dist);
    var best := 0;
    closest := palette[0];
    var minDistance := dist(target, closest);
    var i := 0;
    while i < |palette|
      invariant 0 <= i <= |palette|
      invariant best < |palette| && closest == palette[best] && minDistance == ds[best]
      invariant i == 0 ==> best == 0
      invariant i > 0 ==> best == ArgMin(ds[..i])
    {
      var distance := dist(target, palette[i]);
      if distance < minDistance {
        minDistance := distance;
        closest := palette[i];
        best := i;
      }
      if i == 0 {
        assert ArgMin(ds[..1]) == 0;
      } else {
        assert ds[..i + 1][..i] == ds[..i];
      }
      i := i + 1;
    }
    assert ds[..|palette|] == ds;
  }

  /** `quantize_to_palette(colors, palette)`: every colour replaced by its
      closest palette colour. */
  function Quantize(cs: seq<RGB>, palette: seq<RGB>, dist: Distance): (q: seq<RGB>)
    ensures |q| == |cs|
    ensures forall i :: 0 <= i < |cs| ==> q[i] == FindClosestColor(cs[i], palette, dist)
  {
    seq(|cs|, i requires 0 <= i < |cs| => FindClosestColor(cs[i], palette, dist))
  }

  /** The laws of `color_distance` (`delta_e` of the two LAB images, a
      Euclidean distance on L*, a* and b*): zero from a colour to itself,
      never negative, and the triangle inequality. Different colours may be
      at distance zero, since alpha plays no part. */
  ghost predicate Pseudometric(dist: Distance)
  {
    && (forall x :: dist(x, x) == 0.0)
    && (forall x, y :: 0.0 <= dist(x, y))
    && (forall x, y, z :: dist(x, z) <= dist(x, y) + dist(y, z))
  }

  /** The closest palette colour is its own closest palette colour: it is
      at distance zero from itself, and by the triangle inequality the
      first colour at distance zero from it is no farther from the target,
      so both scans settle on the same position. */
  lemma ClosestIsFixed(x: RGB, palette: seq<RGB>, dist: Distance)
    requires Pseudometric(dist) && |palette| > 0
    ensures FindClosestColor(FindClosestColor(x, palette, dist), palette, dist) == FindClosestColor(x, palette, dist)
  {
    var dt := Distances(x, palette, dist);
    var k := ArgMin(dt);
    var p := palette[k];
    assert FindClosestColor(x, palette, dist) == p;
    var dc := Distances(p, palette, dist);
    var j := ArgMin(dc);
    assert FindClosestColor(p, palette, dist) == palette[j];
    assert dc[k] == 0.0;
    assert dc[j] == 0.0;
    assert dt[j] <= dt[k] + dc[j];
    assert dt[j] == dt[k];
  }

  /** With the laws of `color_distance`, every result is a palette colour
      and quantising twice is quantising once. */
  lemma QuantizeIdempotent(cs: seq<RGB>, palette: seq<RGB>, dist: Distance)
    requires Pseudometric(dist) && |palette| > 0
    ensures forall i :: 0 <= i < |cs| ==> Quantize(cs, palette, dist)[i] in palette
    ensures Quantize(Quantize(cs, palette, dist), palette, dist) == Quantize(cs, palette, dist)
  {
    var q := Quantize(cs, palette, dist);
    forall i | 0 <= i < |cs|
      ensures FindClosestColor(q[i], palette, dist) == q[i]
    {
      ClosestIsFixed(cs[i], palette, dist);
    }
  }
}

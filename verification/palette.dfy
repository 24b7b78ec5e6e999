/** Ordered colour palettes (include/pigment/palette.hpp): a sequence of RGB
    colours with appending, cyclic indexing, gradients and the HSL-based
    palette builders. */
module Palettes {
  import opened Numeric
  import opened Rgb
  import Hsl

  datatype Palette = Palette(colors: seq<RGB>)

  const Empty := Palette([])

  // ---------------------------------------------------------------------
  // Editing and access

  /** `add(color)`: appends one colour. */
  function Add(p: Palette, c: RGB): (q: Palette)
    ensures |q.colors| == |p.colors| + 1
    ensures q.colors[|p.colors|] == c
    ensures forall i :: 0 <= i < |p.colors| ==> q.colors[i] == p.colors[i]
  {
    Palette(p.colors + [c])
  }

  /** `add(colors)`: appends a whole sequence, in order. */
  function AddAll(p: Palette, cs: seq<RGB>): (q: Palette)
    ensures |q.colors| == |p.colors| + |cs|
    ensures forall i :: 0 <= i < |p.colors| ==> q.colors[i] == p.colors[i]
    ensures forall i :: 0 <= i < |cs| ==> q.colors[|p.colors| + i] == cs[i]
  {
    Palette(p.colors + cs)
  }

  /** Appending the colours one at a time. */
  function AddEach(p: Palette, cs: seq<RGB>): Palette
    decreases |cs|
  {
    if |cs| == 0 then p else AddEach(Add(p, cs[0]), cs[1..])
  }

  /** Adding a sequence is the same as adding its colours one by one. */
  lemma {:induction false} AddAllIsAddEach(p: Palette, cs: seq<RGB>)
    ensures AddAll(p, cs) == AddEach(p, cs)
    decreases |cs|
  {
    if |cs| != 0 {
      AddAllIsAddEach(Add(p, cs[0]), cs[1..]);
      assert p.colors + cs == (p.colors + [cs[0]]) + cs[1..];
    }
  }

  /** `operator[](index)`: the index is taken modulo the size, so the
      palette must not be empty. */
  function At(p: Palette, index: nat): (c: RGB)
    requires |p.colors| > 0
    ensures c in p.colors
    ensures index < |p.colors| ==> c == p.colors[index]
  {
    p.colors[index % |p.colors|]
  }

  /** Indexing is periodic with the size as period. */
  lemma AtPeriodic(p: Palette, index: nat)
    requires |p.colors| > 0
    ensures At(p, index + |p.colors|) == At(p, index)
  {
    ModShift(index, |p.colors|);
  }

  lemma ModShift(i: nat, n: nat)
    requires 0 < n
    ensures (i + n) % n == i % n
  {
    var q := i / n;
    var r := i % n;
    MulSucc(q, n);
    ModUnique(i + n, n, q + 1, r);
  }

  /** Adding one to a factor adds the other factor to the product. */
  lemma MulSucc(a: int, k: int)
    ensures (a + 1) * k == a * k + k
  {
  }

  /** Euclidean division: a decomposition `x == q * n + r` with
      `0 <= r < n` is the one `/` and `%` compute. */
  lemma ModUnique(x: int, n: int, q: int, r: int)
    requires 0 < n && 0 <= r < n && x == q * n + r
    ensures x % n == r
  {
    var q2 := x / n;
    var r2 := x % n;
    assert x == q2 * n + r2;
    if q < q2 {
      MulAtLeastOnce(q2 - q, n);
      MulDiff(q2, q, n);
    } else if q2 < q {
      MulAtLeastOnce(q - q2, n);
      MulDiff(q, q2, n);
    }
  }

  lemma MulAtLeastOnce(a: int, n: int)
    requires 1 <= a && 0 < n
    ensures n <= a * n
  {
  }

  lemma MulDiff(a: int, b: int, n: int)
    ensures a * n - b * n == (a - b) * n
  {
  }

  /** The colour just added is found at the old size, and also at every
      further multiple of the new size past it. */
  lemma AtAfterAdd(p: Palette, c: RGB, k: nat)
    ensures At(Add(p, c), |p.colors| + k * (|p.colors| + 1)) == c
    decreases k
  {
    if k > 0 {
      var q := Add(p, c);
      var i := |p.colors| + (k - 1) * (|p.colors| + 1);
      AtAfterAdd(p, c, k - 1);
      AtPeriodic(q, i);
      assert i + |q.colors| == |p.colors| + k * (|p.colors| + 1);
    }
  }

  /** `size()`; it is zero exactly for the palette `empty()` reports. */
  function Size(p: Palette): (n: nat)
    ensures n == 0 <==> p == Empty
  {
    |p.colors|
  }

  /** Writing through `operator[](index)`: the reference returned is entry
      `index % size`, so that entry is replaced and no other. */
  function Set(p: Palette, index: nat, c: RGB): (q: Palette)
    requires |p.colors| > 0
    ensures Size(q) == Size(p)
    ensures At(q, index) == c
    ensures forall i :: 0 <= i < |p.colors| && i != index % |p.colors| ==> q.colors[i] == p.colors[i]
  {
    Palette(p.colors[index % |p.colors| := c])
  }

  /** Reading after a write: an index congruent to the written one reads
      the new colour, every other index reads what it read before. */
  lemma AtAfterSet(p: Palette, index: nat, c: RGB, j: nat)
    requires |p.colors| > 0
    ensures j % |p.colors| == index % |p.colors| ==> At(Set(p, index, c), j) == c
    ensures j % |p.colors| != index % |p.colors| ==> At(Set(p, index, c), j) == At(p, j)
  {
  }

  /** `clear()`: no colours remain. */
  function Clear(p: Palette): (q: Palette)
    ensures Size(q) == 0
    ensures q == Empty
  {
    Empty
  }

  /** After clearing, adding rebuilds the palette from scratch. */
  lemma ClearThenAdd(p: Palette, cs: seq<RGB>)
    ensures AddAll(Clear(p), cs).colors == cs
  {
  }

  /** `random()`: black for an empty palette; otherwise the entry at an
      index drawn uniformly from [0, size - 1]. The draw is the parameter
      `pick`. */
  function Random(p: Palette, pick: nat): (c: RGB)
    requires |p.colors| == 0 || pick < |p.colors|
    ensures |p.colors| == 0 ==> c == Black
    ensures |p.colors| > 0 ==> c in p.colors
  {
    if |p.colors| == 0 then Black else p.colors[pick]
  }

  /** Every colour of a non-empty palette can be drawn. */
  lemma RandomReachesEveryColor(p: Palette, c: RGB)
    requires c in p.colors
    ensures exists pick: nat :: pick < |p.colors| && Random(p, pick) == c
  {
    var k :| 0 <= k < |p.colors| && p.colors[k] == c;
    assert Random(p, k) == c;
  }

  /** `to_hex()`: the hex string of every colour, in order; the formatter
      is the parameter `hex`. */
  function ToHex(p: Palette, hex: RGB -> string): (hs: seq<string>)
    ensures |hs| == |p.colors|
    ensures forall i :: 0 <= i < |hs| ==> hs[i] == hex(p.colors[i])
  {
    seq(|p.colors|, i requires 0 <= i < |p.colors| => hex(p.colors[i]))
  }

  /** Exporting is compatible with appending. */
  lemma ToHexAdd(p: Palette, c: RGB, hex: RGB -> string)
    ensures ToHex(Add(p, c), hex) == ToHex(p, hex) + [hex(c)]
  {
  }

  // ---------------------------------------------------------------------
  // Gradients

  /** `i / (steps - 1)`: the mixing ratio of entry `i` of a gradient. */
  function Ratio(i: nat, steps: nat): (t: real)
    requires i < steps && steps != 1
    ensures 0.0 <= t <= 1.0
    ensures i == 0 ==> t == 0.0
    ensures i == steps - 1 ==> t == 1.0
  {
    var d := (steps - 1) as real;
    DivNonneg(i as real, d);
    DivAtMostOne(i as real, d);
    if i == steps - 1 then
      DivSelf(d);
      i as real / d
    else
      i as real / d
  }

  lemma DivSelf(d: real)
    requires 0.0 < d
    ensures d / d == 1.0
  {
  }

  /** Ratios increase strictly along the gradient. */
  lemma RatioStrictMono(i: nat, j: nat, steps: nat)
    requires i < j < steps && steps != 1
    ensures Ratio(i, steps) < Ratio(j, steps)
  {
    DivStrictMono(i as real, j as real, (steps - 1) as real);
  }

  lemma DivStrictMono(x: real, y: real, d: real)
    requires 0.0 < d && x < y
    ensures x / d < y / d
  {
  }

  /** `gradient(start, end, steps)`: `steps` colours, entry `i` mixing the
      two ends with ratio `i / (steps - 1)`. A single step divides zero by
      zero in the source, so it is excluded. */
  function Gradient(start: RGB, end: RGB, steps: nat, mix: Mixer): (g: Palette)
    requires steps != 1
    ensures |g.colors| == steps
    ensures forall i :: 0 <= i < steps ==> g.colors[i] == mix(start, end, Ratio(i, steps))
  {
    Palette(seq(steps, i requires 0 <= i < steps => mix(start, end, Ratio(i, steps))))
  }

  /** Under the laws of `mix`, a gradient runs from `start` to `end`. */
  lemma GradientEnds(start: RGB, end: RGB, steps: nat, mix: Mixer)
    requires MixLaws(mix) && 2 <= steps
    ensures Gradient(start, end, steps, mix).colors[0] == start
    ensures Gradient(start, end, steps, mix).colors[steps - 1] == end
  {
  }

  /** A gradient from a colour to itself repeats that colour. */
  lemma GradientOfSame(c: RGB, steps: nat, mix: Mixer)
    requires MixLaws(mix) && steps != 1
    ensures forall i :: 0 <= i < steps ==> Gradient(c, c, steps, mix).colors[i] == c
  {
  }

  /** The loop of `gradient`, pushing one mixed colour per step. */
  method BuildGradient(start: RGB, end: RGB, steps: nat, mix: Mixer) returns (g: Palette)
    requires steps != 1
    ensures g == Gradient(start, end, steps, mix)
  {
    var colors: seq<RGB> := [];
    var i := 0;
    while i < steps
      invariant 0 <= i <= steps
      invariant colors == Gradient(start, end, steps, mix).colors[..i]
    {
      colors := colors + [mix(start, end, Ratio(i, steps))];
      i := i + 1;
    }
    g := Palette(colors);
  }

  /** The concatenated segments of `gradient(colors, steps_per_segment)`
      for the first `|cs|` control colours: one two-colour gradient per
      adjacent pair, in order. */
  function Segments(cs: seq<RGB>, steps: nat, mix: Mixer): (s: seq<RGB>)
    requires steps != 1
    ensures forall k :: 0 <= k < |s| ==>
      exists j :: 0 <= j < |cs| - 1 && s[k] in Gradient(cs[j], cs[j + 1], steps, mix).colors
    decreases |cs|
  {
    if |cs| < 2 then []
    else
      var front := Segments(cs[..|cs| - 1], steps, mix);
      var last := Gradient(cs[|cs| - 2], cs[|cs| - 1], steps, mix).colors;
      SegmentsFromPairs(cs, cs[..|cs| - 1], front, last, steps, mix);
      front + last
  }

  /** The entries of the front segments come from pairs of the shorter
      prefix, and the last segment from the last pair. */
  lemma SegmentsFromPairs(cs: seq<RGB>, pre: seq<RGB>, front: seq<RGB>, last: seq<RGB>, steps: nat, mix: Mixer)
    requires 2 <= |cs| && steps != 1 && pre == cs[..|cs| - 1]
    requires forall k :: 0 <= k < |front| ==>
      exists j :: 0 <= j < |pre| - 1 && front[k] in Gradient(pre[j], pre[j + 1], steps, mix).colors
    requires last == Gradient(cs[|cs| - 2], cs[|cs| - 1], steps, mix).colors
    ensures forall k :: 0 <= k < |front + last| ==>
      exists j :: 0 <= j < |cs| - 1 && (front + last)[k] in Gradient(cs[j], cs[j + 1], steps, mix).colors
  {
    var s := front + last;
    forall k | 0 <= k < |s|
      ensures exists j :: 0 <= j < |cs| - 1 && s[k] in Gradient(cs[j], cs[j + 1], steps, mix).colors
    {
      if k < |front| {
        var j :| 0 <= j < |pre| - 1 && front[k] in Gradient(pre[j], pre[j + 1], steps, mix).colors;
        assert s[k] == front[k];
        assert pre[j] == cs[j] && pre[j + 1] == cs[j + 1];
      } else {
        assert s[k] == last[k - |front|];
        assert s[k] in Gradient(cs[|cs| - 2], cs[|cs| - 1], steps, mix).colors;
      }
    }
  }

  /** `gradient(colors, steps_per_segment)`: empty for fewer than two
      control colours, otherwise the segments end to end. */
  function MultiGradient(cs: seq<RGB>, steps: nat, mix: Mixer): (g: Palette)
    requires steps != 1
    ensures |cs| < 2 ==> g == Empty
  {
    Palette(Segments(cs, steps, mix))
  }

  /** Every segment contributes `steps` colours. */
  lemma {:induction false} SegmentsLength(cs: seq<RGB>, steps: nat, mix: Mixer)
    requires steps != 1
    ensures |cs| < 2 ==> |Segments(cs, steps, mix)| == 0
    ensures |cs| >= 2 ==> |Segments(cs, steps, mix)| == (|cs| - 1) * steps
    decreases |cs|
  {
    var n := |cs|;
    if n > 2 {
      var front := cs[..n - 1];
      SegmentsLength(front, steps, mix);
      assert |Segments(cs, steps, mix)| == |Segments(front, steps, mix)| + steps;
      MulSucc(n - 2, steps);
    } else if n == 2 {
      assert |Segments(cs, steps, mix)| == |Segments(cs[..1], steps, mix)| + steps;
    }
  }

  /** Entry `j` of segment `i` sits at position `i * steps + j` and is
      entry `j` of the gradient between control colours `i` and `i + 1`. */
  lemma {:induction false} SegmentsEntry(cs: seq<RGB>, steps: nat, mix: Mixer, i: nat, j: nat)
    requires steps != 1 && i + 1 < |cs| && j < steps
    ensures i * steps + j < |Segments(cs, steps, mix)|
    ensures Segments(cs, steps, mix)[i * steps + j] == Gradient(cs[i], cs[i + 1], steps, mix).colors[j]
    decreases |cs|
  {
    var n := |cs|;
    var front := cs[..n - 1];
    SegmentsLength(cs, steps, mix);
    SegmentsLength(front, steps, mix);
    if i + 2 == n {
      assert |Segments(front, steps, mix)| == i * steps;
    } else {
      SegmentsEntry(front, steps, mix, i, j);
      assert front[i] == cs[i] && front[i + 1] == cs[i + 1];
    }
  }

  /** The loop of the multi-colour `gradient`, adding one segment per
      adjacent pair of control colours. */
  method BuildMultiGradient(cs: seq<RGB>, steps: nat, mix: Mixer) returns (g: Palette)
    requires steps != 1
    ensures g == MultiGradient(cs, steps, mix)
  {
    if |cs| < 2 {
      return Empty;
    }
    g := Empty;
    var i := 0;
    while i < |cs| - 1
      invariant 0 <= i <= |cs| - 1
      invariant g.colors == Segments(cs[..i + 1], steps, mix)
    {
      var segment := Gradient(cs[i], cs[i + 1], steps, mix);
      g := AddAll(g, segment.colors);
      assert cs[..i + 2][..i + 1] == cs[..i + 1];
      i := i + 1;
    }
    assert cs[..|cs|] == cs;
  }

  // ---------------------------------------------------------------------
  // HSL-based builders. Each converts the base colour with
  // `HSL::fromRGB`, which needs channels in [0, 255].

  /** The lightness of shade `i` of `monochromatic`: from 0.2 up to 0.8 in
      equal steps. */
  function ShadeLightness(i: nat, count: nat): (l: real)
    requires i < count && count != 1
    ensures 0.2 <= l <= 0.8
    ensures i == 0 ==> l == 0.2
    ensures i == count - 1 ==> l == 0.8
  {
    ShadeIsRatio(i, count);
    0.2 + 0.6 * i as real / (count - 1) as real
  }

  lemma ShadeIsRatio(i: nat, count: nat)
    requires i < count && count != 1
    ensures 0.6 * i as real / (count - 1) as real == 0.6 * Ratio(i, count)
  {
  }

  /** Shades get strictly lighter along the palette. */
  lemma ShadeLightnessStrictMono(i: nat, j: nat, count: nat)
    requires i < j < count && count != 1
    ensures ShadeLightness(i, count) < ShadeLightness(j, count)
  {
    ShadeIsRatio(i, count);
    ShadeIsRatio(j, count);
    RatioStrictMono(i, j, count);
  }

  /** `monochromatic(base, count)`: `count` shades of the base colour's hue
      and saturation, lightness rising from 0.2 to 0.8. A count of one
      divides zero by zero in the source, so it is excluded. */
  function Monochromatic(base: RGB, count: nat): (p: Palette)
    requires InGamut(base) && count != 1
    ensures |p.colors| == count
    ensures forall i :: 0 <= i < count ==>
      var x := Hsl.FromRGB(base);
      p.colors[i] == Hsl.ToRGB(Hsl.HSL(x.h, x.s, ShadeLightness(i, count), x.a))
  {
    var x := Hsl.FromRGB(base);
    Palette(seq(count, i requires 0 <= i < count =>
      Hsl.ToRGB(Hsl.MakeHSL(x.h, x.s, ShadeLightness(i, count), x.a))))
  }

  /** Every shade is a valid colour with the base colour's alpha, clamped. */
  lemma MonochromaticShadesValid(base: RGB, count: nat, i: nat)
    requires InGamut(base) && count != 1 && i < count
    ensures InGamut(Monochromatic(base, count).colors[i])
    ensures Monochromatic(base, count).colors[i].a == ClampInt(base.a, 0, 255)
  {
  }

  /** The hue of entry `i` of `analogous`: the base hue minus half the
      range, plus `i` steps of `range / (count - 1)`. */
  function AnalogousHue(h: real, range: real, i: nat, count: nat): (hue: real)
    requires count != 1
    ensures 0.0 <= range && i < count ==> h - range / 2.0 <= hue <= h + range / 2.0
  {
    StepWithinRange(range, i, count);
    h - range / 2.0 + Product(range / (count - 1) as real, i as real)
  }

  /** At most `count - 1` steps of `range / (count - 1)` cover at most the
      range. */
  lemma StepWithinRange(range: real, i: nat, count: nat)
    requires count != 1
    ensures 0.0 <= range && i < count ==> 0.0 <= Product(range / (count - 1) as real, i as real) <= range
  {
    if 0.0 <= range && i < count {
      var d := (count - 1) as real;
      DivNonneg(range, d);
      ProductMonoLeft(range / d, i as real, d);
      StepTimesCount(range, d);
    }
  }

  /** The hues of `analogous` run from half the range below the base hue to
      half the range above it, and for an odd count the middle hue is the
      base hue. */
  lemma AnalogousHueSpan(h: real, range: real, count: nat)
    requires 2 <= count
    ensures AnalogousHue(h, range, 0, count) == h - range / 2.0
    ensures AnalogousHue(h, range, count - 1, count) == h + range / 2.0
    ensures count % 2 == 1 ==> AnalogousHue(h, range, (count - 1) / 2, count) == h
  {
    var d := (count - 1) as real;
    StepTimesCount(range, d);
    if count % 2 == 1 {
      StepTimesHalfCount(range, d);
      assert ((count - 1) / 2) as real == d / 2.0;
    }
  }

  lemma StepTimesCount(range: real, d: real)
    requires 0.0 < d
    ensures Product(range / d, d) == range
  {
  }

  lemma StepTimesHalfCount(range: real, d: real)
    requires 0.0 < d
    ensures Product(range / d, d / 2.0) == range / 2.0
  {
  }

  /** `analogous(base, count, range)`: `count` colours with the base's
      saturation and lightness and hues spread evenly over `range` degrees
      centred on the base hue. */
  function Analogous(base: RGB, count: nat, range: real): (p: Palette)
    requires InGamut(base) && count != 1
    ensures |p.colors| == count
    ensures forall i :: 0 <= i < count ==>
      var x := Hsl.FromRGB(base);
      p.colors[i] == Hsl.ToRGB(Hsl.MakeHSL(AnalogousHue(x.h, range, i, count), x.s, x.l, x.a))
  {
    var x := Hsl.FromRGB(base);
    Palette(seq(count, i requires 0 <= i < count =>
      Hsl.ToRGB(Hsl.MakeHSL(AnalogousHue(x.h, range, i, count), x.s, x.l, x.a))))
  }

  /** For an odd count the middle colour is the base colour's own HSL
      value converted back. */
  lemma AnalogousMiddle(base: RGB, count: nat, range: real)
    requires InGamut(base) && 3 <= count && count % 2 == 1
    ensures Analogous(base, count, range).colors[(count - 1) / 2] == Hsl.ToRGB(Hsl.FromRGB(base))
  {
    var x := Hsl.FromRGB(base);
    AnalogousHueSpan(x.h, range, count);
  }

  /** `complementary(base)`: the base colour and its complement. */
  function Complementary(base: RGB): (p: Palette)
    requires InGamut(base)
    ensures |p.colors| == 2 && p.colors[0] == base
    ensures p.colors[1] == Hsl.ToRGB(Hsl.Complement(Hsl.FromRGB(base)))
  {
    Palette([base, Hsl.ToRGB(Hsl.Complement(Hsl.FromRGB(base)))])
  }

  /** A grey is its own complement, so its complementary palette repeats
      it. */
  lemma ComplementaryOfGrey(base: RGB)
    requires Valid(base) && base.r == base.g == base.b
    ensures Complementary(base).colors == [base, base]
  {
    Hsl.GreyRoundTrip(base);
  }

  /** `triadic(base)`: the three members of the base colour's HSL triad,
      converted back to RGB. */
  function Triadic(base: RGB): (p: Palette)
    requires InGamut(base)
    ensures |p.colors| == 3
    ensures forall i :: 0 <= i < 3 ==> p.colors[i] == Hsl.ToRGB(Hsl.Triadic(Hsl.FromRGB(base))[i])
  {
    var t := Hsl.Triadic(Hsl.FromRGB(base));
    Palette([Hsl.ToRGB(t[0]), Hsl.ToRGB(t[1]), Hsl.ToRGB(t[2])])
  }

  /** The triad starts with the base colour itself, converted there and
      back, and every member is a valid colour with the base's alpha. */
  lemma TriadicMembers(base: RGB)
    requires InGamut(base)
    ensures Triadic(base).colors[0] == Hsl.ToRGB(Hsl.FromRGB(base))
    ensures forall i :: 0 <= i < 3 ==>
      InGamut(Triadic(base).colors[i]) && Triadic(base).colors[i].a == ClampInt(base.a, 0, 255)
  {
  }

  /** Sizes the library's tests check. */
  lemma SizeExamples(mix: Mixer, hex: RGB -> string)
    ensures |Gradient(Red, Blue, 5, mix).colors| == 5
    ensures |Gradient(Red, Blue, 0, mix).colors| == 0
    ensures |MultiGradient([Red, Rgb.RGB(255, 255, 0, 255), Blue], 3, mix).colors| == 6
    ensures |Monochromatic(Red, 7).colors| == 7
    ensures |Analogous(Blue, 5, 60.0).colors| == 5
    ensures |Complementary(Green).colors| == 2
    ensures |ToHex(Palette([Red, Green, Blue]), hex)| == 3
    ensures |ToHex(Empty, hex)| == 0
  {
    SegmentsLength([Red, Rgb.RGB(255, 255, 0, 255), Blue], 3, mix);
  }
}

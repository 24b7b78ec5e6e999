# pigment colour core in Dafny

A model of the colour-space and palette core of *pigment*, a header-only C++
colour library:

- **HSL** (`types_hsl.hpp`): hue wrap and clamping, conversion from and to 8-bit
  RGB, the adjusters, and the complement, triadic, analogous and
  split-complementary harmonies.
- **HSV** (`types_hsv.hpp`): the `fmod` hue wrap, conversion from and to RGB,
  and the multiplicative adjusters.
- **LAB** (`types_lab.hpp`), its rational part only: the CIE76 colour
  difference, the similarity test, the lightness shift and mixing.
- **Palette** (`palette.hpp`): adding, modular indexing, clearing, the random
  pick, two-colour and multi-colour gradients, the monochromatic, analogous,
  complementary and triadic builders, and hex export.
- **Utilities** (`utils.hpp`): colour-blindness simulation, the WCAG contrast
  ratio and accessibility levels, the best contrasting text colour, harmony
  schemes, the three sorts, nearest-colour search and palette quantisation.

Files, one module each:

| file | module | contents |
|---|---|---|
| `numeric.dfy` | `Numeric` | `std::clamp`, `static_cast<int>`, `std::round` and `std::fmod` over `real`; products and linear interpolation |
| `rgb.dfy` | `Rgb` | the RGB value, its named constants, and the RGB operations used as parameters |
| `hsl.dfy` | `Hsl` | `HSL` |
| `hsv.dfy` | `Hsv` | `HSV` |
| `lab.dfy` | `Lab` | `LAB` |
| `palette.dfy` | `Palettes` | `Palette` |
| `utils.dfy` | `Utils` | `pigment::utils` |

The model uses the following conventions:

- `double` and `float` are modelled as mathematical reals.
- `static_cast<int>` is truncation toward zero (`Numeric.Trunc`).
- `std::round` rounds half away from zero (`Numeric.Round`).
- `std::fmod` is the remainder of the truncated quotient (`Numeric.Fmod`).
- Methods that change the object in place are modelled as functions that return the new value.
- Some RGB operations are parameters, because the RGB implementation is not part of this model:
  - `RGB::mix` is a `Mixer`, and the laws its callers rely on are stated as `MixLaws`;
  - `RGB::luminance` is a `Luminance`;
  - `RGB::to_hex` is a function to strings;
  - the LAB-based `color_distance` is a `Distance`.
- The random index drawn by `Palette::random` is also a parameter.

## Model

| member | source | states |
|---|---|---|
| Numeric.Clamp | include/pigment/types_hsl.hpp:27-28 | `std::clamp` on reals: the result lies in the range, equals the input inside it and the nearer bound outside it |
| Numeric.ClampInt | include/pigment/types_hsl.hpp:29 | `std::clamp` on ints, with the same three cases |
| Numeric.Trunc | include/pigment/utils.hpp:52-54 | `static_cast<int>` of a double: the integer at most one unit from the value on the side toward zero |
| Numeric.Round | include/pigment/types_hsl.hpp:95-97 | `std::round`: the integer within one half of the value, with halfway cases going away from zero (strictly above `x - 1/2` for non-negative `x`, strictly below `x + 1/2` for negative `x`); non-negative for non-negative values |
| Numeric.Fmod | include/pigment/types_hsv.hpp:22 | `fmod` by a positive divisor: differs from the dividend by a whole multiple of the divisor, lies strictly within one divisor of zero, has the sign of the dividend, and leaves a value already inside one period unchanged |
| Numeric.Lerp | include/pigment/types_lab.hpp:135-138 | the weighted blend `p*(1-w) + q*w`: stays between the endpoints for weights in [0, 1], gives the endpoints at 0 and 1 and the midpoint at one half |
| Numeric.LerpIsWeightedAverage | include/pigment/types_lab.hpp:135-137 | the interpolation equals the source's two-weight average formula |
| Numeric.LerpSwap | include/pigment/types_lab.hpp:135-137 | blending from the other end with the complementary weight reaches the same point |
| Numeric.RoundMono | include/pigment/types_hsv.hpp:97-99 | `std::round` preserves order, so the largest pre-rounding component gives the largest channel |
| Hsl.WrapHue | include/pigment/types_hsl.hpp:23-24 | the two wrap loops end in [0, 360), a whole number of turns from the input, and leave an in-range hue alone |
| Hsl.WrapHueUnique | include/pigment/types_hsl.hpp:23-24 | the wrapped hue is the only point of [0, 360) that is a whole number of turns from the input |
| Hsl.WrapHueClosedForm | include/pigment/types_hsl.hpp:23-24 | the loops compute `h - 360 * floor(h / 360)` |
| Hsl.WrapHueCompose | include/pigment/types_hsl.hpp:23-24 | wrapping, shifting and wrapping again is wrapping the shifted hue |
| Hsl.MakeHSL | include/pigment/types_hsl.hpp:16-30 | the constructor normalises: hue wrapped, saturation and lightness clamped to [0, 1], alpha clamped to [0, 255]; in-range fields are kept |
| Hsl.Normalize | include/pigment/types_hsl.hpp:21-30 | `normalize()` establishes the ranges and leaves a normalised value unchanged |
| Hsl.NormalizeIdempotent | include/pigment/types_hsl.hpp:21-30 | normalising twice is normalising once |
| Hsl.ConstructorExamples | test/test_hsl.cpp:9-18 | (120, 0.5, 0.7) is kept; (370, 1.5, -0.1) becomes (10, 1, 0); 720 wraps to 0 and -120 to 240 (test_edge_cases.cpp:29-38) |
| Hsl.RawHue | include/pigment/types_hsl.hpp:54-61 | for a chromatic colour the sector hue lies in [0, 6) sixty-degree units |
| Hsl.Saturation | include/pigment/types_hsl.hpp:51 | the saturation of a chromatic colour lies in (0, 1] for either lightness half |
| Hsl.FromRGB | include/pigment/types_hsl.hpp:33-68 | `fromRGB` gives a normalised HSL whose lightness is the mid-range of the unit channels and whose alpha is the clamped alpha; saturation is zero exactly for greys, whose hue is 0 |
| Hsl.FromRGBExamples | test/test_hsl.cpp:22-34 | red, green and blue convert to hues 0, 120, 240 at full saturation and half lightness; white and black to lightness 1 and 0 |
| Hsl.HueToRgb | include/pigment/types_hsl.hpp:77-84 | for an offset hue in [-1, 2] the piecewise channel lies between `p` and `q` |
| Hsl.EndpointBounds | include/pigment/types_hsl.hpp:86-87 | for a normalised colour `0 <= p <= q <= 1` |
| Hsl.ToRGB | include/pigment/types_hsl.hpp:71-100 | `to_rgb` keeps alpha, converts a grey to equal truncated channels, and gives channels in [0, 255] for every normalised colour |
| Hsl.HueChannelInRange | include/pigment/types_hsl.hpp:90-99 | each rounded chromatic channel lies in [0, 255] |
| Hsl.GreyRoundTrip | include/pigment/types_hsl.hpp:47-48 | a grey with channels in range survives `fromRGB` then `to_rgb` with its channels unchanged |
| Hsl.QIsMax | include/pigment/types_hsl.hpp:51 | for the lightness and saturation `fromRGB` computes, `q` of `to_rgb` (line 86) is the largest unit channel, under either saturation denominator |
| Hsl.PIsMin | include/pigment/types_hsl.hpp:51 | ... and `p` of `to_rgb` (line 87) is the smallest unit channel |
| Hsl.ChannelsRecovered | include/pigment/types_hsl.hpp:54-61 | with the extremes as `p` and `q`, `hue_to_rgb` (lines 77-84) at the sector hue plus 1/3, plus 0 and minus 1/3 returns exactly the red, green and blue unit channels |
| Hsl.RoundTrip | include/pigment/types_hsl.hpp:33-100 | every colour with channels in [0, 255] survives `fromRGB` then `to_rgb` unchanged, with its alpha clamped to [0, 255] |
| Hsl.AdjustHue | include/pigment/types_hsl.hpp:103-105 | the hue moves by the given degrees modulo a turn; the other fields are kept |
| Hsl.AdjustSaturation | include/pigment/types_hsl.hpp:107-109 | the saturation is scaled by the factor and clamped; the other fields are kept |
| Hsl.AdjustLightness | include/pigment/types_hsl.hpp:111-113 | the lightness is scaled by the factor and clamped; the other fields are kept |
| Hsl.Saturate | include/pigment/types_hsl.hpp:115-117 | the saturation rises by the amount, clamped; the other fields are kept |
| Hsl.Desaturate | include/pigment/types_hsl.hpp:119-121 | the saturation falls by the amount, clamped; the other fields are kept |
| Hsl.Lighten | include/pigment/types_hsl.hpp:123-125 | the lightness rises by the amount, clamped; the other fields are kept |
| Hsl.Darken | include/pigment/types_hsl.hpp:127-129 | the lightness falls by the amount, clamped; the other fields are kept |
| Hsl.AdjustHueCompose | include/pigment/types_hsl.hpp:103-105 | two hue shifts are one shift by their sum |
| Hsl.AdjustHueFullTurn | include/pigment/types_hsl.hpp:103-105 | shifting by 0 or by a full turn is the identity on normalised colours |
| Hsl.AdjustmentExamples | test/test_hsl.cpp:38-53 | (180, 0.5, 0.5): hue +30 gives 210, saturate/desaturate by 0.2 give 0.7/0.3, lighten/darken by 0.2 give 0.7/0.3 |
| Hsl.Complement | include/pigment/types_hsl.hpp:132-134 | the complement is half a turn away with the same saturation, lightness and alpha |
| Hsl.ComplementInvolutive | include/pigment/types_hsl.hpp:132-134 | the complement of the complement is the original colour |
| Hsl.Triadic | include/pigment/types_hsl.hpp:137-143 | three colours: the original, then hues +120 and +240, same other fields |
| Hsl.TriadicCycle | include/pigment/types_hsl.hpp:137-143 | each triadic member is the previous one turned by 120 degrees, cyclically |
| Hsl.Analogous | include/pigment/types_hsl.hpp:146-152 | three colours with the original in the middle, flanked by hues minus and plus the angle |
| Hsl.AnalogousSymmetric | include/pigment/types_hsl.hpp:146-152 | turning either flank back by the angle recovers the original |
| Hsl.SplitComplementary | include/pigment/types_hsl.hpp:155-161 | the original, then hues at 180 minus and plus the angle |
| Hsl.SplitComplementaryIsAnalogousOfComplement | include/pigment/types_hsl.hpp:155-161 | the split complements are the analogous flanks of the complement |
| Hsl.HarmonyExamples | test/test_hsl.cpp:59-76 | the complement of hue 120 is 300; its triadic hues are 240 and 0 |
| Hsv.WrapHue | include/pigment/types_hsv.hpp:21-25 | the `fmod` wrap ends in [0, 360), a whole number of turns from the input, and leaves an in-range hue alone |
| Hsv.WrapHueAgreesWithHsl | include/pigment/types_hsv.hpp:21-25 | the HSV `fmod` wrap and the HSL loops compute the same hue |
| Hsv.MakeHSV | include/pigment/types_hsv.hpp:16-28 | the constructor wraps the hue and clamps saturation and value to [0, 1] |
| Hsv.NormalizeKeepsNormalized | include/pigment/types_hsv.hpp:19-28 | `normalize()` leaves in-range values unchanged |
| Hsv.ConstructorExamples | test/test_hsv.cpp:9-18 | (240, 0.8, 0.9) is kept; (400, 1.2, -0.1) becomes (40, 1, 0); 450 wraps to 90 (test_edge_cases.cpp:43-49) |
| Hsv.SectorHue | include/pigment/types_hsv.hpp:43-53 | the hue lies in [0, 360), is 0 for a spread below 1e-6, and falls in the red, green or blue sector of the largest channel |
| Hsv.FromRGB | include/pigment/types_hsv.hpp:31-61 | `fromRGB`: normalised, value is the largest unit channel, saturation the spread over it, and 0 for a near-black colour |
| Hsv.FromRGBGrey | include/pigment/types_hsv.hpp:43-57 | a grey converts to hue 0, saturation 0 and value channel/255 |
| Hsv.HueAgreesWithHsl | include/pigment/types_hsv.hpp:43-57 | for channels in [0, 255] the HSV hue (with its `fmod` and `1e-6` threshold) equals the HSL hue of `types_hsl.hpp:47-63`, and the HSL lightness never exceeds the HSV value |
| Hsv.FromRGBExamples | test/test_hsv.cpp:23-34 | blue converts to (240, 1, 1), red and green to hues 0 and 120 |
| Hsv.Chroma | include/pigment/types_hsv.hpp:65 | the chroma `v*s` of a normalised colour lies in [0, v] and vanishes with the saturation |
| Hsv.SecondWeight | include/pigment/types_hsv.hpp:66 | the second-component weight of a non-negative hue lies in [0, 1] |
| Hsv.Components | include/pigment/types_hsv.hpp:70-94 | each sector's components are drawn from zero, the chroma and the second component, and one of them is the chroma |
| Hsv.Channel | include/pigment/types_hsv.hpp:97-99 | a channel is the integer nearest to the offset component times 255, and lies in [0, 255] when the offset component lies in [0, 1] |
| Hsv.ToRGB | include/pigment/types_hsv.hpp:64-102 | `toRGB` is opaque, maps zero saturation to equal channels `round(v*255)`, and gives channels in [0, 255] for every normalised colour |
| Hsv.ToRGBValueIsMax | include/pigment/types_hsv.hpp:64-102 | the largest channel of the conversion is `round(v*255)`: no channel exceeds it and one equals it |
| Hsv.ComponentsRecover | include/pigment/types_hsv.hpp:64-94 | with the spread of a colour as chroma and its hue, the sector components plus the smallest channel are exactly the three unit channels |
| Hsv.FromRGBChromatic | include/pigment/types_hsv.hpp:31-61 | a chromatic colour with channels in range converts to sixty times its HSL sector hue, the spread over the largest channel, and the largest channel |
| Hsv.ToRGBChromatic | include/pigment/types_hsv.hpp:64-102 | converting that value back rounds exactly the three unit channels times 255, and is opaque |
| Hsv.RoundTrip | include/pigment/types_hsv.hpp:31-102 | every colour with channels in [0, 255] survives `fromRGB` then `toRGB` with its channels unchanged, and comes back opaque |
| Hsv.AdjustBrightness | include/pigment/types_hsv.hpp:105 | the value is multiplied by the factor and clamped, so a factor in [0, 1] never raises it; hue and saturation are kept |
| Hsv.AdjustSaturation | include/pigment/types_hsv.hpp:108 | the saturation is multiplied by the factor and clamped, so a factor in [0, 1] never raises it; hue and value are kept |
| Hsv.TestExpectationFailsAsWritten | test/test_hsv.cpp:37-46 | the adjusters as written do not raise value above 0.7 or saturation above 0.5 for the test's factors 0.2 and 0.3, as the test expects |
| Hsv.ShiftBrightness | include/pigment/types_hsv.hpp:105 | the brightness adjuster the test expects: a positive amount raises the value, a negative one lowers it; hue and saturation are kept and the ranges hold |
| Hsv.ShiftSaturation | include/pigment/types_hsv.hpp:108 | the saturation adjuster the test expects: a positive amount raises the saturation, a negative one lowers it |
| Hsv.TestExpectationHoldsForShift | test/test_hsv.cpp:37-46 | the shifting adjusters give 0.76 and 0.65 on the test's inputs, meeting its expectations |
| Hsv.AdjustmentExamples | test/test_hsv.cpp:37-46 | on (180, 0.5, 0.7) brightness factor 0.2 gives value 0.14 and saturation factor 0.3 gives 0.15 |
| Lab.Square | include/pigment/types_lab.hpp:94-99 | a square is non-negative and zero only for zero |
| Lab.SquareStrictMono | include/pigment/types_lab.hpp:122-124 | squaring is strictly increasing on non-negative reals, which lets the threshold test compare squares |
| Lab.DeltaESquared | include/pigment/types_lab.hpp:94-99 | the square of `delta_e`: non-negative, and zero exactly when L*, a* and b* all agree; alpha plays no part |
| Lab.DeltaESymmetric | include/pigment/types_lab.hpp:94-99 | the difference does not depend on the order of the colours |
| Lab.IsSimilar | include/pigment/types_lab.hpp:122-124 | similar colours have a positive threshold and differ by less than it in each of L*, a* and b* |
| Lab.IsSimilarIsDistanceBelow | include/pigment/types_lab.hpp:122-124 | for the non-negative root `e` of the squared difference, `is_similar` holds exactly when `e < threshold` |
| Lab.IsSimilarSymmetric | include/pigment/types_lab.hpp:122-124 | similarity is symmetric |
| Lab.IsSimilarReflexive | include/pigment/types_lab.hpp:122-124 | a colour is similar to itself exactly under positive thresholds |
| Lab.IsSimilarMonotone | include/pigment/types_lab.hpp:122-124 | raising the threshold keeps similar colours similar |
| Lab.AdjustLightness | include/pigment/types_lab.hpp:127-129 | L* shifts by the amount and is clamped to [0, 100]; a*, b* and alpha are kept |
| Lab.AdjustLightnessCompose | include/pigment/types_lab.hpp:127-129 | two shifts, the first staying in range, add up |
| Lab.Mix | include/pigment/types_lab.hpp:132-140 | the ratio is clamped: at or below 0 gives the receiver, at or above 1 the other colour; every component including the truncated alpha stays between the two; one half gives midpoints; mixing a colour with itself gives it back |
| Lab.TruncBetween | include/pigment/types_lab.hpp:138 | truncating a blend of two integer alphas stays between them |
| Lab.MixSwap | include/pigment/types_lab.hpp:132-140 | mixing x into o at ratio r equals mixing o into x at 1 - r |
| Lab.Examples | test/test_lab.cpp:43-55 | lightness 50 shifted by ±10 gives 60 and 40; the half mix of L 50 and 60 is 55 |
| Lab.SimilarityExamples | test/test_lab.cpp:37-40 | a one-unit shift along a* is similar under threshold 5 and under the default 2.3; a five-unit shift along L* is not similar under the default |
| Palettes.Add | include/pigment/palette.hpp:22 | one more colour, appended at the end, earlier colours kept |
| Palettes.AddAll | include/pigment/palette.hpp:24 | the palette followed by the added colours in order |
| Palettes.AddAllIsAddEach | include/pigment/palette.hpp:22-24 | adding a vector is adding its colours one at a time |
| Palettes.At | include/pigment/palette.hpp:27-29 | indexing is modulo the size: the result is a palette colour, and the colour at that position for an index in range |
| Palettes.AtPeriodic | include/pigment/palette.hpp:27-29 | indices one size apart give the same colour |
| Palettes.Set | include/pigment/palette.hpp:27 | writing through `operator[]` replaces entry `index % size` and no other, keeps the size, and reading the index back gives the new colour |
| Palettes.AtAfterSet | include/pigment/palette.hpp:27 | after a write, indices congruent to the written one read the new colour and all others read what they read before |
| Palettes.AtAfterAdd | include/pigment/palette.hpp:22-29 | after an add, the new colour sits at the old size and every whole number of periods beyond it |
| Palettes.Size | include/pigment/palette.hpp:31-33 | the size is zero exactly for the empty palette |
| Palettes.Clear | include/pigment/palette.hpp:31-35 | clearing leaves the empty palette, of size zero |
| Palettes.ClearThenAdd | include/pigment/palette.hpp:24-35 | after a clear, adding a vector gives exactly that vector |
| Palettes.Random | include/pigment/palette.hpp:44-52 | an empty palette gives black; otherwise the pick is a palette colour |
| Palettes.RandomReachesEveryColor | include/pigment/palette.hpp:44-52 | every palette colour is the result of some draw |
| Palettes.ToHex | include/pigment/palette.hpp:196-205 | one hex string per colour, in order |
| Palettes.ToHexAdd | include/pigment/palette.hpp:22-205 | exporting after an add appends the new colour's string |
| Palettes.Ratio | include/pigment/palette.hpp:60 | the gradient ratio lies in [0, 1], is 0 at the first step and 1 at the last |
| Palettes.RatioStrictMono | include/pigment/palette.hpp:60 | ratios strictly increase along the gradient |
| Palettes.Gradient | include/pigment/palette.hpp:55-65 | `steps` colours, each the mix of start and end at its ratio |
| Palettes.GradientEnds | test/test_palette.cpp:37-40 | under the mix laws a gradient of at least two steps starts at the start colour and ends at the end colour |
| Palettes.GradientOfSame | test/test_edge_cases.cpp:221-227 | a gradient from a colour to itself is that colour throughout |
| Palettes.BuildGradient | include/pigment/palette.hpp:55-65 | the loop builds exactly the gradient |
| Palettes.MultiGradient | include/pigment/palette.hpp:68-79 | fewer than two colours give the empty palette |
| Palettes.Segments | include/pigment/palette.hpp:68-79 | every colour of a multi-colour gradient is a colour of the two-colour gradient between some adjacent pair of control colours |
| Palettes.SegmentsLength | include/pigment/palette.hpp:68-79 | a multi-colour gradient has `(n - 1) * steps` colours |
| Palettes.SegmentsEntry | include/pigment/palette.hpp:68-79 | position `i*steps + j` holds step `j` of the gradient from colour `i` to colour `i + 1` |
| Palettes.BuildMultiGradient | include/pigment/palette.hpp:68-79 | the loop appending the segments builds exactly the multi-colour gradient |
| Palettes.ShadeLightness | include/pigment/palette.hpp:128 | shade lightnesses lie in [0.2, 0.8], from 0.2 at the first shade to 0.8 at the last |
| Palettes.ShadeLightnessStrictMono | include/pigment/palette.hpp:128 | shades get strictly lighter along the palette |
| Palettes.Monochromatic | include/pigment/palette.hpp:123-133 | `count` colours keeping the base's hue, saturation and alpha at the shade lightnesses |
| Palettes.MonochromaticShadesValid | include/pigment/palette.hpp:123-133 | every shade has channels in [0, 255] and the base's clamped alpha |
| Palettes.AnalogousHue | include/pigment/palette.hpp:139-143 | for a non-negative range every hue of `analogous` lies within half the range of the base hue |
| Palettes.AnalogousHueSpan | include/pigment/palette.hpp:139-143 | the hues run from `h - range/2` to `h + range/2`, and an odd count puts the base hue in the middle |
| Palettes.Analogous | include/pigment/palette.hpp:135-148 | `count` colours at the evenly spaced hues with the base's saturation, lightness and alpha |
| Palettes.AnalogousMiddle | include/pigment/palette.hpp:135-148 | for an odd count the middle colour is the base converted to HSL and back |
| Palettes.Complementary | include/pigment/palette.hpp:150-153 | the base itself, then its HSL complement |
| Palettes.ComplementaryOfGrey | include/pigment/palette.hpp:150-153 | a valid grey is its own complement |
| Palettes.Triadic | include/pigment/palette.hpp:155-165 | the three HSL triadic members converted back to RGB |
| Palettes.TriadicMembers | include/pigment/palette.hpp:155-165 | the first member is the base's HSL round trip; the others are 120 and 240 degree turns of it |
| Palettes.SizeExamples | test/test_palette.cpp:59-75 | palette sizes the library's tests expect: gradient 5 and 0, three-colour gradient 6 (test_named_colors.cpp:166), monochromatic 7, analogous 5, complementary 2, hex export 3 and 0 |
| Utils.FromOrdinal | include/pigment/utils.hpp:49 | `static_cast<Type>(n)` inverts the enumerator's value |
| Utils.Matrix | include/pigment/utils.hpp:32-47 | the three simulation matrices, each row with non-negative weights summing to 1 |
| Utils.MatrixStochastic | include/pigment/utils.hpp:33-47 | every simulation matrix row has non-negative weights summing to 1 |
| Utils.Apply | include/pigment/utils.hpp:52-54 | a simulated channel is the truncated weighted sum clamped to [0, 255] |
| Utils.ApplyGrey | include/pigment/utils.hpp:33-54 | a stochastic row maps a grey channel to itself |
| Utils.Simulate | include/pigment/utils.hpp:24-55 | a full deficiency gives channels in [0, 255] and keeps alpha |
| Utils.AnomalyIsHalfBlend | include/pigment/utils.hpp:48-49 | an anomaly is the half mix of the full deficiency three places earlier with the original, and the recursion stops there |
| Utils.SimulateGrey | include/pigment/utils.hpp:24-55 | greys are unchanged by every deficiency, given the mix laws |
| Utils.SimulateExample | test/test_utils.cpp:78-88 | protanopia turns (255, 100, 50) into (187, 186, 62), different from the original |
| Utils.ContrastOf | include/pigment/utils.hpp:63-67 | the ratio of the offset lighter to the offset darker luminance is at least 1, and exactly 1 for equal luminances |
| Utils.ContrastRatio | include/pigment/utils.hpp:59-68 | `contrast_ratio` is at least 1, and exactly 1 when the luminances agree |
| Utils.ContrastSymmetric | include/pigment/utils.hpp:63-65 | the order of the two colours does not matter |
| Utils.ContrastBounded | include/pigment/utils.hpp:59-68 | for luminances in [0, 255] the ratio is at most 21, reached by 255 against 0 |
| Utils.ContrastMonotone | include/pigment/utils.hpp:63-67 | a lighter colour against the same darker one has at least as much contrast |
| Utils.Classify | include/pigment/utils.hpp:85-93 | AA normal is never returned for large text |
| Utils.ClassifyExactly | include/pigment/utils.hpp:85-93 | each level holds exactly on its WCAG band: AAA normal from 7, AAA large or AA normal from 4.5 by text size, AA large from 3 for large text, otherwise fail |
| Utils.ClassifyMonotone | include/pigment/utils.hpp:85-93 | a higher ratio never earns a lower level, and every level but fail is earned by its threshold |
| Utils.CheckAccessibility | include/pigment/utils.hpp:81-94 | equal luminances fail; AA normal only for normal text |
| Utils.CheckAccessibilitySymmetric | include/pigment/utils.hpp:81-94 | swapping foreground and background gives the same level |
| Utils.BlackOnWhite | test/test_utils.cpp:9-25 | black on white has ratio 21 and level AAA normal |
| Utils.BestContrastColor | include/pigment/utils.hpp:97-102 | white or black, whichever contrasts more with the background; black on a tie |
| Utils.BestContrastExamples | test/test_utils.cpp:27-28 | on white the best text colour is black, on black it is white |
| Utils.GenerateHarmony | include/pigment/utils.hpp:134-164 | the scheme's number of colours (2, 3, 3, 3, 4, or 1 for an unknown scheme), starting with the base itself |
| Utils.HarmonyMatchesPalettes | include/pigment/utils.hpp:138-144 | the complementary scheme equals the complementary palette, and the triadic scheme's other members equal the triadic palette's |
| Utils.HarmonyMembersValid | include/pigment/utils.hpp:134-164 | every generated colour after the base has channels in [0, 255] and the base's clamped alpha |
| Utils.TetradicQuarterTurns | include/pigment/utils.hpp:157-160 | the tetradic hues are successive quarter turns |
| Utils.Insert | include/pigment/utils.hpp:167-186 | insertion adds exactly one element to the multiset |
| Utils.InsertSorted | include/pigment/utils.hpp:167-186 | inserting into a key-sorted sequence keeps it sorted |
| Utils.SortBy | include/pigment/utils.hpp:167-186 | the result is a permutation of the input sorted by the key |
| Utils.HueKey | include/pigment/utils.hpp:169-171 | the sort key of `sort_by_hue` lies in [0, 360) and is 0 for greys |
| Utils.SaturationKey | include/pigment/utils.hpp:182-184 | the sort key of `sort_by_saturation` lies in [0, 1] and is 0 exactly for greys |
| Utils.SortByHue | include/pigment/utils.hpp:167-173 | a permutation ordered by HSL hue |
| Utils.SortByBrightness | include/pigment/utils.hpp:175-178 | a permutation ordered by luminance |
| Utils.SortBySaturation | include/pigment/utils.hpp:180-186 | a permutation ordered by HSL saturation |
| Utils.SortThree | test/test_utils.cpp:67-70 | three elements with distinct keys come out in key order |
| Utils.PrimaryHues | test/test_utils.cpp:67-70 | red, green and blue have hues 0, 120 and 240, so sorting blue, red, green by hue puts red first |
| Utils.ArgMin | include/pigment/utils.hpp:200-209 | the scan settles on a smallest distance, earlier than every other position with the same distance |
| Utils.Distances | include/pigment/utils.hpp:201-204 | the distance from the target to each palette colour, in order |
| Utils.FindClosestColor | include/pigment/utils.hpp:196-212 | the target for an empty palette; otherwise a palette colour at least distance, the first such one |
| Utils.FindClosestColorLoop | include/pigment/utils.hpp:196-212 | the loop replacing the best only on a strictly smaller distance computes `FindClosestColor` |
| Utils.Quantize | include/pigment/utils.hpp:215-224 | one result per input, each the closest palette colour to it |
| Utils.ClosestIsFixed | include/pigment/utils.hpp:196-212 | under the laws of `color_distance` (zero to itself, non-negative, triangle inequality) the closest palette colour to a target is its own closest palette colour |
| Utils.QuantizeIdempotent | test/test_utils.cpp:96-111 | under the same laws, which the alpha-blind `color_distance` of `utils.hpp:189-193` satisfies, every result is a palette colour and quantising again changes nothing |

## Left out

- `LAB::fromRGB`, `LAB::to_rgb`, `delta_e_2000` and `color_distance` (`types_lab.hpp`, `utils.hpp:189-193`): they need gamma curves, cube roots, square roots and trigonometry. `color_distance` enters as the parameter `dist`.
- `Lab.DeltaESquared`: models `delta_e` by its square, because `sqrt` has no exact real counterpart. `Lab.IsSimilar` compares squares. `Lab.IsSimilarIsDistanceBelow` shows that this is the same test as comparing the root.
- `color_temperature` and `is_warm_color` (`utils.hpp:105-131`): floating-point polynomial estimates with nothing to prove beyond their formulas.
- The RGB type's own operations (`mix`, `luminance`, `to_hex`, the hex parser, arithmetic): the RGB implementation is not part of this model. Its operations are parameters. Only the mix laws its callers rely on are assumed.
- Named colours, `types_basic.hpp` and `types_line.hpp`: they are not part of the colour core.
- `Palette::material_design`, `warm` and `cool`: they are lists of hex literals decoded by the RGB parser, which is not modelled.
- `Palette::pastel`, `Palette::vibrant` and `HSL::random`: they draw from a random generator. `Palette::random` is modelled with the drawn index as a parameter.
- Iterators: they give direct access to the vector and add no behaviour. `empty()` is `Size(p) == 0`, which `Palettes.Size` states is the empty palette.
- Floating point: `double` and `float` are idealised as reals. The model does not cover rounding error, the `float` precision of HSV, or NaN and infinity.
- `Hsl.FromRGB`: requires channels in [0, 255]. The RGB type is not part of this model, and its plain constructor does not clamp, so out-of-range channels are excluded rather than modelled. Out of range, a saturation denominator can be zero, and the source then gets an infinite quotient that the constructor's clamp turns into 1. The reals have no infinity, so the model would need a special case for that. `Palettes.Monochromatic`, `Palettes.Analogous`, `Palettes.Complementary`, `Palettes.Triadic` and `Utils.GenerateHarmony` convert their base colour with `fromRGB` and inherit the requirement.
- `Palettes.Complementary`, `Palettes.Triadic`, `Utils.GenerateHarmony`: require the base colour's channels in [0, 255], because they convert it with `Hsl.FromRGB`.
- `Utils.SortByHue`, `Utils.SortBySaturation`: take colours with channels in range (`GamutColor`), because their keys call `Hsl.FromRGB`.
- `Utils.ContrastRatio`, `Utils.CheckAccessibility`, `Utils.BestContrastColor`: require non-negative luminances. A luminance below -0.05·255 would make the source divide by zero or by a negative number.
- `Utils.SortBy`: fixes the order of equal keys to insertion order. `std::sort` leaves that order unspecified, so the model proves only the permutation and the ordering.
- `Palettes.Gradient`, `Palettes.MultiGradient`, `Palettes.Monochromatic`, `Palettes.Analogous`: exclude `steps == 1` and `count == 1`. The source divides by zero there and gets NaN ratios.
- `Palettes.Monochromatic`, `Palettes.Analogous`: with `count == 0`, the source's `count - 1` wraps around as a `size_t`. The loop does not run either way, so the model's natural numbers give the same empty result.
- `Hsv.AdjustBrightness`, `Hsv.AdjustSaturation`: follow the code, which multiplies. The library's test at `test/test_hsv.cpp:40-46` expects factors 0.2 and 0.3 to raise the fields, which contradicts the code (see "## Findings"). `Hsv.AdjustmentExamples` states the values the code gives.
- `Utils.Simulate`: states range and alpha only for the full deficiencies. For the anomalies, the result is whatever the `mix` parameter returns. `Utils.AnomalyIsHalfBlend` states that relation.
- `Utils.SimulateExample`: models the protanopia case of `test/test_utils.cpp:78-94`. The other cases need the RGB mix, which is not modelled.
- Default arguments are not modelled. Every modelled operation takes all its arguments explicitly. The defaults are: HSL `saturate`, `desaturate`, `lighten` and `darken` `amount = 0.1`; HSL `analogous` and `split_complementary` `angle = 30`; HSL alpha `255`; LAB `is_similar` `threshold = 2.3` (`Lab.DefaultSimilarity`, used in `Lab.SimilarityExamples`); LAB `mix` `ratio = 0.5`; `Palette::monochromatic` `count = 5`; `Palette::analogous` `count = 5` and `range = 60`; `check_accessibility` `large_text = false`; `generate_harmony` `scheme = "complementary"`.
- `Hsl.WrapHue`: the loops `h -= 360` and `h += 360` of `types_hsl.hpp:23-24` terminate on the reals. In doubles, a hue whose magnitude is so large that 360 is below half a unit in the last place (about 2^62 and above) is left unchanged by the subtraction, so the source loops forever there.

## Findings

| source | as written | input that shows it | evidently intended | confidence | as-written member | corrected member |
|---|---|---|---|---|---|---|
| include/pigment/types_hsv.hpp:105-108 | `adjustBrightness` and `adjustSaturation` multiply the field by the argument, so an argument below 1 lowers it | `HSV(180, 0.5, 0.7)`: `adjustBrightness(0.2)` gives value 0.14 and `adjustSaturation(0.3)` gives saturation 0.15, while `test/test_hsv.cpp:40-46` expects more than 0.7 and 0.5 | a positive argument raises the field and a negative one lowers it, as the test expects | medium (code and test disagree; either could be the intended side), not executed | Hsv.TestExpectationFailsAsWritten | Hsv.ShiftBrightness |

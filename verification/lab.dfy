/** CIE L*a*b* colour values (include/pigment/types_lab.hpp), rational
    operations only: the constructor, the CIE76 colour difference, the
    similarity test, the lightness adjustment and mixing. */
module Lab {
  import opened Numeric

  /** Lightness, the two opponent axes and an integer alpha. The
      constructor stores its arguments unclamped; its alpha defaults to
      `DefaultAlpha`. */
  datatype LAB = LAB(l: real, a: real, b: real, alpha: int)

  const DefaultAlpha: int := 255

  /** The default threshold of `is_similar`. */
  const DefaultSimilarity: real := 2.3

  // ---------------------------------------------------------------------
  // Squares

  function Square(t: real): (r: real)
    ensures 0.0 <= r
    ensures r == 0.0 <==> t == 0.0
  {
    Product(t, t)
  }

  /** A difference squared does not depend on the order of its operands. */
  lemma SquareSwap(u: real, v: real)
    ensures Square(u - v) == Square(v - u)
  {
    ProductNeg(u - v, u - v);
  }

  /** Squaring is strictly increasing on the non-negative reals. */
  lemma SquareStrictMono(s: real, t: real)
    requires 0.0 <= s < t
    ensures Square(s) < Square(t)
  {
    ProductMonoLeft(s, s, t);
    ProductStrictRight(s, t, t);
  }

  lemma SquareMono(s: real, t: real)
    requires 0.0 <= s <= t
    ensures Square(s) <= Square(t)
  {
    if s < t {
      SquareStrictMono(s, t);
    }
  }

  // ---------------------------------------------------------------------
  // Colour difference

  /** The square of the CIE76 difference `delta_e`: the squared Euclidean
      distance between the two (L*, a*, b*) triples. Alpha plays no part. */
  function DeltaESquared(x: LAB, y: LAB): (d: real)
    ensures 0.0 <= d
    ensures d == 0.0 <==> x.l == y.l && x.a == y.a && x.b == y.b
  {
    Square(x.l - y.l) + Square(x.a - y.a) + Square(x.b - y.b)
  }

  lemma DeltaESymmetric(x: LAB, y: LAB)
    ensures DeltaESquared(x, y) == DeltaESquared(y, x)
  {
    SquareSwap(x.l, y.l);
    SquareSwap(x.a, y.a);
    SquareSwap(x.b, y.b);
  }

  /** `is_similar(other, threshold)`: the difference is below the threshold.
      As the difference is the non-negative root of `DeltaESquared`, this
      holds exactly when the threshold is positive and its square exceeds
      the squared difference. */
  predicate IsSimilar(x: LAB, y: LAB, threshold: real): (similar: bool)
    ensures similar ==> 0.0 < threshold
    ensures similar ==> Abs(x.l - y.l) < threshold && Abs(x.a - y.a) < threshold && Abs(x.b - y.b) < threshold
  {
    if 0.0 < threshold && DeltaESquared(x, y) < Square(threshold) then
      SquareBelow(x.l - y.l, threshold, DeltaESquared(x, y));
      SquareBelow(x.a - y.a, threshold, DeltaESquared(x, y));
      SquareBelow(x.b - y.b, threshold, DeltaESquared(x, y));
      true
    else
      false
  }

  /** A quantity whose square lies below the square of a positive bound is
      smaller than the bound in magnitude. */
  lemma SquareBelow(t: real, bound: real, total: real)
    requires 0.0 < bound && Square(t) <= total < Square(bound)
    ensures Abs(t) < bound
  {
    if bound <= Abs(t) {
      SquareMono(bound, Abs(t));
      ProductNeg(t, t);
    }
  }

  /** For any non-negative `e` whose square is the squared difference, that
      is for `delta_e` itself, similarity is `e < threshold`. */
  lemma IsSimilarIsDistanceBelow(x: LAB, y: LAB, threshold: real, e: real)
    requires 0.0 <= e && Square(e) == DeltaESquared(x, y)
    ensures IsSimilar(x, y, threshold) <==> e < threshold
  {
    if e < threshold {
      SquareStrictMono(e, threshold);
    } else if 0.0 < threshold {
      SquareMono(threshold, e);
    }
  }

  lemma IsSimilarSymmetric(x: LAB, y: LAB, threshold: real)
    ensures IsSimilar(x, y, threshold) <==> IsSimilar(y, x, threshold)
  {
    DeltaESymmetric(x, y);
  }

  /** A colour is similar to itself under every positive threshold and
      under no other. */
  lemma IsSimilarReflexive(x: LAB, threshold: real)
    ensures IsSimilar(x, x, threshold) <==> 0.0 < threshold
  {
    if 0.0 < threshold {
      SquareStrictMono(0.0, threshold);
    }
  }

  /** Raising the threshold keeps similar colours similar. */
  lemma IsSimilarMonotone(x: LAB, y: LAB, t1: real, t2: real)
    requires t1 <= t2 && IsSimilar(x, y, t1)
    ensures IsSimilar(x, y, t2)
  {
    SquareMono(t1, t2);
  }

  // ---------------------------------------------------------------------
  // Adjustment and mixing

  /** `adjust_lightness(amount)`: shifts L* and clamps it to [0, 100]. */
  function AdjustLightness(x: LAB, amount: real): (y: LAB)
    ensures 0.0 <= y.l <= 100.0
    ensures y.a == x.a && y.b == x.b && y.alpha == x.alpha
    ensures 0.0 <= x.l + amount <= 100.0 ==> y.l == x.l + amount
    ensures x.l + amount < 0.0 ==> y.l == 0.0
    ensures 100.0 < x.l + amount ==> y.l == 100.0
  {
    LAB(Clamp(x.l + amount, 0.0, 100.0), x.a, x.b, x.alpha)
  }

  /** Two shifts that stay in range add up. */
  lemma AdjustLightnessCompose(x: LAB, d1: real, d2: real)
    requires 0.0 <= x.l + d1 <= 100.0
    ensures AdjustLightness(AdjustLightness(x, d1), d2) == AdjustLightness(x, d1 + d2)
  {
  }

  /** `mix(other, ratio)`: the ratio is clamped to [0, 1], the three
      components are averaged with weights `1 - ratio` and `ratio` (the
      interpolation `Lerp`, see `LerpIsWeightedAverage`), and the averaged
      alpha is truncated toward zero. */
  function Mix(x: LAB, o: LAB, ratio: real): (y: LAB)
    ensures ratio <= 0.0 ==> y == x
    ensures 1.0 <= ratio ==> y == o
    ensures o == x ==> y == x
    ensures ratio == 0.5 ==> y.l == (x.l + o.l) / 2.0 && y.a == (x.a + o.a) / 2.0 && y.b == (x.b + o.b) / 2.0
    ensures Between(y.l, x.l, o.l) && Between(y.a, x.a, o.a) && Between(y.b, x.b, o.b)
    ensures Between(y.alpha as real, x.alpha as real, o.alpha as real)
  {
    var t := Clamp(ratio, 0.0, 1.0);
    TruncBetween(Lerp(x.alpha as real, o.alpha as real, t), x.alpha, o.alpha);
    LAB(Lerp(x.l, o.l, t), Lerp(x.a, o.a, t), Lerp(x.b, o.b, t),
        Trunc(Lerp(x.alpha as real, o.alpha as real, t)))
  }

  /** `r` lies in the closed interval spanned by `u` and `v`. */
  predicate Between(r: real, u: real, v: real)
  {
    (u <= r <= v) || (v <= r <= u)
  }

  /** Truncating a value that lies between two integers stays between them. */
  lemma TruncBetween(v: real, i: int, j: int)
    requires Between(v, i as real, j as real)
    ensures Between(Trunc(v) as real, i as real, j as real)
  {
    if i <= j {
      TruncWithin(v, i, j);
    } else {
      TruncWithin(v, j, i);
    }
  }

  lemma TruncWithin(v: real, lo: int, hi: int)
    requires lo as real <= v <= hi as real
    ensures lo <= Trunc(v) <= hi
  {
    if 0.0 <= v {
      assert lo <= v.Floor;
    } else {
      assert (-v).Floor <= -lo;
      assert -hi <= (-v).Floor;
    }
  }

  /** Mixing is symmetric under swapping the colours and complementing the
      ratio. */
  lemma MixSwap(x: LAB, o: LAB, ratio: real)
    ensures Mix(x, o, ratio) == Mix(o, x, 1.0 - ratio)
  {
    var t := Clamp(ratio, 0.0, 1.0);
    assert Clamp(1.0 - ratio, 0.0, 1.0) == 1.0 - t;
    LerpSwap(x.l, o.l, t);
    LerpSwap(x.a, o.a, t);
    LerpSwap(x.b, o.b, t);
    LerpSwap(x.alpha as real, o.alpha as real, t);
  }

  /** Values the library's tests use. */
  lemma Examples()
    ensures AdjustLightness(LAB(50.0, 10.0, -20.0, DefaultAlpha), 10.0).l == 60.0
    ensures AdjustLightness(LAB(50.0, 10.0, -20.0, DefaultAlpha), -10.0).l == 40.0
    ensures Mix(LAB(50.0, 10.0, -20.0, DefaultAlpha), LAB(60.0, -5.0, 15.0, DefaultAlpha), 0.5).l == 55.0
  {
  }

  /** A shift of one unit along a* is similar under the default threshold
      and under 5; a shift of five units along L* is not similar under the
      default. */
  lemma SimilarityExamples()
    ensures IsSimilar(LAB(50.0, 10.0, -20.0, DefaultAlpha), LAB(50.0, 11.0, -20.0, DefaultAlpha), 5.0)
    ensures IsSimilar(LAB(50.0, 10.0, -20.0, DefaultAlpha), LAB(50.0, 11.0, -20.0, DefaultAlpha), DefaultSimilarity)
    ensures !IsSimilar(LAB(50.0, 10.0, -20.0, DefaultAlpha), LAB(55.0, 10.0, -20.0, DefaultAlpha), DefaultSimilarity)
  {
  }
}

/** The 8-bit RGB colour value that every other colour space converts to
    and from. Only its fields and named constants are modelled here: its
    `mix`, `luminance`, `to_hex` and the LAB-based `color_distance` are not
    part of this model and enter the operations that use them as function
    parameters, constrained only by the laws stated below. */
module Rgb {

  /** Channels and alpha as stored; the component constructor does not
      clamp, so any integers may appear. */
  datatype RGB = RGB(r: int, g: int, b: int, a: int)

  const Black := RGB(0, 0, 0, 255)
  const White := RGB(255, 255, 255, 255)
  const Red := RGB(255, 0, 0, 255)
  const Green := RGB(0, 255, 0, 255)
  const Blue := RGB(0, 0, 255, 255)

  /** The three colour channels lie in [0, 255]. */
  predicate InGamut(c: RGB)
  {
    0 <= c.r <= 255 && 0 <= c.g <= 255 && 0 <= c.b <= 255
  }

  /** Channels and alpha all lie in [0, 255]. */
  predicate Valid(c: RGB)
  {
    InGamut(c) && 0 <= c.a <= 255
  }

  /** A channel scaled to [0, 1]. */
  function Unit(v: int): real
  {
    v as real / 255.0
  }

  /** `RGB::mix(other, ratio)`. */
  type Mixer = (RGB, RGB, real) -> RGB

  /** `RGB::luminance()`. */
  type Luminance = RGB -> real

  /** `color_distance`: CIE76 distance between the LAB images of two colours. */
  type Distance = (RGB, RGB) -> real

  /** The behaviour of `mix` that the library's tests pin down: ratio 0
      gives the receiver, ratio 1 gives the other colour, and mixing a
      colour with itself gives it back. */
  ghost predicate MixLaws(mix: Mixer)
  {
    && (forall x, y :: mix(x, y, 0.0) == x)
    && (forall x, y :: mix(x, y, 1.0) == y)
    && (forall x, t :: mix(x, x, t) == x)
  }
}

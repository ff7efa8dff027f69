/**
 * The control structure of `clamp_luminance` in colors.py: a colour whose
 * luminance is below the band is brightened, one above it darkened, by a
 * scale factor found with `bisection_search`; a colour inside the band is
 * returned as it is. The luminance formula itself is a parameter.
 */
module Luminance {
  import opened ColorCodec
  import opened Bisection

  /** Three channel fractions in sRGB space. */
  datatype Srgb = Srgb(r: real, g: real, b: real)

  /** The iteration count `bisection_search` runs with by default. */
  const Iterations: nat := 10

  /** `max(x, 0.5) / 255`: the 0.5 floor keeps every fraction positive. */
  function Fraction(x: Byte): (v: real)
    ensures 0.0 < v <= 1.0
    ensures x > 0 ==> v == x as real / 255.0
  {
    (if x as real < 0.5 then 0.5 else x as real) / 255.0
  }

  function ToSrgb(c: Color): Srgb
  {
    Srgb(Fraction(Red(c)), Fraction(Green(c)), Fraction(Blue(c)))
  }

  function Min1(x: real): real
  {
    if 1.0 < x then 1.0 else x
  }

  /** `scale_color(a, s, clamp=1)`: every fraction scaled by `a`, at most 1. */
  function ScaleClamped(a: real, s: Srgb): Srgb
  {
    Srgb(Min1(a * s.r), Min1(a * s.g), Min1(a * s.b))
  }

  /** `scale_color(a, s)`: every fraction scaled by `a`. */
  function Scale(a: real, s: Srgb): Srgb
  {
    Srgb(a * s.r, a * s.g, a * s.b)
  }

  /** `from_rgb(*scale_color(a * 255, s))`: back to a colour, clamping and truncating. */
  function Rescaled(a: real, s: Srgb): Color
  {
    var t := Scale(a * 255.0, s);
    FromRgb(t.r, t.g, t.b)
  }

  /** The predicate of the brightening search: the scaled colour is bright enough. */
  function BrightEnough(luminance: Srgb -> real, s: Srgb, minL: real): real -> bool
  {
    a => luminance(ScaleClamped(a, s)) >= minL
  }

  /** The predicate of the darkening search: the scaled colour is dark enough. */
  function DarkEnough(luminance: Srgb -> real, s: Srgb, maxL: real): real -> bool
  {
    a => luminance(ScaleClamped(a, s)) <= maxL
  }

  /** The factor `bisection_search(f, 1, 255)` returns for a too-dark colour. */
  function BrightenFactor(luminance: Srgb -> real, s: Srgb, minL: real): real
  {
    var f := BrightEnough(luminance, s, minL);
    Pick(Steps(f, Start(f, 1.0, 255.0), Iterations))
  }

  /** The factor `bisection_search(f, 0, 1)` returns for a too-bright colour. */
  function DarkenFactor(luminance: Srgb -> real, s: Srgb, maxL: real): real
  {
    var f := DarkEnough(luminance, s, maxL);
    Pick(Steps(f, Start(f, 0.0, 1.0), Iterations))
  }

  /**
   * What `clamp_luminance` returns: a colour whose luminance is inside the
   * band comes back unchanged; any other colour comes back rescaled.
   */
  function Clamped(c: Color, minL: real, maxL: real, luminance: Srgb -> real): (r: Color)
    ensures minL <= luminance(ToSrgb(c)) <= maxL ==> r == c
    ensures luminance(ToSrgb(c)) < minL ==>
              r == Rescaled(BrightenFactor(luminance, ToSrgb(c), minL), ToSrgb(c))
    ensures minL <= luminance(ToSrgb(c)) && maxL < luminance(ToSrgb(c)) ==>
              r == Rescaled(DarkenFactor(luminance, ToSrgb(c), maxL), ToSrgb(c))
  {
    var s := ToSrgb(c);
    var l := luminance(s);
    if l < minL then Rescaled(BrightenFactor(luminance, s, minL), s)
    else if l > maxL then Rescaled(DarkenFactor(luminance, s, maxL), s)
    else c
  }

  /** `clamp_luminance(color, luminance_range=(minL, maxL))`. */
  method ClampLuminance(c: Color, minL: real, maxL: real, luminance: Srgb -> real) returns (r: Color)
    ensures r == Clamped(c, minL, maxL, luminance)
  {
    var s := ToSrgb(c);
    var l := luminance(s);
    if l < minL {
      var a := BisectionSearch(BrightEnough(luminance, s, minL), 1.0, 255.0, Iterations);
      r := Rescaled(a, s);
    } else if l > maxL {
      var a := BisectionSearch(DarkEnough(luminance, s, maxL), 0.0, 1.0, Iterations);
      r := Rescaled(a, s);
    } else {
      r := c;
    }
  }

  /**
   * A too-dark colour is scaled by a factor in [1, 255]; when scaling by 255
   * reaches the band's lower edge, the chosen factor reaches it too.
   */
  lemma BrightenFactorMeets(luminance: Srgb -> real, s: Srgb, minL: real)
    ensures 1.0 <= BrightenFactor(luminance, s, minL) <= 255.0
    ensures luminance(ScaleClamped(255.0, s)) >= minL ==>
              luminance(ScaleClamped(BrightenFactor(luminance, s, minL), s)) >= minL
  {
    var f := BrightEnough(luminance, s, minL);
    StepsWithin(f, 1.0, 255.0, Iterations);
    if f(255.0) {
      PickHolds(f, 1.0, 255.0, Iterations);
    }
  }

  /**
   * A too-bright colour is scaled by a factor in [0, 1]; when scaling by 0
   * reaches the band's upper edge, the chosen factor reaches it too.
   */
  lemma DarkenFactorMeets(luminance: Srgb -> real, s: Srgb, maxL: real)
    ensures 0.0 <= DarkenFactor(luminance, s, maxL) <= 1.0
    ensures luminance(ScaleClamped(0.0, s)) <= maxL ==>
              luminance(ScaleClamped(DarkenFactor(luminance, s, maxL), s)) <= maxL
  {
    var f := DarkEnough(luminance, s, maxL);
    StepsWithin(f, 0.0, 1.0, Iterations);
    if f(0.0) {
      PickHolds(f, 0.0, 1.0, Iterations);
    }
  }
}

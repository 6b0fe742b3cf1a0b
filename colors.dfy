/**
 * The colour value of include/components/rendering/color.hpp: three channels,
 * here exact reals, with the component-wise operators the integrator uses and
 * `clamped`, which is built from comparisons only.
 */
module Colors {

  datatype Color = Color(r: real, g: real, b: real)

  const Black := Color(0.0, 0.0, 0.0)

  /** std::min(a, b): `b < a ? b : a`. */
  function Min(a: real, b: real): real { if b < a then b else a }

  /** std::max(a, b): `a < b ? b : a`. */
  function Max(a: real, b: real): real { if a < b then b else a }

  /** One channel of `clamped`: std::min(std::max(v, lo), hi). */
  function ClampChannel(v: real, lo: real, hi: real): real { Min(Max(v, lo), hi) }

  predicate InRange(c: Color, lo: real, hi: real)
  {
    lo <= c.r <= hi && lo <= c.g <= hi && lo <= c.b <= hi
  }

  /** color::clamped(min = 0, max = 1): every channel clamped on its own. */
  function Clamped(c: Color, lo: real := 0.0, hi: real := 1.0): (d: Color)
    ensures lo <= hi ==> InRange(d, lo, hi)
    ensures InRange(c, lo, hi) ==> d == c
    ensures hi < lo ==> d == Color(hi, hi, hi)
    ensures lo <= hi ==> (c.r <= lo ==> d.r == lo) && (hi <= c.r ==> d.r == hi)
    ensures lo <= hi ==> (c.g <= lo ==> d.g == lo) && (hi <= c.g ==> d.g == hi)
    ensures lo <= hi ==> (c.b <= lo ==> d.b == lo) && (hi <= c.b ==> d.b == hi)
  {
    Color(ClampChannel(c.r, lo, hi), ClampChannel(c.g, lo, hi), ClampChannel(c.b, lo, hi))
  }

  /** Clamping twice with the same bounds is clamping once, whatever the bounds. */
  lemma ClampedIdempotent(c: Color, lo: real, hi: real)
    ensures Clamped(Clamped(c, lo, hi), lo, hi) == Clamped(c, lo, hi)
  {
  }

  /** A channel of the result depends on that channel of the input alone. */
  lemma ClampedPerChannel(c: Color, e: Color, lo: real, hi: real)
    ensures c.r == e.r ==> Clamped(c, lo, hi).r == Clamped(e, lo, hi).r
    ensures c.g == e.g ==> Clamped(c, lo, hi).g == Clamped(e, lo, hi).g
    ensures c.b == e.b ==> Clamped(c, lo, hi).b == Clamped(e, lo, hi).b
  {
  }

  /** The default bounds are 0 and 1. */
  lemma ClampedDefaultBounds(c: Color)
    ensures Clamped(c) == Clamped(c, 0.0, 1.0)
    ensures InRange(Clamped(c), 0.0, 1.0)
  {
  }

  // Component-wise operators of struct color.

  function Add(a: Color, b: Color): Color { Color(a.r + b.r, a.g + b.g, a.b + b.b) }

  function Mul(a: Color, b: Color): Color { Color(a.r * b.r, a.g * b.g, a.b * b.b) }

  function Scale(a: Color, t: real): Color { Color(a.r * t, a.g * t, a.b * t) }

  function Div(a: Color, x: real): Color
    requires x != 0.0
  {
    Color(a.r / x, a.g / x, a.b / x)
  }

  /** std::max({r, g, b}). */
  function MaxChannel(c: Color): (m: real)
    ensures c.r <= m && c.g <= m && c.b <= m
    ensures m == c.r || m == c.g || m == c.b
  {
    Max(Max(c.r, c.g), c.b)
  }
}

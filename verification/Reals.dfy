/** Values that may be absent. */
module Options {
  datatype Option<+T> = None | Some(value: T)
}

/** Minimum, maximum and the order laws of real multiplication. */
module Reals {

  function Max(x: real, y: real): real {
    if x >= y then x else y
  }

  function Min(x: real, y: real): real {
    if x <= y then x else y
  }

  lemma ScaleMono(t: real, f: real, g: real)
    requires t >= 0.0 && f <= g
    ensures f * t <= g * t
  {
  }

  lemma StrictScale(t: real, q: real, f: real)
    requires t > 0.0 && q < f
    ensures q * t < f * t
  {
  }

  lemma NonPositive(a: real, d: real)
    requires a >= 0.0 && d <= 0.0
    ensures a * d <= 0.0
  {
  }

  lemma AtMostWhole(a: real, d: real)
    requires a <= 1.0 && d >= 0.0
    ensures a * d <= d
  {
    NonPositive(d, a - 1.0);
    assert d * (a - 1.0) == a * d - d;
  }

  lemma Negate(x: real, t: real)
    ensures x * (-t) == -(x * t) == (-t) * x
  {
  }

  lemma ZeroProduct(f: real, t: real)
    requires t == 0.0
    ensures f * t == 0.0
  {
  }

  lemma Commute(x: real, y: real)
    ensures x * y == y * x
  {
  }

  /** The sign and size of a quotient x / d, given as r with r*d = x. */
  lemma QuotientBounds(r: real, d: real, x: real)
    requires d > 0.0 && r * d == x && 0.0 <= x <= d
    ensures 0.0 <= r <= 1.0
  {
    assert (r - 1.0) * d == r * d - d;
    if r < 0.0 {
      StrictScale(d, r, 0.0);
    } else if r > 1.0 {
      StrictScale(d, 0.0, r - 1.0);
    }
  }

  /** The point a fraction a of the way from low to high. */
  function Blend(a: real, low: real, high: real): real {
    a * (high - low) + low
  }

  lemma BlendBounds(a: real, low: real, high: real)
    requires 0.0 <= a <= 1.0 && low <= high
    ensures low <= Blend(a, low, high) <= high
  {
    AtMostWhole(a, high - low);
  }

  lemma BlendMonotone(a: real, a': real, low: real, high: real)
    requires a <= a' && low <= high
    ensures Blend(a, low, high) <= Blend(a', low, high)
  {
    ScaleMono(high - low, a, a');
  }
}

/** The few facts about products that the rounding proofs need, each proved on its own. */
module Arithmetic {

  lemma MulNonNegative(a: int, b: int)
    requires a >= 0 && b >= 0
    ensures a * b >= 0
  {
  }

  lemma MulMonotonic(a: int, b: int, s: int)
    requires a <= b && s >= 0
    ensures a * s <= b * s
  {
    MulNonNegative(b - a, s);
    assert (b - a) * s == b * s - a * s;
  }

  lemma MulCancel(a: int, b: int, s: int)
    requires s > 0 && a * s <= b * s
    ensures a <= b
  {
    assert (b + 1) * s == b * s + s;
    if a > b {
      MulMonotonic(b + 1, a, s);
    }
  }

  lemma MulCancelStrict(a: int, b: int, s: int)
    requires s > 0 && a * s < b * s
    ensures a < b
  {
    if a >= b {
      MulMonotonic(b, a, s);
    }
  }

  lemma Odd(m: int, d: int)
    ensures (2 * m - 1) * d == 2 * (m * d) - d
    ensures (2 * m + 1) * d == 2 * (m * d) + d
  {
    assert (2 * m) * d == 2 * (m * d);
    assert (2 * m - 1) * d == (2 * m) * d - d;
    assert (2 * m + 1) * d == (2 * m) * d + d;
  }

  lemma Swap(a: int, b: int, c: int)
    ensures (a * b) * c == (a * c) * b
    ensures a * (b * c) == (a * b) * c
    ensures a * (b * c) == b * (a * c)
  {
  }

  lemma Regroup(x: int, y: int, u: int, v: int)
    ensures (x * u) * (y * v) == (x * y) * (u * v)
  {
    Swap(x, u, y * v);
    Swap(u, y, v);
    Swap(x, y, u * v);
  }
}

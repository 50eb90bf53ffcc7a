/** The arithmetic the plugin relies on, on exact reals: `Math.round`, products and quotients,
    and numbers that may be NaN. */
module JsMath {
  import opened Wrappers

  /** `Math.round(x)`: the integer nearest to `x`, with halves rounded towards +infinity
      (so `Round(-2.5) == -2`). */
  function Round(x: real): (r: int)
    ensures r as real - 0.5 <= x < r as real + 0.5
  {
    (x + 0.5).Floor
  }

  /** Rounding leaves integers alone. */
  lemma RoundInt(n: int)
    ensures Round(n as real) == n
  {
  }

  /** Rounding never moves a value by more than half a unit. */
  lemma RoundError(x: real)
    ensures -0.5 <= Round(x) as real - x <= 0.5
  {
  }

  /** Rounding preserves order, not necessarily strictly. */
  lemma RoundMonotone(x: real, y: real)
    requires x <= y
    ensures Round(x) <= Round(y)
  {
  }

  /** A value at least an integer rounds to at least that integer. */
  lemma RoundAtLeast(x: real, n: int)
    requires n as real <= x
    ensures n <= Round(x)
  {
    RoundMonotone(n as real, x);
  }

  /** A value at most an integer rounds to at most that integer. */
  lemma RoundAtMost(x: real, n: int)
    requires x <= n as real
    ensures Round(x) <= n
  {
    RoundMonotone(x, n as real);
  }

  // ---------------------------------------------------------------- products and quotients

  /** `a * b`. The layout arithmetic writes its products and quotients with `Mul` and `Div`,
      so that products of equal factors are equal by congruence alone. */
  function Mul(a: real, b: real): (r: real)
  {
    a * b
  }

  /** `a / b`. */
  function Div(a: real, b: real): (r: real)
    requires b != 0.0
  {
    a / b
  }

  /** Comparing a quotient by a positive divisor is comparing the dividend with a product. */
  lemma DivCompare(a: real, b: real, c: real)
    requires b > 0.0
    ensures Div(a, b) > c <==> a > Mul(c, b)
    ensures Div(a, b) < c <==> a < Mul(c, b)
  {
    assert a / b * b == a;
  }

  /** Dividing by a quotient is multiplying by its reciprocal. */
  lemma DivOfQuotient(a: real, b: real, c: real)
    requires b != 0.0 && c != 0.0
    ensures Div(a, Div(b, c)) == Div(Mul(a, c), b)
  {
  }

  /** Multiplying by a quotient. */
  lemma MulOfQuotient(a: real, b: real, c: real)
    requires c != 0.0
    ensures Mul(a, Div(b, c)) == Div(Mul(a, b), c)
  {
  }

  /** A quotient of a product by one of its factors. */
  lemma DivCancel(a: real, b: real)
    requires b != 0.0
    ensures Div(Mul(a, b), b) == a
  {
  }

  /** Multiplying by a non-negative factor preserves order. */
  lemma MulMonotone(a: real, b: real, s: real)
    requires a <= b && s >= 0.0
    ensures Mul(a, s) <= Mul(b, s)
  {
  }

  /** Cross-multiplied order of two fractions carries over to the fractions scaled by the same
      positive factor. */
  lemma ScaledQuotientLess(n1: real, d1: real, n2: real, d2: real, k: real)
    requires d1 > 0.0 && d2 > 0.0 && k > 0.0 && Mul(n1, d2) < Mul(n2, d1)
    ensures Div(Mul(n1, k), d1) < Div(Mul(n2, k), d2)
  {
  }

  /** Multiplication commutes. */
  lemma MulCommutes(a: real, b: real)
    ensures Mul(a, b) == Mul(b, a)
  {
  }

  /** Scaling by `a / b` maps `b` to `a`. */
  lemma ScaleBack(a: real, b: real)
    requires b != 0.0
    ensures Mul(b, Div(a, b)) == a
  {
  }

  /** Scaling distributes over a difference. */
  lemma MulDistributes(a: real, b: real, s: real)
    ensures Mul(b - a, s) == Mul(b, s) - Mul(a, s)
  {
  }

  // ---------------------------------------------------------------- NaN

  /** A JavaScript number that may be NaN (`None`); infinities are not modelled. */
  type Number = Option<real>

  /** `a - b`: NaN when either side is. */
  function Minus(a: Number, b: Number): (r: Number)
    ensures r.Some? <==> a.Some? && b.Some?
  {
    if a.Some? && b.Some? then Some(a.value - b.value) else None
  }

  /** `a * s`: NaN when `a` is. */
  function Times(a: Number, s: real): (r: Number)
    ensures r.Some? <==> a.Some?
  {
    if a.Some? then Some(Mul(a.value, s)) else None
  }

  /** `a / b` for a non-zero `b`: NaN when `a` is. */
  function Quotient(a: Number, b: real): (r: Number)
    requires b != 0.0
    ensures r.Some? <==> a.Some?
  {
    if a.Some? then Some(Div(a.value, b)) else None
  }

  /** `a > b`; every comparison with NaN is false. */
  predicate Greater(a: Number, b: real)
  {
    a.Some? && a.value > b
  }

  /** `a < b`; every comparison with NaN is false. */
  predicate Less(a: Number, b: real)
  {
    a.Some? && a.value < b
  }
}

/**
  The parts of JavaScript's `number` that the drag-and-drop geometry relies on.
  Coordinates are exact reals; a `Number` is kept only where a non-finite value
  can actually arise: a division by a zero width or height, and a zone capacity
  that may be `Infinity`.
 */
module Numbers {

  /** A JavaScript number: a finite value, one of the two infinities, or NaN. */
  datatype Number = Finite(value: real) | PosInfinity | NegInfinity | NaN

  /** `Math.min` on finite values. */
  function Min(a: real, b: real): (m: real)
    ensures m <= a && m <= b
    ensures m == a || m == b
  {
    if a <= b then a else b
  }

  /** `Math.max` on finite values. */
  function Max(a: real, b: real): (m: real)
    ensures m >= a && m >= b
    ensures m == a || m == b
  {
    if a >= b then a else b
  }

  /**
    The `/` operator on two finite operands: an exact quotient when the divisor
    is non-zero; otherwise an infinity carrying the dividend's sign, or NaN for
    `0 / 0`.
   */
  function Divide(n: real, d: real): (q: Number)
    ensures d != 0.0 ==> q.Finite? && q.value * d == n
    ensures d == 0.0 && n > 0.0 ==> q == PosInfinity
    ensures d == 0.0 && n < 0.0 ==> q == NegInfinity
    ensures q.NaN? <==> d == 0.0 && n == 0.0
  {
    if d != 0.0 then Finite(n / d)
    else if n > 0.0 then PosInfinity
    else if n < 0.0 then NegInfinity
    else NaN
  }

  /** A quotient whose dividend lies in [0, d] for a positive divisor lies in [0, 1]. */
  lemma DivideUnitInterval(n: real, d: real)
    requires d > 0.0 && 0.0 <= n <= d
    ensures Divide(n, d).Finite?
    ensures 0.0 <= Divide(n, d).value <= 1.0
    ensures Divide(n, d).value == 1.0 <==> n == d
    ensures Divide(n, d).value == 0.0 <==> n == 0.0
  {
    var q := n / d;
    assert q * d == n;
    if q > 1.0 {
      assert q * d > 1.0 * d;
    }
    if q < 0.0 {
      assert q * d < 0.0;
    }
  }
}

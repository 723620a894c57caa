/** The two numeric operations of the world logic, on exact reals:
    clamping a danger level into [0, 1] and rounding a trust score to two
    decimal places. */
module Numeric {

  function Min(a: real, b: real): real { if a <= b then a else b }

  function Max(a: real, b: real): real { if a >= b then a else b }

  /** `x` pulled into [0, 1]: the larger of 0 and the smaller of 1 and `x`. */
  function Clamp(x: real): (r: real)
    ensures 0.0 <= r <= 1.0
    ensures 0.0 <= x <= 1.0 ==> r == x
    ensures x > 1.0 ==> r == 1.0
    ensures x < 0.0 ==> r == 0.0
  {
    Max(0.0, Min(1.0, x))
  }

  /** `x` is a whole number of hundredths. */
  predicate IsCents(x: real) {
    (x * 100.0).Floor as real == x * 100.0
  }

  /** The whole number of hundredths nearest to `x`, ties going to the even
      neighbour, as Python's `round(x, 2)` breaks them. */
  function RoundCents(x: real): (k: int)
    ensures -0.5 <= k as real - x * 100.0 <= 0.5
    ensures k as real - x * 100.0 == 0.5 || k as real - x * 100.0 == -0.5 ==> k % 2 == 0
    ensures IsCents(x) ==> k as real == x * 100.0
  {
    var y := x * 100.0;
    var f := y.Floor;
    var frac := y - f as real;
    if frac < 0.5 then f
    else if frac > 0.5 then f + 1
    else if f % 2 == 0 then f
    else f + 1
  }

  /** Rounding to two decimal places: a whole number of hundredths, within half a hundredth
      of `x`, and `x` itself when `x` already is one. */
  function Round2(x: real): (r: real)
    ensures IsCents(r)
    ensures -0.005 <= r - x <= 0.005
    ensures IsCents(x) ==> r == x
  {
    var k := RoundCents(x);
    assert (k as real / 100.0) * 100.0 == k as real;
    k as real / 100.0
  }

  /** At an exact tie `Round2` picks the neighbour with an even number of
      hundredths, as Python's `round` does. */
  lemma Round2TiesToEven(x: real)
    requires Round2(x) - x == 0.005 || Round2(x) - x == -0.005
    ensures (Round2(x) * 100.0).Floor % 2 == 0
  {
    var k := RoundCents(x);
    var r := Round2(x);
    assert r * 100.0 == k as real;
    assert (r - x) * 100.0 == k as real - x * 100.0;
  }
}

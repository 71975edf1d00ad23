/**
 * Python's integer and rounding operators on exact reals: `int(x)` on a
 * float, `a % b` on integers, and `round(x, 2)`.
 */
module PyNum {

  /** `int(x)` for a float `x`: truncation toward zero. */
  function Trunc(x: real): (r: int)
    ensures 0.0 <= x ==> 0 <= r && r as real <= x < r as real + 1.0
    ensures x < 0.0 ==> r <= 0 && r as real - 1.0 < x <= r as real
  {
    if x >= 0.0 then x.Floor else -((-x).Floor)
  }

  /** Python's `a % b`: the remainder takes the sign of the divisor. */
  function PyMod(a: int, b: int): (r: int)
    requires b != 0
    ensures 0 < b ==> 0 <= r < b
    ensures b < 0 ==> b < r <= 0
  {
    var e := a % b;  // Dafny's remainder: 0 <= e < |b|
    if b > 0 || e == 0 then e else e + b
  }

  /** Python's `a % b == 0`, the test the per-second rule uses, is divisibility. */
  lemma PyModZeroIffDivides(a: int, b: int)
    requires b != 0
    ensures PyMod(a, b) == 0 <==> a % b == 0
  {
  }

  /** Rounding to the nearest integer, ties to the even neighbour. */
  function RoundHalfEven(y: real): (r: int)
    ensures -0.5 <= r as real - y <= 0.5
    ensures y - y.Floor as real == 0.5 ==> r % 2 == 0
  {
    var n := y.Floor;
    var frac := y - n as real;
    if frac < 0.5 then n
    else if frac > 0.5 then n + 1
    else if n % 2 == 0 then n
    else n + 1
  }

  lemma RoundHalfEvenMonotone(x: real, y: real)
    requires x <= y
    ensures RoundHalfEven(x) <= RoundHalfEven(y)
  {
    if x.Floor < y.Floor {
      assert RoundHalfEven(x) <= x.Floor + 1 <= y.Floor <= RoundHalfEven(y);
    }
  }

  /** `round(p * 100, 2)` counted in hundredths of a percent. */
  function PercentHundredths(p: real): (h: int)
    ensures -0.5 <= h as real - p * 10000.0 <= 0.5
  {
    RoundHalfEven(p * 10000.0)
  }

  /** `round(p * 100, 2)`: a probability as a percentage with two decimals. */
  function Percent(p: real): (r: real)
    ensures -0.005 <= r - 100.0 * p <= 0.005
  {
    PercentHundredths(p) as real / 100.0
  }

  lemma PercentMonotone(x: real, y: real)
    requires x <= y
    ensures Percent(x) <= Percent(y)
  {
    RoundHalfEvenMonotone(x * 10000.0, y * 10000.0);
  }

  // ----- integer facts the sampling rules rest on -----

  lemma MulMonotone(a: int, b: int, c: int)
    requires a <= b && c >= 0
    ensures a * c <= b * c
  {
  }

  lemma MulAtLeast(a: int, d: int)
    requires a >= 1 && d >= 1
    ensures a * d >= d
  {
  }

  /** Quotient and remainder are the unique q, r with a == d * q + r and 0 <= r < d. */
  lemma DivModUnique(a: int, d: int, q: int, r: int)
    requires d >= 1 && a == d * q + r && 0 <= r < d
    ensures a / d == q && a % d == r
  {
    var q', r' := a / d, a % d;
    assert a == d * q' + r';
    assert d * (q - q') == r' - r;
    if q > q' {
      MulAtLeast(q - q', d);
    } else if q < q' {
      MulAtLeast(q' - q, d);
    }
  }

  lemma MultipleHasNoRemainder(k: int, d: int)
    requires d >= 1
    ensures (k * d) % d == 0
  {
    DivModUnique(k * d, d, k, 0);
  }
}

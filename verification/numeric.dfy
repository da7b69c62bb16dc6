/** Real-number helpers that spell out the rounding behaviour of Python and
    JavaScript operators on non-integers: floor, truncation toward zero,
    Python's `%` (result has the sign of the divisor), JavaScript's `%`
    (result has the sign of the dividend), and Python's `round` (half to even). */
module Numeric {

  function Min(a: real, b: real): real { if a <= b then a else b }

  function Max(a: real, b: real): real { if a >= b then a else b }

  function Abs(a: real): real { if a >= 0.0 then a else -a }

  /** Python's `int(x)` and JavaScript's `Math.trunc(x)`: rounds toward zero. */
  function Trunc(x: real): (r: int)
    ensures x >= 0.0 ==> r == x.Floor
    ensures Abs(x - r as real) < 1.0
    ensures Abs(r as real) <= Abs(x)
  {
    if x >= 0.0 then x.Floor else -((-x).Floor)
  }

  /** Python's `x % n` on floats: `x - n * floor(x / n)`. */
  function PyMod(x: real, n: real): (r: real)
    requires n > 0.0
    ensures 0.0 <= r < n
  {
    var f := (x / n).Floor as real;
    FloorScaled(x, n);
    x - n * f
  }

  /** A value split as `n * f + n * d` with a fractional `d` lies below `n * f + n`. */
  lemma ScaledFraction(x: real, n: real, f: real, d: real)
    requires n > 0.0
    requires 0.0 <= d < 1.0
    requires x == n * f + n * d
    ensures n * f <= x < n * f + n
  {
    assert 0.0 <= n * d < n;
  }

  /** `n * floor(x / n)` lies within `n` below `x`. */
  lemma FloorScaled(x: real, n: real)
    requires n > 0.0
    ensures n * ((x / n).Floor as real) <= x < n * ((x / n).Floor as real) + n
  {
    var q := x / n;
    var f := q.Floor as real;
    var d := q - f;
    assert 0.0 <= d < 1.0;
    assert x == n * f + n * d;
    ScaledFraction(x, n, f, d);
  }

  /** JavaScript's `x % n` on numbers: `x - n * trunc(x / n)`. */
  function JsRem(x: real, n: real): (r: real)
    requires n > 0.0
    ensures x >= 0.0 ==> r == PyMod(x, n)
    ensures x >= 0.0 ==> 0.0 <= r < n
  {
    x - n * (Trunc(x / n) as real)
  }

  /** Python's built-in `round(x)`: nearest integer, ties to the even one. */
  function RoundHalfEven(x: real): (r: int)
    ensures Abs(x - r as real) <= 0.5
    ensures Abs(x - r as real) == 0.5 ==> r % 2 == 0
  {
    var f := x.Floor;
    var d := x - f as real;
    if d < 0.5 then f
    else if d > 0.5 then f + 1
    else if f % 2 == 0 then f else f + 1
  }

  /** Comparing two multiples of a positive factor compares the multiplicands. */
  lemma LessByPositive(a: real, b: real, t: real)
    requires t > 0.0
    ensures a * t < b * t <==> a < b
    ensures a * t <= b * t <==> a <= b
  {
    assert b * t - a * t == (b - a) * t;
  }

  lemma QuotientTimes(x: real, t: real)
    requires t > 0.0
    ensures (x / t) * t == x
  {
  }

  /** Dividing by a positive integer commutes with taking the floor. */
  lemma FloorDiv(x: real, n: int)
    requires n > 0
    ensures (x / n as real).Floor == x.Floor / n
  {
    var f := x.Floor;
    var q := f / n;
    var nr := n as real;
    assert q * n <= f < (q + 1) * n;
    assert (q * n) as real == q as real * nr;
    assert ((q + 1) * n) as real == (q + 1) as real * nr;
    assert q as real * nr <= x < (q + 1) as real * nr;
    var y := x / nr;
    QuotientTimes(x, nr);
    assert q as real * nr <= y * nr;
    LessByPositive(q as real, y, nr);
    assert y * nr < (q + 1) as real * nr;
    LessByPositive(y, (q + 1) as real, nr);
    FloorUnique(y, q);
  }

  lemma FloorUnique(y: real, q: int)
    requires q as real <= y < (q + 1) as real
    ensures y.Floor == q
  {
  }
}

/** Real-number helpers: Python's int() on floats, min/max and squares. */
module Numeric {

  function Min(a: real, b: real): (r: real)
    ensures r <= a && r <= b
    ensures r == a || r == b
  {
    if a <= b then a else b
  }

  function Max(a: real, b: real): (r: real)
    ensures r >= a && r >= b
    ensures r == a || r == b
  {
    if a <= b then b else a
  }

  function Abs(a: real): (r: real)
    ensures r >= 0.0
    ensures r == a || r == -a
  {
    if a < 0.0 then -a else a
  }

  function IntAbs(a: int): (r: nat)
    ensures r == a || r == -a
  {
    if a < 0 then -a else a
  }

  function Sq(a: real): (r: real)
    ensures r >= 0.0
  {
    a * a
  }

  /** Python's int() applied to a float: truncation toward zero. */
  function Trunc(v: real): (r: int)
    ensures v >= 0.0 ==> 0 <= r && r as real <= v < r as real + 1.0
    ensures v < 0.0 ==> r <= 0 && r as real - 1.0 < v <= r as real
  {
    if v >= 0.0 then v.Floor else -((-v).Floor)
  }

  /** A length in tiles converted to whole pixels at `res` pixels per tile, as
      the source's int(length * res). */
  function ToPixels(d: real, res: real): int
  {
    Trunc(d * res)
  }

  lemma ToPixelsIs(d: real, res: real)
    ensures ToPixels(d, res) == Trunc(d * res)
  {
  }

  /** A truncated value exceeds an integer bound only if the real value does. */
  lemma TruncBelowBound(v: real, m: int)
    requires v <= m as real
    ensures Trunc(v) <= m
  {
  }

  /** The same bound for a length converted to pixels. */
  lemma ToPixelsBelowBound(d: real, res: real, m: int)
    requires d * res <= m as real
    ensures ToPixels(d, res) <= m
  {
    TruncBelowBound(d * res, m);
  }

  /** Truncation is monotone. */
  lemma TruncMono(a: real, b: real)
    requires a <= b
    ensures Trunc(a) <= Trunc(b)
  {
  }

  /** Truncation of non-negative reals is superadditive. */
  lemma TruncSuperadditive(a: real, b: real)
    requires a >= 0.0 && b >= 0.0
    ensures Trunc(a) + Trunc(b) <= Trunc(a + b)
  {
  }

  /** From a^2 + b^2 <= m^2 with m >= 0 follows |a| <= m. */
  lemma SqSumBound(a: real, b: real, m: real)
    requires m >= 0.0
    requires Sq(a) + Sq(b) <= Sq(m)
    ensures Abs(a) <= m
  {
    if Abs(a) > m {
      var x := Abs(a);
      assert x * x == a * a;
      assert x * x > m * x by { assert x > m && x > 0.0; }
      assert m * x >= m * m;
      calc {
        Sq(a);
        == a * a;
        == x * x;
        > m * x;
        >= m * m;
        == Sq(m);
      }
      assert false;
    }
  }
}

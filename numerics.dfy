/**
 * Integer conventions of the detector's host language that matter to the model:
 * an unsigned 8-bit byte and integer division that truncates toward zero.
 */
module Numerics {

  /** An unsigned 8-bit value, as stored in an 8-bit grayscale buffer. */
  type byte = x: int | 0 <= x < 256

  function Abs(x: int): nat
  {
    if x < 0 then -x else x
  }

  /**
   * Integer division rounding toward zero (the host language's `/` on `int`),
   * as opposed to Dafny's Euclidean division.
   */
  function DivTrunc(a: int, b: int): (q: int)
    requires b != 0
    ensures Abs(q * b) <= Abs(a) < Abs(q * b) + Abs(b)
    ensures q == 0 || ((q > 0) <==> ((a > 0) == (b > 0)))
    ensures a >= 0 && b > 0 ==> q == a / b
  {
    var n: int := Abs(a) / Abs(b);
    var q := if (a >= 0) == (b > 0) then n else -n;
    TruncBounds(a, b, n, q);
    q
  }

  lemma TruncBounds(a: int, b: int, n: int, q: int)
    requires b != 0 && n == Abs(a) / Abs(b)
    requires q == if (a >= 0) == (b > 0) then n else -n
    ensures Abs(q * b) <= Abs(a) < Abs(q * b) + Abs(b)
    ensures q == 0 || ((q > 0) <==> ((a > 0) == (b > 0)))
    ensures a >= 0 && b > 0 ==> q == a / b
  {
    var m: nat := Abs(a);
    var d: nat := Abs(b);
    NatDivBounds(m, d);
    NatDivNonNegative(m, d);
    assert Abs(q) == n;
    AbsMul(q, b);
    assert Abs(q * b) == n * d;
    if n > 0 {
      AtLeastOnce(n, d);
      assert a != 0;
    }
  }

  /** Dividing by one, rounding toward zero, changes nothing. */
  lemma DivTruncByOne(a: int)
    ensures DivTrunc(a, 1) == a
  {
  }

  lemma NatDivBounds(n: nat, d: nat)
    requires d > 0
    ensures (n / d) * d <= n < (n / d) * d + d
  {
  }

  lemma NatDivNonNegative(n: nat, d: nat)
    requires d > 0
    ensures n / d >= 0
  {
  }

  lemma AbsMul(x: int, y: int)
    ensures Abs(x * y) == Abs(x) * Abs(y)
  {
    if x < 0 && y < 0 {
      assert x * y == (-x) * (-y);
    } else if x < 0 {
      assert x * y == -((-x) * y);
    } else if y < 0 {
      assert x * y == -(x * (-y));
    }
  }

  /**
   * The nearest integer to n/d, ties going to the even neighbour: the host's
   * default rounding of a floating-point value, applied to an exact fraction.
   */
  function RoundHalfEven(n: int, d: int): (r: int)
    requires d > 0
    ensures 2 * Abs(n - r * d) <= d
    ensures 2 * Abs(n - r * d) == d ==> r % 2 == 0
  {
    var q := n / d;
    var rem := n % d;
    assert n == q * d + rem && 0 <= rem < d;
    assert n - (q + 1) * d == rem - d;
    if 2 * rem < d then q
    else if 2 * rem > d then q + 1
    else if q % 2 == 0 then q
    else q + 1
  }

  /** At most one integer other than a tie can be nearest: the rounded value is the unique nearest one. */
  lemma RoundHalfEvenUnique(n: int, d: int, r: int)
    requires d > 0
    requires 2 * Abs(n - r * d) < d
    ensures r == RoundHalfEven(n, d)
  {
    var s := RoundHalfEven(n, d);
    if s != r {
      var k := r - s;
      assert k * d == (n - s * d) - (n - r * d) by { MulSub(r, s, d); }
      AtLeastOnce(Abs(k), d);
      AbsMul(k, d);
      assert false;
    }
  }

  /** Multiplying by a non-negative factor keeps the order. */
  lemma MulMonotone(a: int, b: int, k: int)
    requires a <= b && k >= 0
    ensures a * k <= b * k
  {
    assert b * k - a * k == (b - a) * k;
  }

  lemma MulSub(a: int, b: int, d: int)
    ensures (a - b) * d == a * d - b * d
  {
  }

  lemma AtLeastOnce(k: int, d: int)
    requires k >= 1 && d > 0
    ensures k * d >= d
  {
    assert k * d == (k - 1) * d + d;
  }
}

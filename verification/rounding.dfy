/** Exact integer versions of the rounding the demand calculators apply to
    a quotient: Python's `round(n / d)` (round half to even) and
    JavaScript's `Math.ceil(n / d)`. */
module Rounding {

  /** The integer nearest to n/d, ties going to the even neighbour. */
  predicate IsRoundHalfEven(n: int, d: int, r: int)
    requires d > 0
  {
    && -d <= 2 * n - 2 * d * r <= d
    && (2 * n - 2 * d * r == d || 2 * n - 2 * d * r == -d ==> r % 2 == 0)
  }

  /** Python's `round(n / d)` for integers, computed exactly. */
  function RoundHalfEven(n: int, d: int): (r: int)
    requires d > 0
    ensures IsRoundHalfEven(n, d, r)
  {
    var q := n / d;
    var m := n % d;
    assert n == d * q + m;
    if 2 * m < d then q
    else if 2 * m > d then q + 1
    else if q % 2 == 0 then q
    else q + 1
  }

  /** At most one integer is the half-to-even rounding of n/d. */
  lemma RoundHalfEvenUnique(n: int, d: int, r1: int, r2: int)
    requires d > 0
    requires IsRoundHalfEven(n, d, r1) && IsRoundHalfEven(n, d, r2)
    ensures r1 == r2
  {
    AboveIsNotRounding(n, d, r1, r2);
    AboveIsNotRounding(n, d, r2, r1);
  }

  /** Every integer above a rounding of n/d is not one. */
  lemma AboveIsNotRounding(n: int, d: int, lo: int, hi: int)
    requires d > 0
    requires IsRoundHalfEven(n, d, lo)
    ensures lo < hi ==> !IsRoundHalfEven(n, d, hi)
  {
    if lo < hi {
      MulMonotone(2 * d, hi - lo, 1);
      assert 2 * n - 2 * d * hi <= -d;
      if 2 * n - 2 * d * hi == -d {
        assert 2 * d * (hi - lo) == 2 * n - 2 * d * lo + d;
        if hi - lo > 1 {
          MulMonotone(2 * d, hi - lo, 2);
        }
        assert hi == lo + 1;
        assert lo % 2 == 0;
      }
    }
  }

  lemma MulMonotone(a: int, x: int, y: int)
    requires a >= 0 && x >= y
    ensures a * x >= a * y
  {}

  /** JavaScript's `Math.ceil(n / d)` for integers, computed exactly. */
  function CeilDiv(n: int, d: int): (r: int)
    requires d != 0
    ensures d > 0 ==> d * (r - 1) < n <= d * r
    ensures d < 0 ==> d * r <= n < d * (r - 1)
  {
    if d > 0 then
      var q := (-n) / d;
      assert -n == d * q + (-n) % d;
      -q
    else
      var q := n / (-d);
      assert n == (-d) * q + n % (-d);
      -q
  }
}

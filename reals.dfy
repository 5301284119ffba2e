/** Facts about the ordered field of the reals that the geometric lemmas instantiate. */
module Reals {
  /** A product of two non-negative numbers is non-negative. */
  lemma MulNonNegative(u: real, v: real)
    requires 0.0 <= u && 0.0 <= v
    ensures 0.0 <= u * v
  {
  }

  /** A number whose product with a positive number is non-negative is itself non-negative. */
  lemma NonNegativeFactor(u: real, t: real)
    requires 0.0 < t && 0.0 <= u * t
    ensures 0.0 <= u
  {
    if u < 0.0 {
      assert false;
    }
  }

  /** A non-negative number over a number at least as large lies in [0, 1]. */
  lemma QuotientInUnitInterval(num: real, den: real)
    requires 0.0 <= num <= den && den != 0.0
    ensures 0.0 <= num / den <= 1.0
  {
    var q := num / den;
    assert q * den == num;
  }

  /** A product that vanishes with a non-zero factor has its other factor zero. */
  lemma ProductZero(e: real, d: real)
    requires d != 0.0 && e * d == 0.0
    ensures e == 0.0
  {
    assert e == (e * d) / d;
  }

  /** Only zero squares to zero. */
  lemma SquareZero(u: real)
    requires u * u == 0.0
    ensures u == 0.0
  {
    if u != 0.0 {
      ProductZero(u, u);
    }
  }

  /** A square is never negative. */
  lemma SquareNonNegative(u: real)
    ensures 0.0 <= u * u
  {
    if 0.0 <= u {
      MulNonNegative(u, u);
    } else {
      MulNonNegative(-u, -u);
      assert (-u) * (-u) == u * u;
    }
  }
}

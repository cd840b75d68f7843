/** Small facts about integer multiplication, division and remainder. */
module Arith {

  lemma MulNonneg(a: int, b: int)
    requires a >= 0 && b >= 0
    ensures a * b >= 0
  {
  }

  /** A non-zero multiple of `d` is at least `d` away from zero. */
  lemma MulAwayFromZero(a: int, d: int)
    requires d > 0
    ensures a >= 1 ==> a * d >= d
    ensures a <= -1 ==> a * d <= -d
  {
    if a >= 1 {
      MulNonneg(a - 1, d);
      assert a * d == (a - 1) * d + d;
    } else if a <= -1 {
      MulNonneg(-a - 1, d);
      assert a * d == -((-a - 1) * d) - d;
    }
  }

  /** Division and remainder are determined by any quotient/remainder pair. */
  lemma DivModOf(n: int, d: int, q: int, r: int)
    requires d > 0 && 0 <= r < d && n == q * d + r
    ensures n / d == q && n % d == r
  {
    var q0, r0 := n / d, n % d;
    assert n == q0 * d + r0;
    assert (q - q0) * d == r0 - r;
    MulAwayFromZero(q - q0, d);
  }

  /** `a * b <= c * b` when `a <= c` and `b >= 0`. */
  lemma MulMonotone(a: int, c: int, b: int)
    requires a <= c && b >= 0
    ensures a * b <= c * b
  {
    MulNonneg(c - a, b);
    assert c * b - a * b == (c - a) * b;
  }

  /** The contrapositive-friendly form: `a <= c` gives `a * b <= c * b` for `b >= 0`. */
  lemma MulMonotoneWhen(a: int, c: int, b: int)
    requires b >= 0
    ensures a <= c ==> a * b <= c * b
  {
    if a <= c {
      MulMonotone(a, c, b);
    }
  }
}

/** Facts about products of reals used by the row translation proofs. */
module RealFacts {

  /** A non-zero factor cancels on both sides of an equation. */
  lemma MulCancel(m: real, x: real, y: real)
    requires m != 0.0 && m * x == m * y
    ensures x == y
  {
    assert m * (x - y) == 0.0;
  }

  /** Multiplying by a negative factor reverses an inequality. */
  lemma NegativeFactorFlips(m: real, x: real, y: real)
    requires m < 0.0 && m * x <= m * y
    ensures y <= x
  {
    assert m * (y - x) >= 0.0;
  }

  /**
   * If `m * r == d * t` with `m < 0` and `m <= d <= 0`, then `r` is `t` scaled
   * by a factor in `[0, 1]`: it keeps the sign of `t` and is no larger.
   */
  lemma ScaleBounded(m: real, d: real, t: real, r: real)
    requires m < 0.0 && m <= d <= 0.0
    requires m * r == d * t
    ensures 0.0 <= t ==> 0.0 <= r <= t
    ensures t <= 0.0 ==> t <= r <= 0.0
  {
    if 0.0 <= t {
      assert d * t <= 0.0;
      NegativeFactorFlips(m, r, 0.0);
      assert m * t <= d * t by { assert (d - m) * t >= 0.0; }
      assert m * t <= m * r;
      NegativeFactorFlips(m, t, r);
    } else {
      assert d * t >= 0.0;
      NegativeFactorFlips(m, 0.0, r);
      assert d * t <= m * t by { assert (d - m) * t <= 0.0; }
      assert m * r <= m * t;
      NegativeFactorFlips(m, r, t);
    }
  }
}

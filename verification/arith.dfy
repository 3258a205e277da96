/**
 * Facts about multiplication and floor division of naturals that the
 * resize and rescale arithmetic needs and the solver does not find alone.
 */
module Arith {
  lemma MulStrict(s: int, a: int, b: int)
    requires s > 0 && a < b
    ensures s * a < s * b
  {
  }

  lemma MulMono(s: nat, a: int, b: int)
    requires a <= b
    ensures s * a <= s * b
  {
  }

  /** Floor division brackets its dividend. */
  lemma Floor(a: nat, d: nat)
    requires d > 0
    ensures (a / d) * d <= a < (a / d) * d + d
  {
  }

  /** A positive factor can be cancelled from both sides of `<=`. */
  lemma MulCancelLe(d: int, p: int, q: int)
    requires d > 0 && d * p <= d * q
    ensures p <= q
  {
    if p > q {
      MulStrict(d, q, p);
    }
  }

  /** A dividend of at most `m * d` has a quotient of at most `m`. */
  lemma DivLe(x: nat, d: nat, m: nat)
    requires d > 0 && x <= m * d
    ensures x / d <= m
  {
    assert d * (x / d) + x % d == x;
    MulCancelLe(d, x / d, m);
  }

  /** A quotient whose product with `d` is below `s * d` is below `s`. */
  lemma ProductBound(r: nat, s: nat, d: nat)
    requires d > 0 && r * d < s * d
    ensures r < s
  {
    if r >= s {
      MulMono(d, s, r);
    }
  }

  /** A dividend of at least `s * d` has a quotient of at least `s`. */
  lemma QuotientAtLeast(s: nat, a: nat, d: nat)
    requires d > 0 && s * d <= a
    ensures a / d >= s
  {
    Floor(a, d);
    if a / d < s {
      MulMono(d, a / d + 1, s);
    }
  }
}

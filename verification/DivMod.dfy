/** Quotient and remainder by a positive number. */
module DivMod {
  lemma MulAtLeast(k: int, d: int)
    requires k >= 1 && d > 0
    ensures k * d >= d
  {
    assert k * d == (k - 1) * d + d;
  }

  /** Quotient and remainder are unique. */
  lemma DivModUnique(d: int, a: int, q: int, r: int, m: int)
    requires 0 <= r < d && 0 <= m < d && a * d + r == q * d + m
    ensures a == q && r == m
  {
    assert (a - q) * d == m - r && (q - a) * d == r - m;
    if a > q {
      MulAtLeast(a - q, d);
    } else if a < q {
      MulAtLeast(q - a, d);
    }
  }

  lemma DivModSplit(z: int, d: int)
    requires d > 0
    ensures z == z / d * d + z % d
  {
  }

  lemma DivModIs(z: int, d: int, a: int, r: int)
    requires 0 <= r < d && z == a * d + r
    ensures z / d == a && z % d == r
  {
    DivModSplit(z, d);
    DivModUnique(d, a, z / d, r, z % d);
  }

  /** Reducing modulo a multiple of `d` does not change the remainder by `d`. */
  lemma ModOfMultiple(y: int, d: int, f: int, q: int, s: int)
    requires 0 <= s < d && 0 < f && y == q * d + s && d * f > 0
    ensures y % (d * f) % d == s
  {
    var k, z := y / (d * f), y % (d * f);
    DivModSplit(y, d * f);
    assert k * (d * f) == k * f * d;
    assert z == (q - k * f) * d + s;
    DivModIs(z, d, q - k * f, s);
  }
}

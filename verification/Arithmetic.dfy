// Division facts the solver does not find on its own.
module Arithmetic {
  lemma MulMonotone(a: int, b: int, k: int)
    requires a <= b && k >= 0
    ensures a * k <= b * k
  {
  }

  lemma MulCancel(a: int, b: int, k: int)
    requires k > 0
    ensures a * k <= b * k <==> a <= b
    ensures a * k == b * k <==> a == b
  {
    if a < b {
      MulMonotone(a + 1, b, k);
    } else if b < a {
      MulMonotone(b + 1, a, k);
    }
  }

  lemma DivModUnique(n: int, d: int, q: int, r: int)
    requires d > 0 && n == q * d + r && 0 <= r < d
    ensures n / d == q && n % d == r
  {
    var q', r' := n / d, n % d;
    assert n == d * q' + r';
    assert (q - q') * d == r' - r;
    if q > q' {
      MulMonotone(1, q - q', d);
    } else if q < q' {
      MulMonotone(q - q', -1, d);
    }
  }

  /** A division that leaves no remainder. */
  lemma ExactDiv(n: int, d: int, q: int)
    requires d > 0 && n == q * d
    ensures n / d == q && n % d == 0
  {
    DivModUnique(n, d, q, 0);
  }

  /** Equal ratios divide alike. */
  lemma EqualRatios(a: nat, b: nat, c: nat, d: nat)
    requires b > 0 && d > 0 && a * d == c * b
    ensures a % b == 0 <==> c % d == 0
    ensures a / b == c / d
  {
    QuotientOfRatio(a, b, c, d);
    QuotientOfRatio(c, d, a, b);
  }

  lemma QuotientOfRatio(a: nat, b: nat, c: nat, d: nat)
    requires b > 0 && d > 0 && a * d == c * b
    ensures a / b <= c / d
    ensures a % b == 0 ==> c % d == 0
  {
    var q, r := a / b, a % b;
    assert a == q * b + r;
    assert (q * d) * b + r * d == c * b by {
      assert (q * b + r) * d == c * b;
    }
    assert (c - q * d) * b == r * d;
    if c < q * d {
      MulMonotone(c - q * d, -1, b);
    }
    FloorAtLeast(c, d, q);
    if r == 0 {
      MulCancel(c, q * d, b);
      ExactDiv(c, d, q);
    }
  }

  lemma FloorAtLeast(n: int, d: int, q: int)
    requires d > 0 && q * d <= n
    ensures q <= n / d
  {
    if n / d < q {
      MulMonotone(n / d + 1, q, d);
    }
  }

  /** Floor division respects the order of ratios. */
  lemma FloorMonotone(n: int, d: int, n': int, d': int)
    requires d > 0 && d' > 0 && n * d' <= n' * d
    ensures n / d <= n' / d'
  {
    var q := n / d;
    assert q * d <= n;
    assert (q * d') * d <= n' * d by {
      MulMonotone(q * d, n, d');
      assert (q * d) * d' == (q * d') * d;
    }
    MulCancel(q * d', n', d);
    FloorAtLeast(n', d', q);
  }

  /** Adding half a unit before flooring is bumping the quotient when the remainder is at least half. */
  lemma HalfUp(a: nat, d: nat)
    requires d > 0
    ensures (2 * a + d) / (2 * d) == a / d + (if 2 * (a % d) >= d then 1 else 0)
  {
    var q, r := a / d, a % d;
    assert a == q * d + r;
    if 2 * r >= d {
      assert 2 * a + d == (q + 1) * (2 * d) + (2 * r - d);
      DivModUnique(2 * a + d, 2 * d, q + 1, 2 * r - d);
    } else {
      assert 2 * a + d == q * (2 * d) + (2 * r + d);
      DivModUnique(2 * a + d, 2 * d, q, 2 * r + d);
    }
  }

  lemma FloorBounds(n: int, d: int)
    requires d > 0
    ensures (n / d) * d <= n < (n / d + 1) * d
  {
  }
}

/** Facts about division that the solver does not find on its own. */
module Arith {
  lemma MulAtLeast(d: int, n: int)
    requires n > 0
    ensures d >= 1 ==> d * n >= n
    ensures d <= -1 ==> d * n <= -n
    ensures d == 0 ==> d * n == 0
  {
    if d >= 1 {
      assert d * n == (d - 1) * n + n;
      NonNegative(d - 1, n);
    } else if d <= -1 {
      assert d * n == -((-d - 1) * n) - n;
      NonNegative(-d - 1, n);
    }
  }

  lemma NonNegative(a: nat, b: nat)
    ensures a * b >= 0
  {
  }

  /** Quotient and remainder are unique. */
  lemma DivMod(a: int, n: int, q: int, m: int)
    requires n > 0 && a == q * n + m && 0 <= m < n
    ensures a / n == q && a % n == m
  {
    var q', m' := a / n, a % n;
    assert a == q' * n + m';
    assert (q - q') * n == m' - m;
    MulAtLeast(q - q', n);
  }

  lemma ModPlus(a: int, n: int)
    requires n > 0
    ensures (a + n) % n == a % n
  {
    var q, m := a / n, a % n;
    assert (q + 1) * n == q * n + n;
    DivMod(a + n, n, q + 1, m);
  }

  lemma Doubled(q: int, h: int)
    ensures q * (2 * h) == 2 * (q * h)
  {
  }

  lemma EvenMod(a: int, n: int)
    requires n > 0 && n % 2 == 0 && a % 2 == 0
    ensures a % n % 2 == 0 && a % n + 1 < n
    ensures (a + 1) % n == a % n + 1
  {
    var q, m, h := a / n, a % n, n / 2;
    assert a == q * n + m;
    assert n == 2 * h;
    Doubled(q, h);
    var x := q * h;
    assert a == 2 * x + m;
    DivMod(a + 1, n, q, m + 1);
  }
}

/** Facts about products, quotients and powers of two. */
module Arithmetic {

  function Pow2(k: nat): (p: nat)
    ensures p > 0
  {
    if k == 0 then 1 else 2 * Pow2(k - 1)
  }

  lemma TimesMonotone(a: nat, b: nat, m: nat)
    requires a <= b
    ensures a * m <= b * m
  {
  }

  /** There is only one way to divide with remainder. */
  lemma QuotientAndRemainder(n: nat, q: nat, m: nat, r: nat)
    requires n == q * m + r && r < m
    ensures n % m == r && n / m == q
  {
    var q', r' := n / m, n % m;
    assert n == q' * m + r';
    if q < q' {
      TimesMonotone(q + 1, q', m);
    } else if q' < q {
      TimesMonotone(q' + 1, q, m);
    }
  }

  lemma Multiple(b: nat, m: nat)
    requires m > 0
    ensures b * m % m == 0 && b * m / m == b
  {
    QuotientAndRemainder(b * m, b, m, 0);
  }

  lemma QuotientAtMost(a: nat, i: nat, n: nat, m: nat)
    requires m > 0 && a <= i * m + n
    ensures a / m <= i + n / m
  {
    var p, q := a / m, n / m;
    assert a == p * m + a % m && n == q * m + n % m;
    if p > i + q {
      TimesMonotone(i + q + 1, p, m);
    }
  }

  lemma QuotientGrows(a: nat, b: nat, m: nat)
    requires a <= b && m > 0
    ensures a / m <= b / m
  {
    QuotientAtMost(a, 0, b, m);
  }

  lemma QuotientsAdd(a: nat, b: nat, m: nat)
    requires m > 0
    ensures a / m + b / m <= (a + b) / m
  {
    var p, q, r := a / m, b / m, (a + b) / m;
    assert a == p * m + a % m && b == q * m + b % m && a + b == r * m + (a + b) % m;
    if r < p + q {
      TimesMonotone(r + 1, p + q, m);
    }
  }
}

/** Division of natural numbers with symbolic divisors, and powers of two. */
module DivMod {
  function Pow2(k: nat): (p: nat)
    ensures p > 0
  {
    if k == 0 then 1 else 2 * Pow2(k - 1)
  }

  lemma MulAtLeast(a: nat, b: nat, m: nat)
    requires a >= b
    ensures a * m >= b * m && (b + 1) * m == b * m + m
  {
  }

  lemma {:induction false} MulBelow(a: nat, b: nat, m: nat, r: nat)
    requires a < b && r < m
    ensures a * m + r < b * m
  {
    MulAtLeast(b, a + 1, m);
    MulAtLeast(b, a, m);
  }

  lemma Divided(n: nat, m: nat)
    requires m > 0
    ensures n == n / m * m + n % m && n % m < m
  {
  }

  lemma {:induction false} UniqueQuotient(q: nat, a: nat, m: nat, s: nat, r: nat)
    requires r < m && s < m && q * m + s == a * m + r
    ensures q == a && s == r
  {
    if q > a { MulAtLeast(q, a + 1, m); }
    if a > q { MulAtLeast(a, q + 1, m); }
  }

  lemma {:induction false} DivModOf(a: nat, m: nat, r: nat)
    requires r < m
    ensures (a * m + r) / m == a && (a * m + r) % m == r
  {
    UniqueQuotient((a * m + r) / m, a, m, (a * m + r) % m, r);
  }

  lemma {:induction false} QuotientBelow(n: nat, a: nat, m: nat)
    requires m > 0 && n < a * m
    ensures n / m < a
  {
    Divided(n, m);
    if n / m >= a { MulAtLeast(n / m, a, m); }
  }

  lemma Collect(a: nat, q: nat, p: nat, b: nat, s: nat)
    ensures a * (p * q) + (b * p + s) == (a * q + b) * p + s
  {
  }

  lemma {:induction false} ModOfMultiple(n: nat, p: nat, q: nat)
    requires p > 0 && q > 0
    ensures p * q > 0 && n % (p * q) % p == n % p
  {
    MulAtLeast(q, 1, p);
    var m := p * q;
    var a, r := n / m, n % m;
    Divided(n, m);
    Divided(r, p);
    Collect(a, q, p, r / p, r % p);
    DivModOf(a * q + r / p, p, r % p);
  }

  /** A unit that begins below a multiple of its size ends there or before. */
  lemma {:induction false} UnitEnd(r: nat, p: nat, q: nat)
    requires p > 0 && r < q * p
    ensures r - r % p + p <= q * p
  {
    QuotientBelow(r, q, p);
    Divided(r, p);
    MulAtLeast(q, r / p + 1, p);
    MulAtLeast(q, r / p, p);
  }

  /** Adding less than what is left of a unit stays in it. */
  lemma {:induction false} ModAdd(n: nat, i: nat, p: nat)
    requires p > 0 && n % p + i < p
    ensures (n + i) % p == n % p + i && (n + i) / p == n / p
  {
    Divided(n, p);
    DivModOf(n / p, p, n % p + i);
  }
}

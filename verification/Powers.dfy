/** Powers of two and the division facts that shifts rest on. */
module Powers {

  function Pow2(k: nat): (p: nat)
    ensures p > 0
  {
    if k == 0 then 1 else 2 * Pow2(k - 1)
  }

  lemma {:induction false} Pow2Adds(a: nat, b: nat)
    ensures Pow2(a + b) == Pow2(a) * Pow2(b)
  {
    if a > 0 {
      Pow2Adds(a - 1, b);
      assert Pow2(a + b) == 2 * Pow2(a - 1 + b);
    }
  }

  /** `/` and `%` under a name: where only their type matters, the solver does not get to reason about division. */
  function Quotient(n: nat, p: nat): nat
    requires p > 0
  {
    n / p
  }

  function Remainder(n: nat, p: nat): nat
    requires p > 0
  {
    n % p
  }

  lemma DivisionIs(n: nat, p: nat, q: nat, r: nat)
    requires p > 0 && n == q * p + r && r < p
    ensures n / p == q && n % p == r
  {
    var e := n / p - q;
    assert n == p * (n / p) + n % p;
    assert p * e == r - n % p;
  }

  /** Scaling dividend and divisor alike keeps the quotient. */
  lemma ScaledDivision(n: nat, c: nat, p: nat)
    requires c > 0 && p > 0
    ensures c * p > 0 && n * c / (c * p) == n / p
  {
    var q, r := n / p, n % p;
    assert n == q * p + r;
    assert n * c == q * (c * p) + r * c;
    assert r * c < c * p;
    DivisionIs(n * c, c * p, q, r * c);
  }

  lemma MulMono(a: int, b: int, p: nat)
    requires a <= b
    ensures a * p <= b * p
  {
  }

  lemma CancelLess(a: int, b: int, p: nat)
    requires a * p < b * p
    ensures a < b
  {
    if a >= b {
      MulMono(b, a, p);
    }
  }

  lemma DivisionBounds(n: nat, p: nat)
    requires p > 0
    ensures 0 <= n / p && n / p * p <= n < (n / p + 1) * p
  {
    assert n == p * (n / p) + n % p;
  }

  /** Dividing by two factors in turn is dividing by their product. */
  lemma DivDiv(n: nat, p: nat, v: nat)
    requires p > 0 && v > 0
    ensures v * p > 0 && n / p / v == n / (v * p)
  {
    DivisionBounds(n, p);
    DivisionBounds(n / p, v);
    assert v * p > 0 by {
      MulMono(1, v, p);
    }
    Nested(n, p, v, n / p, n / p / v);
    Between(n, n / p / v, v * p, n / p / v * (v * p), (n / p / v + 1) * (v * p));
  }

  lemma Nested(n: nat, p: nat, v: nat, a: nat, q: nat)
    requires a * p <= n < (a + 1) * p && q * v <= a < (q + 1) * v
    ensures q * (v * p) <= n < (q + 1) * (v * p)
  {
    MulMono(q * v, a, p);
    MulMono(a + 1, (q + 1) * v, p);
    assert q * v * p == q * (v * p) && (q + 1) * v * p == (q + 1) * (v * p);
  }

  lemma Between(n: nat, q: nat, m: nat, lo: nat, hi: nat)
    requires m > 0 && lo == q * m && hi == (q + 1) * m && lo <= n < hi
    ensures n / m == q
  {
    DivisionIs(n, m, q, n - lo);
  }

  /** fls: the 1-based position of the highest bit, 0 for zero. */
  function Fls(x: nat): (p: nat)
    ensures x > 0 ==> p > 0 && Pow2(p - 1) <= x < Pow2(p)
    ensures x == 0 ==> p == 0
  {
    if x == 0 then 0 else 1 + Fls(x / 2)
  }
}

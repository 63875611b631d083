/** Division facts that Dafny does not find by itself for a variable divisor. */
module DivMod {

  lemma AtLeastOnce(k: int, m: nat)
    requires k >= 1
    ensures k * m >= m
  {}

  lemma DivModUnique(n: nat, m: nat, q: nat, r: nat)
    requires m > 0 && r < m && n == q * m + r
    ensures n / m == q && n % m == r
  {
    var q', r' := n / m, n % m;
    assert n == q' * m + r';
    assert (q - q') * m == q * m - q' * m == r' - r;
    if q' < q {
      AtLeastOnce(q - q', m);
    } else if q < q' {
      AtLeastOnce(q' - q, m);
    }
  }

  lemma ModStep(n: nat, m: nat)
    requires m > 0
    ensures (n + m) % m == n % m && (n + m) / m == n / m + 1
  {
    var q, r := n / m, n % m;
    assert n + m == (q + 1) * m + r by { assert n == q * m + r; }
    DivModUnique(n + m, m, q + 1, r);
  }

  lemma SmallMod(n: nat, m: nat)
    requires n < m
    ensures n / m == 0 && n % m == n
  {
    DivModUnique(n, m, 0, n);
  }

  lemma Distribute(x: int, y: int, m: int)
    ensures (x + y) * m == x * m + y * m
  {}

  lemma MulMonotone(a: nat, b: nat, m: nat)
    requires a <= b
    ensures a * m <= b * m
  {}

  lemma DivAdd(a: nat, c: nat, m: nat)
    requires m > 0
    ensures (a + c) / m == a / m + c / m + (a % m + c % m) / m
    ensures (a + c) % m == (a % m + c % m) % m
  {
    var r := a % m + c % m;
    Recombine(a / m, a % m, c / m, c % m, r / m, r % m, m);
    DivModUnique(a + c, m, a / m + c / m + r / m, r % m);
  }

  lemma Recombine(qa: nat, ra: nat, qc: nat, rc: nat, t: nat, u: nat, m: nat)
    requires ra + rc == t * m + u
    ensures qa * m + ra + (qc * m + rc) == (qa + qc + t) * m + u
  {
    Distribute(qa, qc, m);
    Distribute(qa + qc, t, m);
  }

  lemma DivBelow(n: nat, k: nat, m: nat)
    requires m > 0 && n < k * m
    ensures n / m < k
  {
    if n / m >= k {
      MulMonotone(k, n / m, m);
    }
  }

  lemma DivAbove(n: nat, k: nat, m: nat)
    requires m > 0 && k * m <= n
    ensures k <= n / m
  {
    Distribute(n / m, 1, m);
    if n / m < k {
      MulMonotone(n / m + 1, k, m);
    }
  }

  lemma DivideByHand(n: nat, m: nat) returns (q: nat, r: nat)
    requires m > 0
    ensures q == n / m && r == n % m && n == q * m + r && r < m
  {
    q, r := n / m, n % m;
  }

  lemma DivTwice(a: nat, c: nat, n: nat)
    requires c > 0 && n > 0
    ensures n * c > 0 && a / c / n == a / (n * c)
  {
    var b, u := DivideByHand(a, c);
    var q, r := DivideByHand(b, n);
    Nested(a, b, u, q, r, n, c);
  }

  lemma Nested(a: nat, b: nat, u: nat, q: nat, r: nat, n: nat, c: nat)
    requires a == b * c + u && b == q * n + r && u < c && r < n
    ensures n * c > 0 && a / (n * c) == q
  {
    AtLeastOnce(n, c);
    MulMonotone(r + 1, n, c);
    Distribute(r, 1, c);
    Distribute(q * n, r, c);
    Associate(q, n, c);
    DivModUnique(a, n * c, q, r * c + u);
  }

  lemma Associate(x: int, y: int, z: int)
    ensures x * y * z == x * (y * z)
  {}

  lemma DivFloor(n: nat, m: nat)
    requires m > 0
    ensures n / m * m <= n
  {}

  lemma DivMonotone(n: nat, k: nat, m: nat)
    requires m > 0 && n <= k
    ensures n / m <= k / m
  {
    DivFloor(n, m);
    DivAbove(k, n / m, m);
  }

  lemma ZeroQuotient(n: nat, m: nat)
    requires m > 0
    ensures n / m == 0 <==> n < m
  {
    if n < m { SmallMod(n, m); }
  }

  lemma OneLess(k: int, m: int)
    ensures k * (m - 1) == k * m - k
  {}

  lemma QuotientSmaller(n: nat, m: nat)
    requires m > 0
    ensures n / m <= n
  {
    AtLeastOnce(m, n / m);
  }
}

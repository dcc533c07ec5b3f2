/** Facts about products, quotients and remainders that the solver does not find by itself. */
module Arithmetic {

  lemma MulNext(n: int, c: int)
    ensures (n + 1) * c == n * c + c
  {
  }

  lemma MulLe(a: int, b: int, c: nat)
    requires a <= b
    ensures a * c <= b * c
  {
  }

  lemma DivIs(n: nat, d: nat, q: int)
    requires d > 0 && q * d <= n < q * d + d
    ensures n / d == q
  {
    if n / d > q {
      MulLe(q + 1, n / d, d);
    } else if n / d < q {
      MulLe(n / d + 1, q, d);
    }
  }

  lemma RemainderOf(n: nat, d: nat, q: nat)
    requires d > 0 && q * d <= n < q * d + d
    ensures n % d == n - q * d
  {
    DivIs(n, d, q);
  }

  lemma SmallRemainder(i: nat, p: nat)
    requires i < p
    ensures i % p == i
  {
  }

  lemma RemainderLe(n: nat, d: nat)
    requires d > 0
    ensures n % d <= n
  {
    if n < d {
      SmallRemainder(n, d);
    }
  }

  lemma RemainderPeriod(i: nat, p: nat)
    requires 0 < p <= i
    ensures (i - p) % p == i % p
  {
    var q := (i - p) / p;
    MulNext(q, p);
    RemainderOf(i, p, q + 1);
  }

  lemma DivBounds(n: nat, d: nat)
    requires d > 0
    ensures n / d * d <= n < n / d * d + d
  {
    assert n == n / d * d + n % d;
  }

  lemma MulTwice(n: int, c: int)
    ensures n * (2 * c) == 2 * (n * c)
  {
  }

  lemma MulMinus(a: int, b: int, c: int)
    ensures (a - b) * c == a * c - b * c
  {
  }

  lemma MulCommutes(a: int, b: int)
    ensures a * b == b * a
  {
  }

  lemma DivTwice(n: nat, a: nat, b: nat)
    requires a > 0 && b > 0
    ensures a * b > 0 && n / (a * b) == n / a / b
  {
    var q := n / a;
    var r := q / b;
    DivBounds(n, a);
    DivBounds(q, b);
    MulLe(r * b, q, a);
    MulLe(q + 1, r * b + b, a);
    assert r * (a * b) == (r * b) * a && (r * b + b) * a == r * (a * b) + a * b;
    assert (q + 1) * a == q * a + a;
    DivIs(n, a * b, r);
  }
}

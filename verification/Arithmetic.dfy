/** Facts about products, quotients and remainders of natural numbers that the solver needs spelled out. */
module Arithmetic {

  lemma ProductOrder(a: nat, b: nat, n: nat)
    requires a <= b
    ensures a * n <= b * n
  {
    assert (b - a) * n >= 0;
  }

  lemma Distribute(a: nat, b: nat, n: nat)
    ensures (a + b) * n == a * n + b * n
  {
  }

  lemma ProductPositive(a: nat, b: nat)
    requires a > 0 && b > 0
    ensures a * b > 0
  {
  }

  /** Quotient and remainder are determined by what they add up to. */
  lemma DivideExactly(high: nat, low: nat, n: nat)
    requires low < n
    ensures (high * n + low) / n == high && (high * n + low) % n == low
  {
    var value := high * n + low;
    assert value / n * n + value % n == value;
    if value / n < high {
      ProductOrder(value / n + 1, high, n);
      assert false;
    }
    if value / n > high {
      ProductOrder(high + 1, value / n, n);
      assert false;
    }
  }

  lemma DivideParts(q: nat, r: nat, n: nat)
    requires n > 0
    ensures (q * n + r) / n == q + r / n
    ensures (q * n + r) % n == r % n
  {
    assert r / n * n + r % n == r;
    assert q * n + r == (q + r / n) * n + r % n;
    DivideExactly(q + r / n, r % n, n);
  }

  lemma QuotientOrder(a: nat, b: nat, n: nat)
    requires n > 0 && a <= b
    ensures a / n <= b / n
  {
    var q, r := a / n, a % n;
    assert b == q * n + (r + (b - a));
    DivideParts(q, r + (b - a), n);
  }

  lemma ModuloAdd(a: nat, b: nat, n: nat)
    requires n > 0
    ensures (a % n + b) % n == (a + b) % n
  {
    var q, r := a / n, a % n;
    assert a == q * n + r;
    DivideParts(q, r + b, n);
    assert a + b == q * n + (r + b);
  }

  function CeilingQuotient(a: nat, b: nat): nat
    requires b > 0
  {
    (a + b - 1) / b
  }

  lemma CeilingCovers(a: nat, b: nat)
    requires b > 0
    ensures CeilingQuotient(a, b) * b >= a
  {
    var x := a + b - 1;
    assert x / b * b + x % b == x;
  }
}

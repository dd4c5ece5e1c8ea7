// Division with remainder, for the places where a divisor is not a literal.
module Arithmetic {
  lemma Multiples(k: int, d: int)
    requires d >= 0
    ensures k >= 1 ==> k * d >= d
    ensures k <= -1 ==> k * d <= -d
  {
  }

  /** Quotient and remainder are unique. */
  lemma DivModUnique(n: nat, d: nat, q: nat, r: nat)
    requires n == q * d + r && r < d
    ensures n / d == q && n % d == r
  {
    var k := n / d - q;
    assert k * d == r - n % d;
    Multiples(k, d);
  }

  lemma {:induction false} AtLeastDouble(q: nat, d: nat)
    requires d >= 2
    ensures q * d >= 2 * q
  {
    if q == 0 {
    } else {
      AtLeastDouble(q - 1, d);
      assert q * d == (q - 1) * d + d;
    }
  }

  lemma QuotientShrinks(n: nat, d: nat)
    requires n >= d >= 2
    ensures 0 < n / d < n
  {
    assert n == n / d * d + n % d;
    AtLeastDouble(n / d, d);
  }

  /** A step of a Horner scheme may reduce what it has so far. */
  lemma ModStep(x: nat, base: nat, c: nat, m: nat)
    requires m > 0
    ensures (x % m * base + c) % m == (x * base + c) % m
  {
    assert x == x / m * m + x % m;
    ModStepAt(x / m, x % m, base, c, m);
  }

  lemma ModStepAt(q: nat, r: nat, base: nat, c: nat, m: nat)
    requires m > 0
    ensures (r * base + c) % m == ((q * m + r) * base + c) % m
  {
    Expand(q, m, r, base, c);
    AddMultiple(r * base + c, q * base, m);
  }

  lemma Expand(q: nat, m: nat, r: nat, base: nat, c: nat)
    ensures (q * m + r) * base + c == (q * base) * m + (r * base + c)
  {
    assert (q * m + r) * base == q * m * base + r * base;
    assert q * m * base == q * base * m;
  }

  lemma AddMultiple(s: nat, k: nat, m: nat)
    requires m > 0
    ensures (k * m + s) % m == s % m
  {
    assert k * m + s == (k + s / m) * m + s % m;
    DivModUnique(k * m + s, m, k + s / m, s % m);
  }
}

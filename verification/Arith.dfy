/** Facts about multiplication and division that the other modules rely on. */
module Arith {

  lemma MulPositive(a: nat, b: nat)
    requires a > 0 && b > 0
    ensures a * b > 0
  {
  }

  lemma MulMonotone(a: nat, b: nat, m: nat)
    requires a <= b
    ensures a * m <= b * m
  {
  }

  lemma MulAssociative(a: nat, b: nat, c: nat)
    ensures a * b * c == a * (b * c)
  {
  }

  lemma MulRegroup(q: nat, s: nat, r: nat, b: nat)
    ensures (q * s + r) * b == q * (s * b) + r * b
  {
    assert (q * s) * b == q * (s * b);
  }

  lemma QuotientNatural(x: nat, m: nat)
    requires m > 0
    ensures x / m >= 0
  {
  }

  /** Quotient and remainder are unique. */
  lemma QuotientUnique(x: nat, m: nat, q: nat, r: nat)
    requires r < m && x == q * m + r
    ensures x / m == q && x % m == r
  {
    var a := x / m;
    if a < q {
      MulMonotone(a + 1, q, m);
    } else if q < a {
      MulMonotone(q + 1, a, m);
    }
  }

  /** A number given by two nested quotients, divided by both divisors at once. */
  lemma NestedQuotient(b: nat, s: nat, q: nat, r: nat, t: nat)
    requires r < s && t < b
    ensures s * b > 0 && ((q * s + r) * b + t) / (s * b) == q
  {
    MulPositive(s, b);
    MulRegroup(q, s, r, b);
    MulMonotone(r + 1, s, b);
    assert (r + 1) * b == r * b + b;
    QuotientUnique((q * s + r) * b + t, s * b, q, r * b + t);
  }

  /** A number is its quotient times the divisor plus the remainder. */
  lemma Division(x: nat, m: nat)
    requires m > 0
    ensures x == (x / m) * m + x % m && x % m < m
  {
  }

  /** Dividing by `b` and then by `s` is dividing by their product. */
  lemma DivideTwice(x: nat, b: nat, s: nat)
    requires b > 0 && s > 0
    ensures s * b > 0 && x / b / s == x / (s * b)
  {
    Division(x, b);
    Division(x / b, s);
    NestedQuotient(b, s, x / b / s, x / b % s, x % b);
  }

  /** A common factor comes out of a remainder. */
  lemma FactorRemainder(k: nat, x: nat, y: nat)
    requires k > 0 && y > 0
    ensures k * y > 0 && (k * x) % (k * y) == k * (x % y)
  {
    var q, r := x / y, x % y;
    Division(x, y);
    MulPositive(k, y);
    assert k * x == q * (k * y) + k * r by {
      assert k * (q * y + r) == k * (q * y) + k * r;
      assert k * (q * y) == q * (k * y);
    }
    MulMonotone(r + 1, y, k);
    assert (r + 1) * k == k * r + k;
    QuotientUnique(k * x, k * y, q, k * r);
  }

  /** A number counted in blocks of `n` units of `b` each. */
  lemma BlockUnit(x: nat, b: nat, n: nat, block: nat, unit: nat, off: nat)
    requires off < b && unit < n && x == (block * n + unit) * b + off
    ensures x / b == block * n + unit && x / b % n == unit
  {
    QuotientUnique(x, b, block * n + unit, off);
    QuotientUnique(block * n + unit, n, block, unit);
  }

  lemma RemainderOfDouble(x: nat, p: nat)
    requires p > 0
    ensures x % (2 * p) == x % p + if x / p % 2 == 1 then p else 0
  {
    var q, b, r := x / p / 2, x / p % 2, x % p;
    Division(x, p);
    Division(x / p, 2);
    MulRegroup(q, 2, b, p);
    QuotientUnique(x, 2 * p, q, b * p + r);
  }

  lemma SmallRemainder(x: nat, m: nat)
    requires x < m
    ensures x % m == x
  {
  }
}

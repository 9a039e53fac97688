/** Quotients and remainders. */
module Arithmetic {

  lemma MulMonotone(a: int, b: int, m: nat)
    ensures a <= b ==> a * m <= b * m
  {
    assert a <= b ==> (b - a) * m >= 0;
  }

  lemma Quotient(x: nat, m: nat, q: nat)
    requires 0 < m && q * m <= x < q * m + m
    ensures x / m == q
  {
    var d := x / m;
    MulMonotone(d + 1, q, m);
    MulMonotone(q + 1, d, m);
  }

  lemma QuotientNext(x: nat, m: nat, q: nat)
    requires 0 < m && q * m + m <= x < q * m + 2 * m
    ensures x / m == q + 1
  {
    assert (q + 1) * m == q * m + m;
    Quotient(x, m, q + 1);
  }

  lemma Remainder(q: nat, m: nat, r: nat)
    requires r < m
    ensures (q * m + r) % m == r
  {
    assert q * m >= 0;
    Quotient(q * m + r, m, q);
  }

  lemma AddMultiple(q: nat, m: nat, x: nat)
    requires 0 < m
    ensures q * m >= 0 && (q * m + x) % m == x % m
  {
    var d, r := x / m, x % m;
    assert x == d * m + r;
    assert q * m + d * m == (q + d) * m;
    Remainder(q + d, m, r);
  }

  lemma ModTwice(x: nat, m: nat, k: nat)
    requires 0 < m && 0 < k
    ensures m * k > 0 && (x % (m * k)) % m == x % m
  {
    assert m * k > 0;
    var q, r := x / (m * k), x % (m * k);
    assert x == q * (m * k) + r;
    assert q * (m * k) == (q * k) * m;
    AddMultiple(q * k, m, r);
  }

  lemma Below(z: nat, m: nat)
    requires 0 < m
    ensures z % m == z <==> z < m
  {
  }

  /** `f * p` leaves the remainder by `m` alone if `m` divides `p`. */
  lemma SameRemainder(p: nat, f: nat, k: nat, x: nat, m: nat)
    requires 0 < m && p == k * m
    ensures (f * p + x) % m == x % m
  {
    MulAssoc(f, k, m);
    AddMultiple(f * k, m, x);
  }

  lemma MulAssoc(a: int, b: int, c: int)
    ensures a * (b * c) == (a * b) * c
  {
  }

  lemma Nonzero(p: nat, d: int)
    requires p > 0 && d != 0
    ensures p * d != 0
  {
  }

  lemma NotMultiple(p: nat, f: nat, c: nat, q: nat, m: nat)
    requires 0 < p && f % 16 != 0 && m == p * (16 * c)
    ensures f * p != q * m
  {
    assert q * (p * (16 * c)) == p * (16 * (q * c));
    Nonzero(p, f - 16 * (q * c));
    assert p * (f - 16 * (q * c)) == f * p - p * (16 * (q * c));
  }

  lemma Divided(y: nat, m: nat) returns (q: nat, r: nat)
    requires 0 < m
    ensures y == q * m + r && r == y % m
  {
    q, r := y / m, y % m;
  }

  lemma Differs(y: int, a: int, r: int, b: int, x: int)
    requires y == a + r == b + x && a != b
    ensures r != x
  {
  }

  lemma AtLeast(p: nat, c: nat)
    requires 0 < c
    ensures p <= p * (16 * c)
  {
    MulMonotone(1, 16 * c, p);
  }

  /** Adding `f * p` to a number below `p` changes its remainder, if `m` has one
      more factor 16 than `p` and `f` has none. */
  lemma OtherRemainder(p: nat, f: nat, c: nat, x: nat, y: nat, m: nat)
    requires 0 < c && m == p * (16 * c) && x < p && f % 16 != 0 && y == f * p + x
    ensures x < m && y % m != x
  {
    AtLeast(p, c);
    var q, r := Divided(y, m);
    NotMultiple(p, f, c, q, m);
    Differs(y, q * m, r, f * p, x);
  }
}

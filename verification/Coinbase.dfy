/** How evenly a 32-bit hash picks a position of the validator list. */
module Coinbase {
  import opened Arithmetic

  const TWO_32: int := 0x1_0000_0000

  type uint32 = n: int | 0 <= n < TWO_32

  /** `hash % uint32(n)`: the list length is truncated to 32 bits, and dividing
      by zero panics. */
  function Pick(hash: uint32, n: nat): (k: int)
    requires n % TWO_32 != 0
    ensures 0 <= k < n
  {
    hash % (n % TWO_32)
  }

  /** How many of the first `bound` hashes pick position `k` of `n`. */
  function Hits(n: nat, k: nat, bound: nat): nat
    requires n % TWO_32 != 0 && bound <= TWO_32
  {
    if bound == 0 then 0
    else Hits(n, k, bound - 1) + if Pick(bound - 1, n) == k then 1 else 0
  }

  /** One more hash is one more hit exactly when its remainder is `k`. */
  lemma DivStep(bound: nat, m: nat, k: nat)
    requires k < m
    ensures (bound + m - k) / m == (bound + m - 1 - k) / m + if bound % m == k then 1 else 0
  {
    var q, r := bound / m, bound % m;
    assert bound == q * m + r;
    if r <= k {
      Quotient(bound + m - 1 - k, m, q);
    } else {
      QuotientNext(bound + m - 1 - k, m, q);
    }
    if r < k {
      Quotient(bound + m - k, m, q);
    } else {
      QuotientNext(bound + m - k, m, q);
    }
  }

  lemma {:induction false} HitsClosedForm(n: nat, k: nat, bound: nat)
    requires n % TWO_32 != 0 && k < n % TWO_32 && bound <= TWO_32
    ensures Hits(n, k, bound) == (bound + n % TWO_32 - 1 - k) / (n % TWO_32)
  {
    var m := n % TWO_32;
    if bound == 0 {
      Quotient(m - 1 - k, m, 0);
    } else {
      HitsClosedForm(n, k, bound - 1);
      DivStep(bound - 1, m, k);
    }
  }

  lemma {:induction false} NeverPicked(n: nat, k: nat, bound: nat)
    requires n % TWO_32 != 0 && n % TWO_32 <= k && bound <= TWO_32
    ensures Hits(n, k, bound) == 0
  {
    if bound != 0 {
      NeverPicked(n, k, bound - 1);
    }
  }

  function Floor(n: nat): nat
    requires n != 0
  {
    TWO_32 / n
  }

  /** Among all 2^32 hashes every position of the (truncated) list is picked
      2^32/m times, rounded down or up. */
  lemma EvenlyPicked(n: nat, k: nat)
    requires n % TWO_32 != 0 && k < n % TWO_32
    ensures Floor(n % TWO_32) <= Hits(n, k, TWO_32) <= Floor(n % TWO_32) + (if TWO_32 % (n % TWO_32) == 0 then 0 else 1)
  {
    HitsClosedForm(n, k, TWO_32);
    Rounded(TWO_32, n % TWO_32, k);
  }

  lemma Rounded(bound: nat, m: nat, k: nat)
    requires k < m
    ensures bound / m <= (bound + m - 1 - k) / m <= bound / m + if bound % m == 0 then 0 else 1
  {
    var q, r := bound / m, bound % m;
    assert bound == q * m + r;
    if r > k {
      QuotientNext(bound + m - 1 - k, m, q);
    } else {
      Quotient(bound + m - 1 - k, m, q);
    }
  }

  lemma AtLeastTwo(x: nat, m: nat)
    requires 0 < m && 2 * m <= x
    ensures x / m >= 2
  {
    var d, r := x / m, x % m;
    assert x == d * m + r;
    assert (d - 1) * m > 0;
  }

  /** No position of the list is picked more than once oftener than another. */
  ghost predicate Fair(n: nat)
    requires n % TWO_32 != 0
  {
    forall j: nat, k: nat :: j < n && k < n ==> Hits(n, j, TWO_32) <= Hits(n, k, TWO_32) + 1
  }

  /** The selection is fair for every list the 32-bit length can describe, and
      for no longer one. */
  lemma FairExactlyWhen(n: nat)
    requires n % TWO_32 != 0
    ensures Fair(n) <==> n < TWO_32
  {
    if n < TWO_32 {
      forall j: nat, k: nat | j < n && k < n ensures Hits(n, j, TWO_32) <= Hits(n, k, TWO_32) + 1 {
        EvenlyPicked(n, j);
        EvenlyPicked(n, k);
      }
    } else {
      var m := n % TWO_32;
      HitsClosedForm(n, 0, TWO_32);
      NeverPicked(n, m, TWO_32);
      AtLeastTwo(TWO_32 + m - 1, m);
      assert Hits(n, 0, TWO_32) >= 2;
    }
  }
}

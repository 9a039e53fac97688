/** Go's `*big.Int`: a mutable number, shared through references. */
module BigInts {
  class BigInt {
    var v: int

    constructor (v: int)
      ensures this.v == v
    {
      this.v := v;
    }

    /** Each operation stores its result in the receiver, which may be one of
        the operands. */
    method Add(x: BigInt, y: BigInt)
      modifies this
      ensures v == old(x.v) + old(y.v)
    {
      v := x.v + y.v;
    }

    method Sub(x: BigInt, y: BigInt)
      modifies this
      ensures v == old(x.v) - old(y.v)
    {
      v := x.v - y.v;
    }

    method Mul(x: BigInt, y: BigInt)
      modifies this
      ensures v == old(x.v) * old(y.v)
    {
      v := x.v * y.v;
    }
  }

  /** What the amounts of generated transactions are worth. */
  type Worths = map<BigInt, int>

  ghost predicate Worth(worths: Worths)
    reads worths.Keys
  {
    forall b :: b in worths ==> b.v == worths[b]
  }

  /** `units` times 10^16, the way both generators scale an amount. */
  method Scaled(units: nat) returns (amt: BigInt)
    ensures fresh(amt) && amt.v == units * 10_000_000_000_000_000
  {
    amt := new BigInt(units);
    var e8 := new BigInt(100_000_000);
    amt.Mul(amt, e8);
    amt.Mul(amt, e8);
  }
}

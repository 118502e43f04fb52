/** Integer facts the layout and index arithmetic need. */
module Arith {

  /** Multiplying by a non-negative factor keeps the order. */
  lemma MulMonotone(a: nat, b: nat, c: nat)
    requires b <= c
    ensures a * b <= a * c
  {
    assert a * c == a * b + a * (c - b);
  }
}

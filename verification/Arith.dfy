/**
  Quotient and remainder of natural numbers by a variable divisor.
 */
module Arith {

  lemma ProductAtLeast(b: nat, k: int)
    requires k > 0
    ensures b * k >= b
  {
  }

  lemma QuotientIs(x: nat, b: nat, q: nat)
    requires b > 0 && b * q <= x < b * q + b
    ensures x / b == q
  {
    var d, rem := x / b, x % b;
    assert x == b * d + rem && 0 <= rem < b;
    var diff := b * d - b * q;
    assert diff == b * (d - q) && b * (q - d) == -diff;
    assert diff < b && diff + b > 0;
    if d < q {
      ProductAtLeast(b, q - d);
      assert false;
    } else if d > q {
      ProductAtLeast(b, d - q);
      assert false;
    }
  }

  lemma RemainderIs(x: nat, b: nat, q: nat, r: nat)
    requires r < b && x == b * q + r
    ensures x % b == r
  {
    QuotientIs(x, b, q);
    assert x == b * (x / b) + x % b;
  }

  /** Counting modulo b. */
  lemma NextRemainder(x: nat, b: nat)
    requires b > 0
    ensures (x + 1) % b == if x % b + 1 == b then 0 else x % b + 1
  {
    var q, r := x / b, x % b;
    assert x == b * q + r;
    if r + 1 == b {
      assert b * (q + 1) == b * q + b;
      RemainderIs(x + 1, b, q + 1, 0);
    } else {
      RemainderIs(x + 1, b, q, r + 1);
    }
  }

  lemma SmallRemainder(x: nat, b: nat)
    requires x < b
    ensures x % b == x
  {
    RemainderIs(x, b, 0, x);
  }
}

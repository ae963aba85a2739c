/** Facts about whole-number multiplication, division and remainder used by
    the group count and the slot index. */
module Arith {

  lemma MulSucc(x: int, k: int)
    ensures (x + 1) * k == x * k + k
  {
  }

  lemma MulMono(a: int, b: int, k: nat)
    requires a <= b
    ensures a * k <= b * k
  {
  }

  lemma MulCancelLess(a: int, b: int, k: nat)
    requires k >= 1 && a * k < b * k
    ensures a < b
  {
    if b <= a {
      MulMono(b, a, k);
    }
  }

  /** Division determined by bounds. */
  lemma DivInRange(a: nat, k: nat, q: nat)
    requires k >= 1
    requires q * k <= a < (q + 1) * k
    ensures a / k == q
  {
    var d := a / k;
    assert d * k <= a < (d + 1) * k by {
      assert a == d * k + a % k;
      MulSucc(d, k);
    }
    MulCancelLess(d, q + 1, k);
    MulCancelLess(q, d + 1, k);
  }

  /** Quotient and remainder are the unique pair with `x == q * k + r` and
      `0 <= r < k`. */
  lemma DivModUnique(x: nat, k: nat, q: nat, r: nat)
    requires k >= 1 && r < k && x == q * k + r
    ensures x / k == q && x % k == r
  {
    MulSucc(q, k);
    DivInRange(x, k, q);
    assert x == (x / k) * k + x % k;
  }

  lemma MulAddDistrib(p: int, q: int, k: int)
    ensures (p + q) * k == p * k + q * k
  {
  }

  /** The remainder of a sum is the remainder of the sum of remainders. */
  lemma ModOfSum(a: nat, b: nat, k: nat)
    requires k >= 1
    ensures (a + b) % k == (a % k + b % k) % k
  {
    Decompose(a, k);
    Decompose(b, k);
    Decompose(a % k + b % k, k);
    ModOfDecomposedSum(a, b, k, a / k, b / k, (a % k + b % k) / k, a % k, b % k, (a % k + b % k) % k);
  }

  lemma Decompose(x: nat, k: nat)
    requires k >= 1
    ensures x == (x / k) * k + x % k && x % k < k
  {
  }

  lemma ModOfDecomposedSum(a: nat, b: nat, k: nat, qa: nat, qb: nat, c: nat, ra: nat, rb: nat, r: nat)
    requires k >= 1 && r < k
    requires a == qa * k + ra && b == qb * k + rb && ra + rb == c * k + r
    ensures (a + b) % k == r
  {
    MulAddDistrib(qa, qb, k);
    MulAddDistrib(qa + qb, c, k);
    DivModUnique(a + b, k, qa + qb + c, r);
  }
}

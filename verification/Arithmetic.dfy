/** Facts about quotients that several modules need. */
module Arithmetic {
  lemma SmallMultiple(k: nat, d: int)
    requires k > 0 && 0 - k < k * d < k
    ensures d == 0
  {
  }

  /** Quotient and remainder are the only numbers that divide as they do. */
  lemma QuotientRemainder(x: nat, k: nat, q: nat, r: nat)
    requires k > 0 && r < k && x == q * k + r
    ensures x / k == q && x % k == r
  {
    assert k * (q - x / k) == k * q - k * (x / k) == x % k - r;
    SmallMultiple(k, q - x / k);
  }
}

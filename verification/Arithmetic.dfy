/**
 * Facts about products and remainders that the solver does not find by itself.
 */
module Arithmetic {

  lemma MultipleIsLarge(x: int, n: nat)
    ensures x >= 1 ==> x * n >= n
    ensures x <= -1 ==> x * n + n <= 0
  {
    if x >= 1 {
      assert x * n == (x - 1) * n + n;
    } else if x <= -1 {
      assert x * n == (x + 1) * n - n;
    }
  }

  lemma DivMod(k: nat, n: nat)
    requires n > 0
    ensures k == (k / n) * n + k % n && 0 <= k % n < n && (k / n) * n >= 0
  {
  }

  /** A remainder is known by the quotient beside it. */
  lemma ModIs(k: nat, n: nat, q: int, r: nat)
    requires n > 0 && k == q * n + r && r < n
    ensures k % n == r
  {
    DivMod(k, n);
    assert (k / n - q) * n == (k / n) * n - q * n;
    MultipleIsLarge(k / n - q, n);
  }

  lemma SmallMod(k: nat, n: nat)
    requires k < n
    ensures k % n == k
  {
  }

  lemma AddMod(k: nat, d: nat, n: nat)
    requires n > 0
    ensures (k % n + d) % n == (k + d) % n
  {
    DivMod(k, n);
    DivMod(k % n + d, n);
    assert (k / n + (k % n + d) / n) * n == (k / n) * n + ((k % n + d) / n) * n;
    ModIs(k + d, n, k / n + (k % n + d) / n, (k % n + d) % n);
  }
}

/** Facts about integer multiplication, division and remainder that the
    solver does not find on its own. Dafny's `/` and `%` are Euclidean; every
    use in this model has a positive divisor and a non-negative dividend,
    where they agree with the C++ operators. */
module Arith {

  /** Multiplying by a non-negative factor keeps the order. */
  lemma {:induction false} MulMonotone(a: int, b: int, w: nat)
    requires a <= b
    ensures a * w <= b * w
    decreases w
  {
    if w > 0 {
      MulMonotone(a, b, w - 1);
      assert a * w == a * (w - 1) + a;
      assert b * w == b * (w - 1) + b;
    }
  }

  /** A multiple of w strictly between -w and w is zero. */
  lemma MulBoundedIsZero(k: int, w: int)
    requires w > 0 && -w < k * w < w
    ensures k == 0
  {
    if k >= 1 {
      MulMonotone(1, k, w);
      assert false;
    } else if k <= -1 {
      MulMonotone(k, -1, w);
      assert false;
    }
  }

  /** Quotient and remainder are the unique q, r with a == q*m + r and 0 <= r < m. */
  lemma DivModUnique(a: int, m: int, q: int, r: int)
    requires m > 0 && a == q * m + r && 0 <= r < m
    ensures a / m == q && a % m == r
  {
    var q', r' := a / m, a % m;
    assert a == q' * m + r';
    assert (q' - q) * m == r - r';
    MulBoundedIsZero(q' - q, m);
  }

  /** Advancing a counter modulo m commutes with reducing it. */
  lemma ModSucc(n: nat, m: nat)
    requires m > 0
    ensures (n % m + 1) % m == (n + 1) % m
  {
    var q, r := n / m, n % m;
    assert n == q * m + r;
    if r + 1 < m {
      DivModUnique(n + 1, m, q, r + 1);
      DivModUnique(r + 1, m, 0, r + 1);
    } else {
      assert n + 1 == (q + 1) * m + 0;
      DivModUnique(n + 1, m, q + 1, 0);
      DivModUnique(r + 1, m, 1, 0);
    }
  }

  /** Numbers below the modulus are their own remainder. */
  lemma ModSmall(k: nat, m: nat)
    requires k < m
    ensures k % m == k
  {
    DivModUnique(k, m, 0, k);
  }
}

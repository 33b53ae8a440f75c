/** The bitwise operators of C on non-negative values. */
module Bits {
  import opened Arithmetic

  /** a | b, from the lowest bit up. */
  function BitOr(a: nat, b: nat): nat {
    if a == 0 && b == 0 then 0
    else 2 * BitOr(a / 2, b / 2) + if a % 2 == 1 || b % 2 == 1 then 1 else 0
  }

  /** a & b, from the lowest bit up. */
  function BitAnd(a: nat, b: nat): nat {
    if a == 0 || b == 0 then 0
    else 2 * BitAnd(a / 2, b / 2) + if a % 2 == 1 && b % 2 == 1 then 1 else 0
  }

  lemma {:induction false} OrZero(a: nat)
    ensures BitOr(a, 0) == a && BitOr(0, a) == a
  {
    if a > 0 {
      OrZero(a / 2);
    }
  }

  /** Values that share no bits add up: h shifted by k, and a value of k bits. */
  lemma {:induction false} OrAdds(h: nat, k: nat, x: nat)
    requires x < Pow2(k)
    ensures BitOr(h * Pow2(k), x) == h * Pow2(k) + x == BitOr(x, h * Pow2(k))
  {
    if k == 0 {
      OrZero(h);
    } else {
      var m := h * Pow2(k - 1);
      assert h * Pow2(k) == 2 * m;
      OrAdds(h, k - 1, x / 2);
      OrStep(m, x);
    }
  }

  lemma OrStep(m: nat, x: nat)
    ensures BitOr(2 * m, x) == 2 * BitOr(m, x / 2) + x % 2
    ensures BitOr(x, 2 * m) == 2 * BitOr(x / 2, m) + x % 2
  {
    assert 2 * m / 2 == m && 2 * m % 2 == 0;
    if m == 0 && x == 0 {
      assert BitOr(0, 0) == 0;
    }
  }

  lemma AndStep(a: nat, m: nat)
    ensures BitAnd(a, 2 * m + 1) == 2 * BitAnd(a / 2, m) + a % 2
  {
    assert (2 * m + 1) / 2 == m && (2 * m + 1) % 2 == 1;
  }

  lemma RemainderStep(a: nat, p: nat)
    requires p > 0
    ensures a % (2 * p) == 2 * (a / 2 % p) + a % 2
  {
    var q, r := a / 2 / p, a / 2 % p;
    assert a / 2 == q * p + r;
    assert q * (2 * p) == 2 * (q * p);
    ModUnique(a, 2 * p, q, 2 * r + a % 2);
  }

  /** A mask of k ones keeps the k lowest bits. */
  lemma {:induction false} AndMask(a: nat, k: nat)
    ensures BitAnd(a, Pow2(k) - 1) == a % Pow2(k)
  {
    if k > 0 {
      var p := Pow2(k - 1);
      AndMask(a / 2, k - 1);
      AndStep(a, p - 1);
      RemainderStep(a, p);
    }
  }

  lemma {:induction false} Pow2Sum(a: nat, b: nat)
    ensures Pow2(a + b) == Pow2(a) * Pow2(b)
  {
    if a > 0 {
      Pow2Sum(a - 1, b);
      assert Pow2(a) * Pow2(b) == 2 * (Pow2(a - 1) * Pow2(b));
    }
  }
}

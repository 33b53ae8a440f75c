/** Facts about integers and sequences shared by the models. */
module Arithmetic {

  function Pow2(k: nat): (p: nat)
    ensures p > 0
  {
    if k == 0 then 1 else 2 * Pow2(k - 1)
  }

  function Power(b: nat, k: nat): nat {
    if k == 0 then 1 else b * Power(b, k - 1)
  }

  lemma Distribute(c: int, x: int, y: int)
    ensures c * (x + y) == c * x + c * y && (x + y) * c == x * c + y * c
  {
  }

  lemma HalfMod(a: int, p: nat)
    requires p > 0
    ensures (2 * a) % (2 * p) == 2 * (a % p)
  {
    var q, r := a / p, a % p;
    assert 2 * a == q * (2 * p) + 2 * r by {
      assert a == q * p + r;
      assert q * (2 * p) == 2 * (q * p);
    }
    ModUnique(2 * a, 2 * p, q, 2 * r);
  }

  lemma ModUnique(a: int, p: nat, q: int, r: int)
    requires p > 0 && a == q * p + r && 0 <= r < p
    ensures a % p == r && a / p == q
  {
    var q', r' := a / p, a % p;
    assert a == p * q' + r';
    assert (q - q') * p == r' - r by {
      assert (q - q') * p == q * p - q' * p;
    }
    assert (q' - q) * p == -((q - q') * p);
    if q > q' {
      TimesAtLeast(q - q', p);
    } else if q < q' {
      TimesAtLeast(q' - q, p);
    }
  }

  lemma TimesAtLeast(d: nat, p: nat)
    requires d >= 1
    ensures d * p >= p
  {
    assert d * p == (d - 1) * p + p;
  }

  predicate NoRepeats(a: seq<nat>) {
    forall i, j :: 0 <= i < j < |a| ==> a[i] != a[j]
  }

  function UpTo(n: nat): (r: set<nat>)
    ensures forall k: nat :: k in r <==> k < n
    ensures |r| == n
  {
    if n == 0 then {}
    else
      var r := UpTo(n - 1);
      assert n - 1 !in r;
      r + {n - 1}
  }

  function Elements(a: seq<nat>, n: nat): (r: set<nat>)
    requires n <= |a|
    ensures forall y :: y in r <==> y in a[..n]
  {
    if n == 0 then {}
    else
      assert a[..n] == a[..n - 1] + [a[n - 1]];
      Elements(a, n - 1) + {a[n - 1]}
  }

  lemma {:induction false} ElementCount(a: seq<nat>, n: nat)
    requires n <= |a| && NoRepeats(a)
    ensures |Elements(a, n)| == n
  {
    if n > 0 {
      ElementCount(a, n - 1);
      assert a[n - 1] !in a[..n - 1];
    }
  }

  lemma SubsetOfSameSize(a: set<nat>, b: set<nat>)
    requires a <= b && |a| == |b|
    ensures a == b
  {
    assert |b - a| == |b| - |a|;
  }

  /** n different numbers below n are all the numbers below n. */
  lemma Pigeonhole(a: seq<nat>, y: nat)
    requires NoRepeats(a) && y < |a| && forall i :: 0 <= i < |a| ==> a[i] < |a|
    ensures y in a
  {
    ElementCount(a, |a|);
    assert a[..|a|] == a;
    SubsetOfSameSize(Elements(a, |a|), UpTo(|a|));
  }
}

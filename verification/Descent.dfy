/** The biased choice of a file to access, and the reduction of its ratios. */
module Descent {
  import opened Arithmetic
  import opened Random

  // ---------------------------------------------------------------- the descent

  /** Number of draws for n files. */
  function Depth(n: nat): nat {
    if n <= 1 then 0 else 1 + Depth(n - n / 2)
  }

  /** The number of draws is the binary logarithm of n, rounded up. */
  lemma {:induction false} DepthIsLog(n: nat)
    requires n >= 1
    ensures n <= Pow2(Depth(n)) && (n > 1 ==> Pow2(Depth(n) - 1) < n)
  {
    if n > 1 {
      var m := n - n / 2;
      DepthIsLog(m);
      assert Pow2(Depth(n)) == 2 * Pow2(Depth(m));
      if m > 1 {
        assert Pow2(Depth(n) - 1) == 2 * Pow2(Depth(m) - 1);
      }
    }
  }

  /** The index the descent over n files ends at for given draws: a draw below the right
      ratio goes right. */
  function Landed(n: nat, right: nat, draws: seq<nat>): (i: nat)
    requires |draws| == Depth(n)
    ensures n > 0 ==> i < n
  {
    if n <= 1 then 0
    else (if draws[0] < right then n / 2 else 0) + Landed(n - n / 2, right, draws[1..])
  }

  /** The first k results of workload_rand, each reduced below the sum of the ratios. */
  function Reduced(results: seq<nat>, k: nat, sum: nat): (d: seq<nat>)
    requires sum > 0 && k <= |results|
    ensures |d| == k && forall i :: 0 <= i < k ==> d[i] == results[i] % sum < sum
  {
    seq(k, i requires 0 <= i < k => results[i] % sum)
  }

  predicate Descending(n: nat, right: nat, draws: seq<nat>, goal: nat) {
    |draws| == Depth(n) && Landed(n, right, draws) == goal
  }

  lemma StepDown(n: nat, m: nat, right: nat, draws: seq<nat>, goal: nat) returns (next: nat)
    requires Descending(n, right, draws, goal) && n > 1 && m == n - n / 2
    ensures draws != [] && Descending(m, right, draws[1..], next)
    ensures goal == next + if draws[0] < right then n / 2 else 0
  {
    next := Landed(m, right, draws[1..]);
  }

  /** __workload_access_random_index on the results that workload_rand returns to it, whatever
      other threads draw in between; `used` counts its calls. The ratios are those of the
      configuration; their sum is taken in 32 bits and must not be zero. */
  method AccessRandomIndex(results: seq<nat>, n: nat, left: nat, right: nat) returns (entry: nat, used: nat)
    requires (left + right) % WORD > 0 && |results| >= Depth(n)
    ensures used == Depth(n) && entry == Landed(n, right, Reduced(results, Depth(n), (left + right) % WORD))
    ensures n > 0 ==> entry < n
  {
    var sum := (left + right) % WORD;
    ghost var draws := Reduced(results, Depth(n), sum);
    ghost var rest, togo := draws, Landed(n, right, draws);
    var count := n;
    entry, used := 0, 0;
    while count > 1
      invariant used + |rest| == |draws| && rest == draws[used..]
      invariant entry + togo == Landed(n, right, draws) && Descending(count, right, rest, togo)
    {
      var half := count / 2;
      var larger := count - half;
      togo := StepDown(count, larger, right, rest, togo);
      var value := results[used] % sum;
      assert value == rest[0];
      if value < right {
        entry := entry + half;
      }
      count := larger;
      used, rest := used + 1, rest[1..];
    }
  }

  // ---------------------------------------------------------------- how often each index comes up

  predicate IsVector(d: seq<nat>, k: nat, sum: nat) {
    |d| == k && forall i :: 0 <= i < k ==> d[i] < sum
  }

  function Prepended(v: nat, s: set<seq<nat>>): (r: set<seq<nat>>)
    ensures forall d :: d in r <==> d != [] && d[0] == v && d[1..] in s
  {
    var r := set d | d in s :: [v] + d;
    assert forall d :: d in s ==> ([v] + d)[1..] == d;
    assert forall d: seq<nat> :: d != [] && d[0] == v && d[1..] in s ==> d == [v] + d[1..];
    r
  }

  lemma {:induction false} PrependedSize(v: nat, s: set<seq<nat>>)
    ensures |Prepended(v, s)| == |s|
    decreases |s|
  {
    if s == {} {
      assert Prepended(v, s) == {};
    } else {
      var d :| d in s;
      PrependedSize(v, s - {d});
      var r := Prepended(v, s - {d});
      assert [v] + d !in r by {
        assert ([v] + d)[1..] == d;
      }
      assert Prepended(v, s) == r + {[v] + d} by {
        assert ([v] + d)[1..] == d;
        forall e
          ensures e in Prepended(v, s) <==> e in r + {[v] + d}
        {
          assert e != [] && e[0] == v && e[1..] == d ==> e == [v] + d;
        }
      }
    }
  }

  /** The draws lead to index i. */
  predicate Leads(n: nat, left: nat, right: nat, i: int, draws: seq<nat>) {
    IsVector(draws, Depth(n), left + right) && Landed(n, right, draws) == i
  }

  /** How many draw vectors lead to index i. */
  function Ways(n: nat, left: nat, right: nat, i: int): (w: nat)
    requires n >= 1
  {
    if n == 1 then if i == 0 then 1 else 0
    else left * Ways(n - n / 2, left, right, i) + right * Ways(n - n / 2, left, right, i - n / 2)
  }

  /** `a` for each number below `right`, `b` for each further one below v. */
  function Weighed(v: nat, right: nat, a: nat, b: nat): nat {
    if v == 0 then 0 else Weighed(v - 1, right, a, b) + if v - 1 < right then a else b
  }

  lemma {:induction false} WeighedTotal(v: nat, right: nat, a: nat, b: nat)
    ensures Weighed(v, right, a, b) == if v <= right then v * a else right * a + (v - right) * b
  {
    if v > 0 {
      WeighedTotal(v - 1, right, a, b);
      assert v * a == (v - 1) * a + a;
      assert (v - right) * b == (v - 1 - right) * b + b;
    }
  }

  lemma DisjointSize(a: set<seq<nat>>, b: set<seq<nat>>)
    requires a !! b
    ensures |a + b| == |a| + |b|
  {
  }

  /** With the first draw taken off, a vector leads on from the smaller range. */
  lemma LeadsOn(n: nat, m: nat, left: nat, right: nat, i: int, v: nat, d: seq<nat>)
    requires n > 1 && m == n - n / 2 && v < left + right
    ensures Leads(n, left, right, i, [v] + d) <==> Leads(m, left, right, if v < right then i - n / 2 else i, d)
  {
    var e := [v] + d;
    assert e[1..] == d;
    assert forall k :: 0 <= k < |d| ==> e[k + 1] == d[k];
  }

  lemma Tails(n: nat, m: nat, left: nat, right: nat, i: int, v: nat, s: set<seq<nat>>) returns (tails: set<seq<nat>>)
    requires n > 1 && m == n - n / 2 && v < left + right
    requires forall d :: d in s <==> d != [] && d[0] == v && Leads(n, left, right, i, d)
    ensures |s| == |tails| && forall d :: d in tails <==> Leads(m, left, right, if v < right then i - n / 2 else i, d)
  {
    tails := set d | d in s :: d[1..];
    forall d
      ensures d in tails <==> Leads(m, left, right, if v < right then i - n / 2 else i, d)
      ensures d in tails <==> [v] + d in s
    {
      LeadsOn(n, m, left, right, i, v, d);
      assert ([v] + d)[1..] == d;
      if d in tails {
        var e :| e in s && e[1..] == d;
        assert e == [v] + d;
      }
    }
    PrependedSize(v, tails);
    assert s == Prepended(v, tails) by {
      forall d
        ensures d in s <==> d in Prepended(v, tails)
      {
        assert d != [] && d[0] == v ==> d == [v] + d[1..];
      }
    }
  }

  /** The vectors with a first draw below v. */
  lemma {:induction false} CountBelow(n: nat, m: nat, left: nat, right: nat, i: int, v: nat, s: set<seq<nat>>)
    requires n > 1 && m == n - n / 2 && v <= left + right
    requires forall d :: d in s <==> d != [] && d[0] < v && Leads(n, left, right, i, d)
    ensures |s| == Weighed(v, right, Ways(m, left, right, i - n / 2), Ways(m, left, right, i))
    decreases n, v
  {
    hide Leads, Ways;
    if v == 0 {
      assert s == {};
    } else {
      var first := set d | d in s && d[0] == v - 1;
      CountBelow(n, m, left, right, i, v - 1, s - first);
      var tails := Tails(n, m, left, right, i, v - 1, first);
      CountVectors(m, left, right, if v - 1 < right then i - n / 2 else i, tails);
      DisjointSize(s - first, first);
      assert s == (s - first) + first;
    }
  }

  /** Ways counts exactly the draw vectors that lead to i. */
  lemma {:induction false} CountVectors(n: nat, left: nat, right: nat, i: int, s: set<seq<nat>>)
    requires n >= 1 && forall d :: d in s <==> Leads(n, left, right, i, d)
    ensures |s| == Ways(n, left, right, i)
    decreases n, left + right + 1
  {
    if n > 1 {
      CountBelow(n, n - n / 2, left, right, i, left + right, s);
      WeighedTotal(left + right, right, Ways(n - n / 2, left, right, i - n / 2), Ways(n - n / 2, left, right, i));
    } else if i == 0 {
      assert s == {[]};
    } else {
      assert s == {};
    }
  }

  /** All vectors of k draws. */
  function Vectors(k: nat, sum: nat): (s: set<seq<nat>>)
    ensures forall d :: d in s <==> IsVector(d, k, sum)
  {
    if k == 0 then
      assert forall d: seq<nat> :: |d| == 0 ==> d == [];
      {[]}
    else
      var s := set v: nat, d | v < sum && d in Vectors(k - 1, sum) :: [v] + d;
      assert forall d: seq<nat> :: IsVector(d, k, sum) ==> d == [d[0]] + d[1..] && IsVector(d[1..], k - 1, sum);
      s
  }

  /** The draw vectors that lead to index i. */
  function LeadingTo(n: nat, left: nat, right: nat, i: int): (s: set<seq<nat>>)
    requires n >= 1
    ensures forall d :: d in s <==> Leads(n, left, right, i, d)
  {
    set d | d in Vectors(Depth(n), left + right) && Landed(n, right, d) == i
  }

  /** Of all draw vectors, Ways of them lead to index i. */
  lemma IndexFrequency(n: nat, left: nat, right: nat, i: int)
    requires n >= 1
    ensures |LeadingTo(n, left, right, i)| == Ways(n, left, right, i)
  {
    CountVectors(n, left, right, i, LeadingTo(n, left, right, i));
  }

  /** No index comes up from outside the range. */
  lemma {:induction false} WaysInside(n: nat, left: nat, right: nat, i: int)
    requires n >= 1 && left > 0 && right > 0
    ensures Ways(n, left, right, i) > 0 <==> 0 <= i < n
  {
    if n > 1 {
      var h := n / 2;
      WaysInside(n - h, left, right, i);
      WaysInside(n - h, left, right, i - h);
      var a, b := Ways(n - h, left, right, i), Ways(n - h, left, right, i - h);
      Positive(left, a);
      Positive(right, b);
    }
  }

  lemma Positive(c: nat, w: nat)
    requires c > 0
    ensures c * w > 0 <==> w > 0
  {
  }

  lemma {:induction false} WaysOutside(n: nat, left: nat, right: nat, i: int)
    requires n >= 1 && (i < 0 || n <= i)
    ensures Ways(n, left, right, i) == 0
  {
    if n > 1 {
      WaysOutside(n - n / 2, left, right, i);
      WaysOutside(n - n / 2, left, right, i - n / 2);
    }
  }

  /** The ways to the indices from i up to j. */
  function WaysBetween(n: nat, left: nat, right: nat, i: int, j: int): nat
    requires n >= 1
    decreases j - i
  {
    if i >= j then 0 else WaysBetween(n, left, right, i, j - 1) + Ways(n, left, right, j - 1)
  }

  lemma {:induction false} BetweenSplits(n: nat, left: nat, right: nat, i: int, j: int)
    requires n > 1
    ensures WaysBetween(n, left, right, i, j) ==
      left * WaysBetween(n - n / 2, left, right, i, j) + right * WaysBetween(n - n / 2, left, right, i - n / 2, j - n / 2)
    decreases j - i
  {
    var m, h := n - n / 2, n / 2;
    if i < j {
      BetweenSplits(n, left, right, i, j - 1);
      var a, b := WaysBetween(m, left, right, i, j - 1), WaysBetween(m, left, right, i - h, j - 1 - h);
      var c, d := Ways(m, left, right, j - 1), Ways(m, left, right, j - 1 - h);
      Distribute(left, a, c);
      Distribute(right, b, d);
    }
  }

  /** Widening the range past the indices adds nothing. */
  lemma {:induction false} BetweenWidens(n: nat, left: nat, right: nat, i: int, j: int)
    requires n >= 1 && i <= 0 && n <= j
    ensures WaysBetween(n, left, right, i, j) == WaysBetween(n, left, right, 0, n)
    decreases j - i
  {
    if j > n {
      BetweenWidens(n, left, right, i, j - 1);
      WaysOutside(n, left, right, j - 1);
    } else if i < 0 {
      BetweenWidens(n, left, right, i + 1, j);
      BetweenFromBelow(n, left, right, i, j);
      WaysOutside(n, left, right, i);
    }
  }

  lemma {:induction false} BetweenFromBelow(n: nat, left: nat, right: nat, i: int, j: int)
    requires n >= 1 && i < j
    ensures WaysBetween(n, left, right, i, j) == Ways(n, left, right, i) + WaysBetween(n, left, right, i + 1, j)
    decreases j - i
  {
    if i + 1 < j {
      BetweenFromBelow(n, left, right, i, j - 1);
    }
  }

  lemma SumStep(l: int, r: int, p: int)
    ensures l * p + r * p == (l + r) * p
  {
  }

  /** All draw vectors are accounted for. */
  lemma {:induction false} WaysSum(n: nat, left: nat, right: nat)
    requires n >= 1
    ensures WaysBetween(n, left, right, 0, n) == Power(left + right, Depth(n))
  {
    if n > 1 {
      var m, h := n - n / 2, n / 2;
      WaysSum(m, left, right);
      BetweenSplits(n, left, right, 0, n);
      BetweenWidens(m, left, right, 0, n);
      BetweenWidens(m, left, right, -h, n - h);
      SumStep(left, right, Power(left + right, Depth(m)));
    } else {
      assert WaysBetween(1, left, right, 0, 0) == 0;
    }
  }

  /** Swapping the ratios mirrors the distribution. */
  lemma {:induction false} WaysMirrored(n: nat, left: nat, right: nat, i: int)
    requires n >= 1
    ensures Ways(n, left, right, i) == Ways(n, right, left, n - 1 - i)
  {
    if n > 1 {
      var m, h := n - n / 2, n / 2;
      WaysMirrored(m, left, right, i);
      WaysMirrored(m, left, right, i - h);
    }
  }

  /** A common factor of the ratios only scales the distribution. */
  lemma {:induction false} WaysScaled(n: nat, left: nat, right: nat, c: nat, i: int)
    requires n >= 1
    ensures Ways(n, c * left, c * right, i) == Power(c, Depth(n)) * Ways(n, left, right, i)
  {
    if n > 1 {
      var m, h := n - n / 2, n / 2;
      WaysScaled(m, left, right, c, i);
      WaysScaled(m, left, right, c, i - h);
      ScaleStep(left, right, c, Power(c, Depth(m)), Ways(m, left, right, i), Ways(m, left, right, i - h));
    }
  }

  lemma ScaleStep(left: int, right: int, c: int, p: int, a: int, b: int)
    ensures c * left * (p * a) + c * right * (p * b) == c * p * (left * a + right * b)
  {
    ScaleTerm(left, c, p, a);
    ScaleTerm(right, c, p, b);
    assert c * p * (left * a + right * b) == c * p * (left * a) + c * p * (right * b);
  }

  lemma ScaleTerm(l: int, c: int, p: int, a: int)
    ensures c * l * (p * a) == c * p * (l * a)
  {
    assert c * l * (p * a) == c * (l * (p * a));
    assert l * (p * a) == p * (l * a);
    assert c * p * (l * a) == c * (p * (l * a));
  }

  // ---------------------------------------------------------------- the ratios

  predicate Divisor(d: nat, a: nat) {
    d > 0 && a % d == 0
  }

  lemma MultipleDivides(d: nat, a: nat, k: int)
    requires d > 0 && a == k * d
    ensures Divisor(d, a)
  {
    ModUnique(a, d, k, 0);
  }

  lemma QuotientOf(d: nat, a: nat) returns (k: nat)
    requires Divisor(d, a)
    ensures a == k * d
  {
    k := a / d;
  }

  lemma SumOfMultiples(q: int, k: int, j: int, d: int)
    ensures q * (k * d) + j * d == (q * k + j) * d && j * d - q * (k * d) == (j - q * k) * d
  {
    assert q * (k * d) == (q * k) * d;
  }

  /** The remainder has the same common divisors. */
  lemma SameDivisors(d: nat, a: nat, b: nat)
    requires b > 0
    ensures Divisor(d, a) && Divisor(d, b) <==> Divisor(d, b) && Divisor(d, a % b)
  {
    if Divisor(d, b) {
      var q, r := a / b, a % b;
      var k := QuotientOf(d, b);
      assert a == q * b + r;
      if Divisor(d, r) {
        var j := QuotientOf(d, r);
        SumOfMultiples(q, k, j, d);
        MultipleDivides(d, a, q * k + j);
      }
      if Divisor(d, a) {
        var j := QuotientOf(d, a);
        SumOfMultiples(q, k, j, d);
        MultipleDivides(d, r, j - q * k);
      }
    }
  }

  ghost predicate SameCommonDivisors(a: nat, b: nat, c: nat, d: nat) {
    forall k :: Divisor(k, a) && Divisor(k, b) <==> Divisor(k, c) && Divisor(k, d)
  }

  /** workload_gcm_uint */
  method Gcm(value1: nat, value2: nat) returns (g: nat)
    ensures value1 == 0 || value2 == 0 ==> g == 0
    ensures value1 > 0 && value2 > 0 ==> g > 0 && forall k :: Divisor(k, value1) && Divisor(k, value2) <==> Divisor(k, g)
  {
    var a, b := value1, value2;
    if a < b {
      a, b := b, a;
    }
    if b == 0 {
      return 0;
    }
    while true
      invariant b > 0 && SameCommonDivisors(value1, value2, a, b)
      decreases b
    {
      var r := a % b;
      forall k
        ensures Divisor(k, a) && Divisor(k, b) <==> Divisor(k, b) && Divisor(k, r)
      {
        SameDivisors(k, a, b);
      }
      if r == 0 {
        break;
      }
      a, b := b, r;
    }
    return b;
  }

  /** workload_aspect_ratio_uint: the ratio in lowest terms. */
  method AspectRatio(value1: nat, value2: nat) returns (g: nat, ratio1: nat, ratio2: nat)
    ensures value1 == 0 || value2 == 0 ==> g == 0 && ratio1 == ratio2 == 1
    ensures value1 > 0 && value2 > 0 ==> value1 == g * ratio1 && value2 == g * ratio2 && ratio1 > 0 && ratio2 > 0
    ensures value1 > 0 && value2 > 0 ==> forall k :: Divisor(k, ratio1) && Divisor(k, ratio2) ==> k == 1
  {
    if value1 == 0 || value2 == 0 {
      return 0, 1, 1;
    }
    g := Gcm(value1, value2);
    assert Divisor(g, g);
    ratio1, ratio2 := value1 / g, value2 / g;
    assert value1 == g * ratio1 && value2 == g * ratio2;
    forall k | Divisor(k, ratio1) && Divisor(k, ratio2)
      ensures k == 1
    {
      LowestTerms(value1, value2, g, ratio1, ratio2, k);
    }
  }

  lemma LowestTerms(a: nat, b: nat, g: nat, r1: nat, r2: nat, k: nat)
    requires g > 0 && a == g * r1 && b == g * r2 && Divisor(k, r1) && Divisor(k, r2)
    requires forall d :: Divisor(d, a) && Divisor(d, b) <==> Divisor(d, g)
    ensures k == 1
  {
    FactorDivides(g, r1, k);
    FactorDivides(g, r2, k);
    assert Divisor(g * k, g);
    var q := g / (g * k);
    assert g == (g * k) * q;
    if q == 0 {
      assert false;
    }
    TimesAtLeast(q, g * k);
    assert g * k == g + g * (k - 1);
    if k >= 2 {
      TimesAtLeast(k - 1, g);
    }
  }

  lemma FactorDivides(g: nat, r: nat, k: nat)
    requires g > 0 && Divisor(k, r)
    ensures Divisor(g * k, g * r)
  {
    assert g * k > 0;
    assert g * r == (r / k) * (g * k) + 0 by {
      assert r == k * (r / k);
      assert g * (k * (r / k)) == (r / k) * (g * k);
    }
    ModUnique(g * r, g * k, r / k, 0);
  }
}

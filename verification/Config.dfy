/** How the configuration spreads the files over the disks before the workload starts. */
module Config {
  import opened Arithmetic
  import opened Random
  import opened Tiering
  import opened TierEngine

  /** m_files_assign_method: 1, 2 and everything else. */
  datatype AssignMethod = InOrder | Evenly | Randomly

  // ---------------------------------------------------------------- the even rule

  /** First step k with k * disks / n >= d. */
  function FirstOf(d: nat, n: nat, disks: nat): nat
    requires disks > 0
  {
    (d * n + disks - 1) / disks
  }

  lemma CeilingAtMost(a: nat, b: nat, k: nat)
    requires b > 0
    ensures (a + b - 1) / b <= k <==> a <= k * b
  {
    var q, r := (a + b - 1) / b, (a + b - 1) % b;
    assert a + b - 1 == q * b + r;
    if q <= k {
      TimesMonotone(q, k, b);
    } else {
      TimesMonotone(k + 1, q, b);
      assert (k + 1) * b == k * b + b;
    }
  }

  lemma TimesMonotone(x: nat, y: nat, b: nat)
    requires x <= y
    ensures x * b <= y * b
  {
    assert y * b == x * b + (y - x) * b;
  }

  lemma FloorAtLeast(a: nat, b: nat, d: nat)
    requires b > 0
    ensures d <= a / b <==> d * b <= a
  {
    var q, r := a / b, a % b;
    assert a == q * b + r;
    if d <= q {
      TimesMonotone(d, q, b);
    } else {
      TimesMonotone(q + 1, d, b);
      assert (q + 1) * b == q * b + b;
    }
  }

  /** Step k goes to disk d. */
  predicate GoesTo(k: nat, d: nat, n: nat, disks: nat)
    requires n > 0
  {
    k * disks / n == d
  }

  /** The steps that go to disk d are those from FirstOf(d) up to FirstOf(d + 1). */
  lemma StepsOf(d: nat, n: nat, disks: nat, k: nat)
    requires n > 0 && disks > 0
    ensures GoesTo(k, d, n, disks) <==> FirstOf(d, n, disks) <= k < FirstOf(d + 1, n, disks)
  {
    FloorAtLeast(k * disks, n, d);
    FloorAtLeast(k * disks, n, d + 1);
    CeilingAtMost(d * n, disks, k);
    CeilingAtMost((d + 1) * n, disks, k);
  }

  lemma ShareAtMost(d: nat, n: nat, disks: nat)
    requires n > 0 && disks > 0
    ensures FirstOf(d + 1, n, disks) <= FirstOf(d, n, disks) + (n + disks - 1) / disks
  {
    var a, up := FirstOf(d, n, disks), (n + disks - 1) / disks;
    CeilingAtMost(d * n, disks, a);
    CeilingAtMost(n, disks, up);
    Distribute(disks, a, up);
    Distribute(n, d, 1);
    CeilingAtMost((d + 1) * n, disks, a + up);
  }

  lemma ShareAtLeast(d: nat, n: nat, disks: nat)
    requires n > 0 && disks > 0
    ensures FirstOf(d, n, disks) + n / disks <= FirstOf(d + 1, n, disks)
  {
    var q, b := n / disks, FirstOf(d + 1, n, disks);
    CeilingAtMost((d + 1) * n, disks, b);
    FloorAtLeast(n, disks, q);
    Distribute(n, d, 1);
    if b >= q {
      Distribute(disks, b - q, q);
      CeilingAtMost(d * n, disks, b - q);
    } else {
      TimesMonotone(b + 1, q, disks);
      Distribute(disks, b, 1);
    }
  }

  /** Every disk gets the rounded-down or the rounded-up share. */
  lemma ShareOf(d: nat, n: nat, disks: nat)
    requires n > 0 && disks > 0
    ensures n / disks <= FirstOf(d + 1, n, disks) - FirstOf(d, n, disks) <= (n + disks - 1) / disks
  {
    ShareAtMost(d, n, disks);
    ShareAtLeast(d, n, disks);
  }

  /** How many of the steps below k go to disk d. */
  function StepsBelow(d: nat, n: nat, disks: nat, k: nat): nat
    requires n > 0
  {
    if k == 0 then 0 else StepsBelow(d, n, disks, k - 1) + if GoesTo(k - 1, d, n, disks) then 1 else 0
  }

  lemma {:induction false} StepsBelowCount(d: nat, n: nat, disks: nat, k: nat, a: nat, b: nat)
    requires n > 0 && disks > 0 && a == FirstOf(d, n, disks) && b == FirstOf(d + 1, n, disks) && a <= b
    ensures StepsBelow(d, n, disks, k) == if k <= a then 0 else if k <= b then k - a else b - a
    decreases k
  {
    if k > 0 {
      StepsBelowCount(d, n, disks, k - 1, a, b);
      StepsOf(d, n, disks, k - 1);
    }
  }

  lemma LastStep(d: nat, n: nat, disks: nat)
    requires n > 0 && d < disks
    ensures FirstOf(d + 1, n, disks) <= n
  {
    TimesMonotone(d + 1, disks, n);
    CeilingAtMost((d + 1) * n, disks, n);
  }

  /** With all n steps done, every disk has its rounded share. */
  lemma EvenShares(d: nat, n: nat, disks: nat)
    requires n > 0 && d < disks
    ensures n / disks <= StepsBelow(d, n, disks, n) <= (n + disks - 1) / disks
  {
    LastStep(d, n, disks);
    ShareOf(d, n, disks);
    StepsBelowCount(d, n, disks, n, FirstOf(d, n, disks), FirstOf(d + 1, n, disks));
  }

  lemma StepInRange(k: nat, n: nat, disks: nat)
    requires k < n && disks > 0
    ensures k * disks / n < disks
  {
    FloorAtLeast(k * disks, n, disks);
    TimesMonotone(k + 1, n, disks);
    assert (k + 1) * disks == k * disks + disks;
  }

  // ---------------------------------------------------------------- the shuffle

  function Exchanged(a: seq<nat>, i: nat, j: nat): (r: seq<nat>)
    requires i < |a| && j < |a|
    ensures |r| == |a|
  {
    a[i := a[j]][j := a[i]]
  }

  /** The order of the array after the shuffling steps from k on, whatever is drawn in them. */
  function Shuffled(a: seq<nat>, draws: seq<nat>, k: nat): (r: seq<nat>)
    requires k <= |a| == |draws|
    ensures |r| == |a|
    decreases |a| - k
  {
    if k == |a| then a
    else Shuffled(Exchanged(a, draws[k] % (|a| - k), |a| - 1 - k), draws, k + 1)
  }

  lemma ExchangedPermutes(a: seq<nat>, i: nat, j: nat)
    requires i < |a| && j < |a|
    ensures multiset(Exchanged(a, i, j)) == multiset(a)
  {
  }

  /** Whatever is drawn, the shuffle is a permutation. */
  lemma {:induction false} ShuffledPermutes(a: seq<nat>, draws: seq<nat>, k: nat)
    requires k <= |a| == |draws|
    ensures multiset(Shuffled(a, draws, k)) == multiset(a)
    decreases |a| - k
  {
    hide Exchanged;
    if k < |a| {
      var r := draws[k] % (|a| - k);
      ExchangedPermutes(a, r, |a| - 1 - k);
      ShuffledPermutes(Exchanged(a, r, |a| - 1 - k), draws, k + 1);
    }
  }

  predicate IsOrder(a: seq<nat>) {
    (forall i :: 0 <= i < |a| ==> a[i] < |a|) && NoRepeats(a)
  }

  lemma ExchangedIsOrder(a: seq<nat>, i: nat, j: nat)
    requires IsOrder(a) && i < |a| && j < |a|
    ensures IsOrder(Exchanged(a, i, j))
  {
  }

  /** The draws as the shuffle uses them: reduced to the length of the rest. */
  predicate Reduced(draws: seq<nat>, k: nat) {
    forall j :: k <= j < |draws| ==> draws[j] < |draws| - j
  }

  lemma ReducedStep(a: seq<nat>, draws: seq<nat>, k: nat)
    requires k < |a| == |draws| && draws[k] < |a| - k
    ensures Shuffled(a, draws, k) == Shuffled(Exchanged(a, draws[k], |a| - 1 - k), draws, k + 1)
  {
    Remains(draws[k], |a| - k);
  }

  lemma Remains(x: nat, n: nat)
    requires x < n
    ensures x % n == x
  {
    ModUnique(x, n, 0, x);
  }

  lemma ExchangedAt(a: seq<nat>, i: nat, j: nat, k: nat)
    requires i <= j < |a| && k < |a| && k >= j
    ensures Exchanged(a, i, j)[k] == a[if k == j then i else k]
  {
  }

  /** The steps from k on leave the last k places alone. */
  lemma {:induction false} PlaceStays(a: seq<nat>, draws: seq<nat>, k: nat, j: nat)
    requires k <= |a| == |draws| && |a| - k <= j < |a|
    ensures Shuffled(a, draws, k)[j] == a[j]
    decreases |a| - k
  {
    if k < |a| {
      PlaceStays(Exchanged(a, draws[k] % (|a| - k), |a| - 1 - k), draws, k + 1, j);
    }
  }

  /** The last k places of both orders agree. */
  predicate SameEnd(a: seq<nat>, b: seq<nat>, k: nat)
    requires k <= |a| == |b|
  {
    forall j :: |a| - k <= j < |a| ==> a[j] == b[j]
  }

  /** The exchange that puts the right number at the place of step k. */
  lemma Exchange(a: seq<nat>, b: seq<nat>, k: nat) returns (r: nat)
    requires IsOrder(a) && IsOrder(b) && k < |a| == |b| && SameEnd(a, b, k)
    ensures r < |a| - k
    ensures var c := Exchanged(a, r, |a| - 1 - k); IsOrder(c) && SameEnd(c, b, k + 1)
  {
    var last := |a| - 1 - k;
    Pigeonhole(a, b[last]);
    var i :| 0 <= i < |a| && a[i] == b[last];
    r := i;
    ExchangedIsOrder(a, r, last);
    forall j | last <= j < |a|
      ensures Exchanged(a, r, last)[j] == b[j]
    {
      ExchangedAt(a, r, last, j);
    }
  }

  /** Draws that lead from a to b, where the last k places agree already. */
  lemma {:induction false} ShuffleReaches(a: seq<nat>, b: seq<nat>, k: nat) returns (draws: seq<nat>)
    requires IsOrder(a) && IsOrder(b) && k <= |a| == |b| && SameEnd(a, b, k)
    ensures |draws| == |a| && Reduced(draws, k) && Shuffled(a, draws, k) == b
    decreases |a| - k
  {
    if k == |a| {
      draws := Zeros(|a|);
    } else {
      hide IsOrder, SameEnd, Exchanged, Shuffled;
      var r := Exchange(a, b, k);
      var rest := ShuffleReaches(Exchanged(a, r, |a| - 1 - k), b, k + 1);
      draws := rest[k := r];
      SameShuffle(Exchanged(a, r, |a| - 1 - k), rest, draws, k + 1);
      ReducedStep(a, draws, k);
    }
  }

  /** Only the draws from k on matter. */
  lemma {:induction false} SameShuffle(a: seq<nat>, d: seq<nat>, e: seq<nat>, k: nat)
    requires k <= |a| == |d| == |e| && forall j :: k <= j < |a| ==> d[j] == e[j]
    ensures Shuffled(a, d, k) == Shuffled(a, e, k)
    decreases |a| - k
  {
    if k < |a| {
      SameShuffle(Exchanged(a, d[k] % (|a| - k), |a| - 1 - k), d, e, k + 1);
    }
  }

  /** Different reduced draws lead to different orders. */
  lemma {:induction false} ShuffleTells(a: seq<nat>, d: seq<nat>, e: seq<nat>, k: nat)
    requires IsOrder(a) && k <= |a| == |d| == |e| && Reduced(d, k) && Reduced(e, k)
    requires Shuffled(a, d, k) == Shuffled(a, e, k)
    ensures forall j :: k <= j < |a| ==> d[j] == e[j]
    decreases |a| - k
  {
    hide Shuffled, Exchanged;
    if k < |a| {
      var last := |a| - 1 - k;
      var b, c := Exchanged(a, d[k], last), Exchanged(a, e[k], last);
      PlaceStays(b, d, k + 1, last);
      PlaceStays(c, e, k + 1, last);
      ReducedStep(a, d, k);
      ReducedStep(a, e, k);
      ExchangedAt(a, d[k], last, last);
      ExchangedAt(a, e[k], last, last);
      assert d[k] == e[k];
      ExchangedIsOrder(a, d[k], last);
      ShuffleTells(b, d, e, k + 1);
    }
  }

  /** The shuffle is fair: every order of the files comes from exactly one vector of reduced
      draws. */
  lemma EachOrderOnce(a: seq<nat>, b: seq<nat>) returns (draws: seq<nat>)
    requires IsOrder(a) && IsOrder(b) && |a| == |b|
    ensures |draws| == |a| && Reduced(draws, 0) && Shuffled(a, draws, 0) == b
    ensures forall e :: |e| == |a| && Reduced(e, 0) && Shuffled(a, e, 0) == b ==> e == draws
  {
    draws := ShuffleReaches(a, b, 0);
    forall e | |e| == |a| && Reduced(e, 0) && Shuffled(a, e, 0) == b
      ensures e == draws
    {
      ShuffleTells(a, draws, e, 0);
    }
  }

  /** The first n results of the generator. */
  function DrawnUpTo(seed: nat, n: nat): (draws: seq<nat>)
    ensures |draws| == n && forall k :: 0 <= k < n ==> draws[k] == Drawn(seed, k)
  {
    seq(n, k requires 0 <= k < n => Drawn(seed, k))
  }

  // ---------------------------------------------------------------- the assignment loop

  /** The file assigned in step k. */
  function Chosen(how: AssignMethod, order: seq<nat>, k: nat): nat
    requires k < |order|
  {
    if how.Evenly? then order[|order| - 1 - k] else k
  }

  /** The disk chosen in step k. */
  function ChosenDisk(how: AssignMethod, seed: nat, n: nat, disks: nat, k: nat): nat
    requires k < n && disks > 0
  {
    if how.Randomly? then Drawn(seed, k) % disks else k * disks / n
  }

  /** One shuffling step of the even method: the file for step k. */
  method PickEven(g: Generator, even: array<nat>, k: nat, ghost r: nat, ghost seed: nat) returns (f: nat)
    requires g.Valid() && g.seed == SeedAfter(seed, k) && k < even.Length && IsOrder(even[..])
    requires r == Drawn(seed, k) % (even.Length - k)
    modifies g`seed, even
    ensures g.Valid() && g.seed == SeedAfter(seed, k + 1) && IsOrder(even[..])
    ensures even[..] == Exchanged(old(even[..]), r, even.Length - 1 - k)
    ensures f == even[even.Length - 1 - k]
  {
    var random := g.Rand();
    assert random == Drawn(seed, k);
    random := random % (even.Length - k);
    ghost var before := even[..];
    var tail := even[even.Length - 1 - k];
    f := even[random];
    even[random] := tail;
    even[even.Length - 1 - k] := f;
    assert even[..] == Exchanged(before, r, even.Length - 1 - k);
    ExchangedIsOrder(before, r, even.Length - 1 - k);
  }

  /** The lists and counts of the disks agree with the disks of the files. */
  predicate Housed(disk: seq<Disk>, counts: seq<nat>, p: Placement) {
    p.assign == disk && |p.lists| == |counts| && Placed(p) && OnDisks(disk, |counts|) &&
    forall d :: 0 <= d < |counts| ==> |p.lists[d]| == counts[d]
  }

  /** After k steps exactly the files chosen so far are assigned, each to the disk of its step. */
  predicate AssignedBefore(how: AssignMethod, order: seq<nat>, seed: nat, k: nat, disk: seq<Disk>, disks: nat) {
    IsOrder(order) && |disk| == |order| && k <= |order| && disks > 0 &&
    (forall j :: 0 <= j < k ==> disk[Chosen(how, order, j)] == On(ChosenDisk(how, seed, |order|, disks, j))) &&
    forall j :: k <= j < |order| ==> disk[Chosen(how, order, j)].NoDisk?
  }

  predicate Spread(how: AssignMethod, order: seq<nat>, seed: nat, k: nat, disk: seq<Disk>, counts: seq<nat>, p: Placement) {
    AssignedBefore(how, order, seed, k, disk, |counts|) && Housed(disk, counts, p) && Sum(counts) == k &&
    (!how.Randomly? && order != [] ==> forall d :: 0 <= d < |counts| ==> counts[d] == StepsBelow(d, |order|, |counts|, k))
  }

  lemma ShuffleKeeps(order: seq<nat>, seed: nat, k: nat, disk: seq<Disk>, disks: nat, r: nat)
    requires AssignedBefore(Evenly, order, seed, k, disk, disks) && r < |order| - k
    ensures AssignedBefore(Evenly, Exchanged(order, r, |order| - 1 - k), seed, k, disk, disks)
  {
    var n, o := |order|, Exchanged(order, r, |order| - 1 - k);
    ExchangedIsOrder(order, r, n - 1 - k);
    forall j | k <= j < n
      ensures disk[Chosen(Evenly, o, j)].NoDisk?
    {
      if n - 1 - j == r {
        assert o[n - 1 - j] == Chosen(Evenly, order, k);
      } else if j == k {
        assert o[n - 1 - j] == Chosen(Evenly, order, n - 1 - r);
      } else {
        assert o[n - 1 - j] == Chosen(Evenly, order, j);
      }
    }
    forall j | 0 <= j < k
      ensures disk[Chosen(Evenly, o, j)] == On(ChosenDisk(Evenly, seed, n, disks, j))
    {
      assert o[n - 1 - j] == Chosen(Evenly, order, j);
    }
  }

  lemma AssignKeeps(how: AssignMethod, order: seq<nat>, seed: nat, k: nat, disk: seq<Disk>, disks: nat, f: nat)
    requires AssignedBefore(how, order, seed, k, disk, disks) && k < |order| && f == Chosen(how, order, k)
    ensures AssignedBefore(how, order, seed, k + 1, disk[f := On(ChosenDisk(how, seed, |order|, disks, k))], disks)
  {
    forall j | 0 <= j < |order| && j != k
      ensures Chosen(how, order, j) != f
    {
    }
  }

  lemma HouseKeeps(disk: seq<Disk>, counts: seq<nat>, p: Placement, f: nat, d: nat)
    requires Housed(disk, counts, p) && f < |disk| && disk[f].NoDisk? && d < |counts|
    ensures Housed(disk[f := On(d)], Bump(counts, d, 1), Assigned(p, f, d))
    ensures Sum(Bump(counts, d, 1)) == Sum(counts) + 1
  {
    AssignedPlaced(p, f, d);
    SumBump(counts, d, 1);
  }

  lemma ChosenDiskInRange(how: AssignMethod, seed: nat, n: nat, disks: nat, k: nat)
    requires k < n && disks > 0
    ensures ChosenDisk(how, seed, n, disks, k) < disks
  {
    if !how.Randomly? {
      StepInRange(k, n, disks);
    }
  }

  lemma SpreadStep(how: AssignMethod, order: seq<nat>, seed: nat, k: nat, disk: seq<Disk>, counts: seq<nat>,
                   p: Placement, f: nat, d: nat)
    requires Spread(how, order, seed, k, disk, counts, p) && k < |order|
    requires f == Chosen(how, order, k) && d == ChosenDisk(how, seed, |order|, |counts|, k) && d < |counts|
    ensures Spread(how, order, seed, k + 1, disk[f := On(d)], Bump(counts, d, 1), Assigned(p, f, d))
  {
    AssignKeeps(how, order, seed, k, disk, |counts|, f);
    HouseKeeps(disk, counts, p, f, d);
  }

  /** Every file is assigned once all steps are done. */
  lemma AllHoused(how: AssignMethod, order: seq<nat>, seed: nat, disk: seq<Disk>, disks: nat, f: nat)
    requires AssignedBefore(how, order, seed, |order|, disk, disks) && f < |order|
    ensures disk[f].On?
  {
    if how.Evenly? {
      Pigeonhole(order, f);
      var i :| 0 <= i < |order| && order[i] == f;
      assert Chosen(how, order, |order| - 1 - i) == f;
    } else {
      assert Chosen(how, order, f) == f;
    }
  }

  /** The file counts of linked disks are the lengths of their lists. */
  lemma CountsAre(files: seq<File>, units: seq<Unit>, p: Placement)
    requires AllLinked(files, units) && p == Place(files, units)
    ensures |p.lists| == |units| && forall d :: 0 <= d < |units| ==> CountsOf(units)[d] == |p.lists[d]|
  {
    forall d | 0 <= d < |units|
      ensures CountsOf(units)[d] == |ListsOf(units)[d]|
    {
      assert Linked(units[d]);
    }
  }

  lemma HasFile(l: seq<nat>)
    requires l != []
    ensures exists f :: f in l
  {
    assert l[0] in l;
  }

  /** No file is assigned yet: the lists are empty. */
  lemma StartsSpread(how: AssignMethod, order: seq<nat>, seed: nat, files: seq<File>, units: seq<Unit>)
    requires IsOrder(order) && Consistent(files, units) && AllLinked(files, units) && |files| == |order| && units != []
    requires forall f :: 0 <= f < |files| ==> files[f].assignDisk == null
    ensures Spread(how, order, seed, 0, AssignOf(files), CountsOf(units), Place(files, units))
  {
    var p, counts := Place(files, units), CountsOf(units);
    CountsAre(files, units, p);
    forall d | 0 <= d < |units|
      ensures counts[d] == 0
    {
      if p.lists[d] != [] {
        HasFile(p.lists[d]);
      }
    }
    assert counts == Zeros(|units|);
    SumZeros(|units|);
  }

  /** The assignment loop of __workload_parse_config over the file and disk records. */
  method AssignFiles(how: AssignMethod, g: Generator, even: array<nat>, files: seq<File>, units: seq<Unit>)
    requires g.Valid() && IsOrder(even[..]) && |files| == even.Length && units != []
    requires Consistent(files, units) && AllLinked(files, units)
    requires forall f :: 0 <= f < |files| ==> files[f].assignDisk == null
    modifies g`seed, even
    modifies files`assignDisk, files`assignNext, files`assignPrev, units`assignFile, units`assignFileCount, units`list
    ensures Consistent(files, units) && AllLinked(files, units)
    ensures Spread(how, even[..], old(g.seed), even.Length, AssignOf(files), CountsOf(units), Place(files, units))
    ensures even[..] == if how.Evenly? then Shuffled(old(even[..]), DrawnUpTo(old(g.seed), even.Length), 0) else old(even[..])
    ensures g.Valid() && g.seed == if how.InOrder? then old(g.seed) else SeedAfter(old(g.seed), even.Length)
  {
    hide *;
    NoDraws(g.seed);
    var n, k := even.Length, 0;
    ghost var seed, goal := g.seed, Shuffled(even[..], DrawnUpTo(g.seed, even.Length), 0);
    StartsSpread(how, even[..], seed, files, units);
    while k < n
      invariant k <= n && Consistent(files, units) && AllLinked(files, units)
      invariant Spread(how, even[..], seed, k, AssignOf(files), CountsOf(units), Place(files, units))
      invariant if how.Evenly? then Shuffled(even[..], DrawnUpTo(seed, even.Length), k) == goal else even[..] == old(even[..])
      invariant g.Valid() && g.seed == if how.InOrder? then seed else SeedAfter(seed, k)
    {
      k := AssignOne(how, g, even, files, units, k, seed, goal);
    }
    Done(even[..], DrawnUpTo(seed, even.Length));
  }

  lemma NoDraws(seed: nat)
    ensures SeedAfter(seed, 0) == seed
  {
  }

  lemma Done(a: seq<nat>, draws: seq<nat>)
    requires |draws| == |a|
    ensures Shuffled(a, draws, |a|) == a
  {
  }

  method PickDisk(g: Generator, disks: nat, k: nat, ghost seed: nat) returns (d: nat)
    requires g.Valid() && g.seed == SeedAfter(seed, k) && disks > 0
    modifies g`seed
    ensures g.Valid() && g.seed == SeedAfter(seed, k + 1) && d == Drawn(seed, k) % disks
  {
    d := g.Rand();
    assert d == Drawn(seed, k);
    d := d % disks;
  }

  lemma ShuffleStep(a: seq<nat>, b: seq<nat>, seed: nat, k: nat, r: nat)
    requires k < |a| && r == Drawn(seed, k) % (|a| - k) && b == Exchanged(a, r, |a| - 1 - k)
    ensures Shuffled(b, DrawnUpTo(seed, |a|), k + 1) == Shuffled(a, DrawnUpTo(seed, |a|), k)
  {
  }

  method PickNext(g: Generator, even: array<nat>, k: nat, ghost seed: nat, ghost goal: seq<nat>, ghost disk: seq<Disk>,
                  ghost disks: nat) returns (f: nat)
    requires k < even.Length && AssignedBefore(Evenly, even[..], seed, k, disk, disks)
    requires Shuffled(even[..], DrawnUpTo(seed, even.Length), k) == goal && g.Valid() && g.seed == SeedAfter(seed, k)
    modifies g`seed, even
    ensures AssignedBefore(Evenly, even[..], seed, k, disk, disks) && Shuffled(even[..], DrawnUpTo(seed, even.Length), k + 1) == goal
    ensures f == Chosen(Evenly, even[..], k) && g.Valid() && g.seed == SeedAfter(seed, k + 1)
  {
    ghost var a, r := even[..], Drawn(seed, k) % (even.Length - k);
    ShuffleKeeps(a, seed, k, disk, disks, r);
    f := PickEven(g, even, k, r, seed);
    ShuffleStep(a, even[..], seed, k, r);
  }

  /** The choice of a file and a disk in step k. */
  method Choose(how: AssignMethod, g: Generator, even: array<nat>, disks: nat, k: nat,
                ghost seed: nat, ghost goal: seq<nat>, ghost disk: seq<Disk>)
    returns (f: nat, d: nat)
    requires k < even.Length && AssignedBefore(how, even[..], seed, k, disk, disks)
    requires how.Evenly? ==> Shuffled(even[..], DrawnUpTo(seed, even.Length), k) == goal
    requires g.Valid() && g.seed == if how.InOrder? then seed else SeedAfter(seed, k)
    modifies g`seed, even
    ensures AssignedBefore(how, even[..], seed, k, disk, disks)
    ensures f == Chosen(how, even[..], k) && d == ChosenDisk(how, seed, even.Length, disks, k) < disks
    ensures if how.Evenly? then Shuffled(even[..], DrawnUpTo(seed, even.Length), k + 1) == goal else even[..] == old(even[..])
    ensures g.Valid() && g.seed == if how.InOrder? then seed else SeedAfter(seed, k + 1)
  {
    ChosenDiskInRange(how, seed, even.Length, disks, k);
    match how {
      case InOrder =>
        f, d := k, k * disks / even.Length;
      case Evenly =>
        f := PickNext(g, even, k, seed, goal, disk, disks);
        d := k * disks / even.Length;
      case Randomly =>
        f := k;
        d := PickDisk(g, disks, k, seed);
    }
  }

  method AssignOne(how: AssignMethod, g: Generator, even: array<nat>, files: seq<File>, units: seq<Unit>, k: nat,
                   ghost seed: nat, ghost goal: seq<nat>)
    returns (next: nat)
    requires k < even.Length && Consistent(files, units) && AllLinked(files, units)
    requires Spread(how, even[..], seed, k, AssignOf(files), CountsOf(units), Place(files, units))
    requires how.Evenly? ==> Shuffled(even[..], DrawnUpTo(seed, even.Length), k) == goal
    requires g.Valid() && g.seed == if how.InOrder? then seed else SeedAfter(seed, k)
    modifies g`seed, even
    modifies files`assignDisk, files`assignNext, files`assignPrev, units`assignFile, units`assignFileCount, units`list
    ensures next == k + 1 && Consistent(files, units) && AllLinked(files, units)
    ensures Spread(how, even[..], seed, next, AssignOf(files), CountsOf(units), Place(files, units))
    ensures if how.Evenly? then Shuffled(even[..], DrawnUpTo(seed, even.Length), next) == goal else even[..] == old(even[..])
    ensures g.Valid() && g.seed == if how.InOrder? then seed else SeedAfter(seed, next)
  {
    hide *;
    ghost var spread := Spread(how, even[..], seed, k, AssignOf(files), CountsOf(units), Place(files, units));
    ghost var c, l := Consistent(files, units), AllLinked(files, units);
    ghost var disk, counts, p := AssignOf(files), CountsOf(units), Place(files, units);
    SpreadParts(how, even[..], seed, k, disk, counts, p);
    var f, d := Choose(how, g, even, |units|, k, seed, goal, disk);
    ghost var disk', counts', p' := AssignOf(files), CountsOf(units), Place(files, units);
    ghost var c', l' := Consistent(files, units), AllLinked(files, units);
    assert p' == p && disk' == disk && counts' == counts && c' == c && l' == l;
    SpreadReordered(how, old(even[..]), even[..], seed, k, disk, counts, p);
    PlaceOne(how, even[..], seed, k, f, d, files, units);
    next := k + 1;
  }

  /** Shuffling the rest of the order keeps what is spread. */
  lemma SpreadReordered(how: AssignMethod, order: seq<nat>, order': seq<nat>, seed: nat, k: nat, disk: seq<Disk>,
                        counts: seq<nat>, p: Placement)
    requires Spread(how, order, seed, k, disk, counts, p) && |order'| == |order|
    requires AssignedBefore(how, order', seed, k, disk, |counts|)
    ensures Spread(how, order', seed, k, disk, counts, p)
  {
  }

  /** workload_assign_file_to_disk of the file and disk of step k: it cannot fail, since the file
      has no disk yet. */
  method PlaceOne(how: AssignMethod, ghost order: seq<nat>, ghost seed: nat, ghost k: nat, f: nat, d: nat,
                  files: seq<File>, units: seq<Unit>)
    requires Consistent(files, units) && AllLinked(files, units) && k < |order|
    requires Spread(how, order, seed, k, AssignOf(files), CountsOf(units), Place(files, units))
    requires f == Chosen(how, order, k) && d == ChosenDisk(how, seed, |order|, |units|, k) && d < |units|
    modifies files`assignDisk, files`assignNext, files`assignPrev, units`assignFile, units`assignFileCount, units`list
    ensures Consistent(files, units) && AllLinked(files, units)
    ensures Spread(how, order, seed, k + 1, AssignOf(files), CountsOf(units), Place(files, units))
  {
    hide *;
    ghost var disk, counts, p := AssignOf(files), CountsOf(units), Place(files, units);
    SpreadParts(how, order, seed, k, disk, counts, p);
    NotYet(how, order, seed, k, disk, |counts|, f);
    FileAt(files, units, f, d);
    Unassigned(files, f);
    var ok := Assign(files[f], units[d], false, files, units);
    SpreadOn(how, order, seed, k, disk, counts, p, f, d, files, units);
  }

  lemma Unassigned(files: seq<File>, f: nat)
    requires f < |files| && AssignOf(files)[f].NoDisk?
    ensures files[f].assignDisk == null
  {
  }

  lemma SpreadParts(how: AssignMethod, order: seq<nat>, seed: nat, k: nat, disk: seq<Disk>, counts: seq<nat>, p: Placement)
    requires Spread(how, order, seed, k, disk, counts, p)
    ensures AssignedBefore(how, order, seed, k, disk, |counts|) && |disk| == |order|
  {
  }

  lemma FileAt(files: seq<File>, units: seq<Unit>, f: nat, d: nat)
    requires Consistent(files, units) && f < |files| && d < |units|
    ensures Member(files, files[f]) && UnitMember(units, units[d]) && files[f].id == f && units[d].id == d
  {
  }

  /** The file chosen in step k has no disk yet. */
  lemma NotYet(how: AssignMethod, order: seq<nat>, seed: nat, k: nat, disk: seq<Disk>, disks: nat, f: nat)
    requires AssignedBefore(how, order, seed, k, disk, disks) && k < |order| && f == Chosen(how, order, k)
    ensures f < |disk| && disk[f].NoDisk?
  {
  }

  /** After the k-th assignment the records are spread one step further. */
  lemma SpreadOn(how: AssignMethod, order: seq<nat>, seed: nat, k: nat, disk: seq<Disk>, counts: seq<nat>,
                 p: Placement, f: nat, d: nat, files: seq<File>, units: seq<Unit>)
    requires Spread(how, order, seed, k, disk, counts, p) && k < |order| && AllLinked(files, units)
    requires f == Chosen(how, order, k) && d == ChosenDisk(how, seed, |order|, |counts|, k) && d < |counts|
    requires |units| == |counts| && Place(files, units) == Assigned(p, f, d)
    ensures Spread(how, order, seed, k + 1, AssignOf(files), CountsOf(units), Place(files, units))
  {
    hide AllLinked, AssignedBefore, Assigned, ChosenDisk, Chosen;
    NotYet(how, order, seed, k, disk, |counts|, f);
    SpreadStep(how, order, seed, k, disk, counts, p, f, d);
    HouseKeeps(disk, counts, p, f, d);
    CountsAre(files, units, Place(files, units));
    assert AssignOf(files) == disk[f := On(d)];
    assert CountsOf(units) == Bump(counts, d, 1);
  }

  // ---------------------------------------------------------------- the bands

  /** Each entry is the one before it plus the file count of its disk. */
  predicate Accumulates(limits: seq<nat>, counts: seq<nat>) {
    |limits| <= |counts| && forall d :: 0 <= d < |limits| ==> BandStart(limits, d) + counts[d] == limits[d]
  }

  lemma {:induction false} PrefixSums(limits: seq<nat>, counts: seq<nat>, d: nat)
    requires Accumulates(limits, counts) && d < |limits|
    ensures limits[d] == Sum(counts[..d + 1])
  {
    if d > 0 {
      PrefixSums(limits, counts, d - 1);
    } else {
      assert counts[..0] == [];
    }
    SumAppend(counts[..d], counts[d]);
    assert counts[..d + 1] == counts[..d] + [counts[d]];
  }

  lemma Rises(limits: seq<nat>, counts: seq<nat>, e: nat)
    requires Accumulates(limits, counts) && 0 < e < |limits|
    ensures limits[e - 1] <= limits[e]
  {
    assert BandStart(limits, e) + counts[e] == limits[e];
  }

  lemma {:induction false} Ascending(limits: seq<nat>, counts: seq<nat>, d: nat, e: nat)
    requires Accumulates(limits, counts) && d <= e < |limits|
    ensures limits[d] <= limits[e]
  {
    hide Accumulates;
    if d < e {
      Ascending(limits, counts, d, e - 1);
      Rises(limits, counts, e);
    }
  }

  /** Prefix sums are bands that end at the total. */
  lemma AccumulatedBands(limits: seq<nat>, counts: seq<nat>)
    requires Accumulates(limits, counts) && |limits| == |counts|
    ensures Bands(limits, Sum(counts))
  {
    forall d, e | 0 <= d < e < |limits|
      ensures limits[d] <= limits[e]
    {
      Ascending(limits, counts, d, e);
    }
    if limits != [] {
      PrefixSums(limits, counts, |limits| - 1);
      assert counts[..|limits|] == counts;
    }
  }

  lemma NothingAccumulated(counts: seq<nat>)
    ensures Accumulates([], counts)
  {
  }

  lemma AccumulatesOn(limits: seq<nat>, counts: seq<nat>, index: nat)
    requires Accumulates(limits, counts) && |limits| < |counts|
    requires index == (if limits == [] then 0 else limits[|limits| - 1]) + counts[|limits|]
    ensures Accumulates(limits + [index], counts)
  {
    var l := limits + [index];
    forall d | 0 <= d < |l|
      ensures BandStart(l, d) + counts[d] == l[d]
    {
      assert d < |limits| ==> BandStart(limits, d) + counts[d] == limits[d];
    }
  }

  /** The loop filling m_next_file_index: prefix sums of the file counts of the disks. */
  method NextFileIndex(units: seq<Unit>) returns (limits: array<nat>)
    ensures fresh(limits) && limits.Length == |units| && Accumulates(limits[..], CountsOf(units))
    ensures Bands(limits[..], Sum(CountsOf(units)))
  {
    limits := new nat[|units|];
    var index := 0;
    ghost var counts := CountsOf(units);
    hide CountsOf, Accumulates;
    NothingAccumulated(counts);
    assert limits[..0] == [];
    for d := 0 to |units|
      invariant index == if d == 0 then 0 else limits[d - 1]
      invariant Accumulates(limits[..d], counts)
    {
      ghost var before := limits[..d];
      index := index + units[d].assignFileCount;
      limits[d] := index;
      AccumulatesOn(before, counts, index);
      assert limits[..d + 1] == before + [index];
    }
    assert limits[..|units|] == limits[..];
    AccumulatedBands(limits[..], counts);
  }

  lemma {:induction false} SumAppend(a: seq<nat>, x: nat)
    ensures Sum(a + [x]) == Sum(a) + x
  {
    if a != [] {
      SumAppend(a[1..], x);
      assert (a + [x])[1..] == a[1..] + [x];
    } else {
      assert a + [x] == [x] && [x][1..] == [];
    }
  }

  /** What the loops leave behind is where the tiering engine starts from: every file on the
      list of one disk, bands as wide as the lists are long, and under the ordered and the even
      method every disk with its rounded share of the files. */
  lemma SpreadIsReady(how: AssignMethod, order: seq<nat>, seed: nat, disk: seq<Disk>, counts: seq<nat>, p: Placement,
                      limits: seq<nat>)
    requires order != [] && Spread(how, order, seed, |order|, disk, counts, p) && |limits| == |counts|
    requires Accumulates(limits, counts)
    ensures (forall f :: 0 <= f < |disk| ==> disk[f].On?) && Placed(p) && p.assign == disk
    ensures forall d :: 0 <= d < |limits| ==> BandStart(limits, d) + |p.lists[d]| == limits[d]
    ensures !how.Randomly? ==> forall d :: 0 <= d < |counts| ==>
      |order| / |counts| <= |p.lists[d]| <= (|order| + |counts| - 1) / |counts|
  {
    forall f | 0 <= f < |disk|
      ensures disk[f].On?
    {
      AllHoused(how, order, seed, disk, |counts|, f);
    }
    if !how.Randomly? {
      forall d | 0 <= d < |counts|
        ensures |order| / |counts| <= |p.lists[d]| <= (|order| + |counts| - 1) / |counts|
      {
        EvenShares(d, |order|, |counts|);
      }
    }
  }
}

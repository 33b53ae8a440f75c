/** The records of a workload as the configuration builds them: files, disks and arrays are
    created, the files placed, and the objects are then in the initial state of the tiering
    engine. */
module Assembly {
  import opened Arithmetic
  import opened Random
  import opened Tiering
  import opened TierEngine
  import opened TierWorkload
  import Config
  import Startup
  import TieringRuns

  // ---------------------------------------------------------------- new records

  /** Nothing counted, nothing planned. */
  ghost predicate Uncounted(files: seq<File>, units: seq<Unit>)
    reads files`readCount, files`writeCount, files`reassignDisk, units`readCount, units`writeCount
  {
    (forall i :: 0 <= i < |files| ==> files[i].readCount == 0 && files[i].writeCount == 0 && files[i].reassignDisk == null) &&
    forall d :: 0 <= d < |units| ==> units[d].readCount == 0 && units[d].writeCount == 0
  }

  ghost predicate Homeless(files: seq<File>)
    reads files`assignDisk
  {
    forall i :: 0 <= i < |files| ==> files[i].assignDisk == null
  }

  ghost predicate Empty(units: seq<Unit>)
    reads units`assignFile, units`assignFileCount, units`list
  {
    forall d :: 0 <= d < |units| ==> units[d].list == [] && units[d].assignFile == null && units[d].assignFileCount == 0
  }

  /** The loop that adds the files. */
  method NewFiles(n: nat) returns (files: seq<File>)
    ensures |files| == n && Numbered(files) && Homeless(files) && Uncounted(files, [])
    ensures forall i :: 0 <= i < n ==> fresh(files[i])
  {
    files := [];
    for i := 0 to n
      invariant |files| == i && Numbered(files) && Homeless(files) && Uncounted(files, [])
      invariant forall k :: 0 <= k < i ==> fresh(files[k])
    {
      var f := new File(i);
      files := files + [f];
    }
  }

  /** The loop that adds the disks. */
  method NewUnits(m: nat) returns (units: seq<Unit>)
    ensures |units| == m && UnitsNumbered(units) && Empty(units) && Uncounted([], units)
    ensures forall d :: 0 <= d < m ==> fresh(units[d])
  {
    units := [];
    for d := 0 to m
      invariant |units| == d && UnitsNumbered(units) && Empty(units) && Uncounted([], units)
      invariant forall k :: 0 <= k < d ==> fresh(units[k])
    {
      var u := new Unit(d);
      units := units + [u];
    }
  }

  /** workload_update_file_array: the files into the arrays, and each file its position. */
  method UpdateFileArray(files: seq<File>) returns (sorted: array<File>, even: array<nat>)
    requires Numbered(files) && files != []
    modifies files`index
    ensures fresh(sorted) && fresh(even) && sorted[..] == files && even[..] == Startup.Counting(|files|)
    ensures IndexOf(files) == Startup.Counting(|files|)
  {
    var first := files[0];
    sorted := new File[|files|](_ => first);
    even := new nat[|files|];
    for i := 0 to |files|
      invariant sorted[..i] == files[..i] && even[..i] == Startup.Counting(i)
      invariant forall k :: 0 <= k < i ==> files[k].index == k
    {
      sorted[i] := files[i];
      files[i].index := i;
      even[i] := i;
      assert sorted[..i + 1] == sorted[..i] + [files[i]] && even[..i + 1] == even[..i] + [i];
      assert Startup.Counting(i + 1) == Startup.Counting(i) + [i];
    }
  }

  /** In that order position and number of every file agree. */
  lemma InOrder(files: seq<File>)
    requires Numbered(files)
    ensures IdsOf(files) == Startup.Counting(|files|) && Config.IsOrder(Startup.Counting(|files|)) && AllMembers(files, files)
  {
    Startup.CountingInverse(|files|);
  }

  /** Before the assignment every list is empty and no file has a disk. */
  lemma StartsConsistent(files: seq<File>, units: seq<Unit>)
    requires Numbered(files) && UnitsNumbered(units) && Homeless(files) && Empty(units)
    ensures Consistent(files, units) && AllLinked(files, units)
  {
  }

  // ---------------------------------------------------------------- the whole workload

  /** What the configuration has fixed: order and counts of the assignment as well. */
  ghost predicate Configured(how: Config.AssignMethod, order: seq<nat>, seed: nat, counts: seq<nat>, c: Startup.Setup) {
    order != [] && Config.Spread(how, order, seed, |order|, c.p.assign, counts, c.p) && |c.limits| == |counts| &&
    Config.Accumulates(c.limits, counts) && c.sorted == c.index == Startup.Counting(|order|)
  }

  /** The initial state of the engine for a configuration. */
  function InitialState(c: Startup.Setup): State {
    Startup.EngineOf(c, Startup.Started(c)).s
  }

  /** Files, disks and arrays before the assignment. */
  ghost predicate Created(files: seq<File>, units: seq<Unit>, sorted: array<File>)
    reads files, units, sorted
  {
    Consistent(files, units) && AllLinked(files, units) && Uncounted(files, units) &&
    sorted[..] == files && IndexOf(files) == Startup.Counting(|files|)
  }

  method Create(n: nat, m: nat) returns (files: seq<File>, units: seq<Unit>, sorted: array<File>, even: array<nat>)
    requires n > 0
    ensures |files| == n && |units| == m && fresh(sorted) && fresh(even)
    ensures (forall i :: 0 <= i < n ==> fresh(files[i])) && forall d :: 0 <= d < m ==> fresh(units[d])
    ensures Created(files, units, sorted) && Homeless(files) && even[..] == Startup.Counting(n)
  {
    hide *;
    files := NewFiles(n);
    ghost var h, b := Homeless(files), Uncounted(files, []);
    units := NewUnits(m);
    ghost var h', b' := Homeless(files), Uncounted(files, []);
    assert h' == h && b' == b;
    StartsConsistent(files, units);
    UncountedBoth(files, units);
    ghost var c, l, u := Consistent(files, units), AllLinked(files, units), Uncounted(files, units);
    sorted, even := UpdateFileArray(files);
    ghost var c', l', u', h'' := Consistent(files, units), AllLinked(files, units), Uncounted(files, units), Homeless(files);
    assert c' == c && l' == l && u' == u && h'' == h;
    IsCreated(files, units, sorted);
  }

  lemma UncountedBoth(files: seq<File>, units: seq<Unit>)
    requires Uncounted(files, []) && Uncounted([], units)
    ensures Uncounted(files, units)
  {
  }

  lemma IsCreated(files: seq<File>, units: seq<Unit>, sorted: array<File>)
    ensures Created(files, units, sorted) <==>
      Consistent(files, units) && AllLinked(files, units) && Uncounted(files, units) &&
      sorted[..] == files && IndexOf(files) == Startup.Counting(|files|)
  {
    hide Consistent, AllLinked, Uncounted, IndexOf, Startup.Counting;
  }

  /** The assignment loop and the loop of the bands. */
  method Place(how: Config.AssignMethod, g: Generator, files: seq<File>, units: seq<Unit>, sorted: array<File>, even: array<nat>)
    returns (limits: array<nat>)
    requires g.Valid() && Created(files, units, sorted) && Homeless(files) && files != [] && units != []
    requires even[..] == Startup.Counting(|files|)
    modifies g`seed, even
    modifies files`assignDisk, files`assignNext, files`assignPrev, units`assignFile, units`assignFileCount, units`list
    ensures g.Valid() && fresh(limits) && Created(files, units, sorted)
    ensures SpreadNow(how, even[..], old(g.seed), files, units)
    ensures limits.Length == |units| && Config.Accumulates(limits[..], CountsOf(units))
  {
    hide *;
    IsCreated(files, units, sorted);
    NumberedOf(files, units);
    InOrder(files);
    HomelessAll(files);
    ghost var u, x := Uncounted(files, units), IndexOf(files);
    Config.AssignFiles(how, g, even, files, units);
    ghost var spread, c, l := SpreadNow(how, even[..], old(g.seed), files, units), Consistent(files, units), AllLinked(files, units);
    ghost var u', x' := Uncounted(files, units), IndexOf(files);
    assert u' == u && x' == x;
    IsSpread(how, even[..], old(g.seed), files, units);
    ghost var order := even[..];
    limits := Config.NextFileIndex(units);
    assert even[..] == order;
    ghost var c', l', u'', x'' := Consistent(files, units), AllLinked(files, units), Uncounted(files, units), IndexOf(files);
    assert c' == c && l' == l && u'' == u && x'' == x;
    IsCreated(files, units, sorted);
  }

  ghost predicate SpreadNow(how: Config.AssignMethod, order: seq<nat>, seed: nat, files: seq<File>, units: seq<Unit>)
    reads files`assignDisk, units`assignFileCount, units`list
  {
    |order| == |files| &&
    Config.Spread(how, order, seed, |files|, AssignOf(files), CountsOf(units), TierEngine.Place(files, units))
  }

  lemma IsSpread(how: Config.AssignMethod, order: seq<nat>, seed: nat, files: seq<File>, units: seq<Unit>)
    requires |order| == |files|
    ensures SpreadNow(how, order, seed, files, units) <==>
      Config.Spread(how, order, seed, |files|, AssignOf(files), CountsOf(units), TierEngine.Place(files, units))
  {
    hide Config.Spread;
  }

  lemma NumberedOf(files: seq<File>, units: seq<Unit>)
    requires Consistent(files, units)
    ensures Numbered(files)
  {
  }

  lemma HomelessAll(files: seq<File>)
    requires Homeless(files)
    ensures forall f :: 0 <= f < |files| ==> files[f].assignDisk == null
  {
  }

  /** From the file and disk counts to the workload record: creation, arrays, assignment, bands. */
  method Assemble(how: Config.AssignMethod, g: Generator, n: nat, m: nat)
    returns (w: Workload, ghost order: seq<nat>, ghost counts: seq<nat>, ghost c: Startup.Setup)
    requires g.Valid() && n > 0 && m > 0
    modifies g`seed
    ensures fresh(w) && |w.files| == n && |w.disks| == m && |order| == n && |counts| == m && g.Valid()
    ensures Configured(how, order, old(g.seed), counts, c) && w.Represents(InitialState(c))
  {
    hide *;
    var files, units, sorted, even := Create(n, m);
    var limits := Place(how, g, files, units, sorted, even);
    order, counts := even[..], CountsOf(units);
    c := Startup.Setup(TierEngine.Place(files, units), limits[..], IdsOf(sorted[..]), IndexOf(files));
    w := new Workload(files, units, sorted, limits);
    IsConfigured(how, order, old(g.seed), counts, c, files, units, sorted);
    IsRepresented(w, how, order, old(g.seed), counts, c);
  }

  lemma IsConfigured(how: Config.AssignMethod, order: seq<nat>, seed: nat, counts: seq<nat>, c: Startup.Setup,
                     files: seq<File>, units: seq<Unit>, sorted: array<File>)
    requires Created(files, units, sorted) && SpreadNow(how, order, seed, files, units) && files != []
    requires Config.Accumulates(c.limits, counts)
    requires c.p == TierEngine.Place(files, units) && counts == CountsOf(units) && |c.limits| == |units|
    requires c.sorted == IdsOf(sorted[..]) && c.index == IndexOf(files)
    ensures Configured(how, order, seed, counts, c)
  {
    hide Config.Spread, Config.Accumulates, AllLinked, Inverse, Startup.Counting, IdsOf, IndexOf, CountsOf, AssignOf;
    InOrder(files);
  }

  /** The records are in the initial state of the engine. */
  lemma IsRepresented(w: Workload, how: Config.AssignMethod, order: seq<nat>, seed: nat, counts: seq<nat>, c: Startup.Setup)
    requires Configured(how, order, seed, counts, c) && Created(w.files, w.disks, w.sorted)
    requires w.readCount == 0 && w.writeCount == 0 && c.p == TierEngine.Place(w.files, w.disks)
    requires c.limits == w.limits[..] && c.sorted == IdsOf(w.sorted[..]) && c.index == IndexOf(w.files)
    ensures w.Represents(InitialState(c))
  {
    hide Configured, Config.Spread, Good, Consistent, AllLinked, Inverse, Startup.Counting;
    InitialParts(how, order, seed, counts, c);
    InOrderOf(w.files, w.disks);
    assert ReadsOf(w.files) == Zeros(|w.files|) && WritesOf(w.files) == Zeros(|w.files|);
    assert DiskReadsOf(w.disks) == Zeros(|w.disks|) && DiskWritesOf(w.disks) == Zeros(|w.disks|);
    assert PlanOf(w.files) == seq(|w.files|, _ => NoDisk);
  }

  lemma InitialParts(how: Config.AssignMethod, order: seq<nat>, seed: nat, counts: seq<nat>, c: Startup.Setup)
    requires Configured(how, order, seed, counts, c)
    ensures Good(InitialState(c))
  {
    Startup.SpreadStarts(how, order, seed, counts, c);
  }

  lemma InOrderOf(files: seq<File>, units: seq<Unit>)
    requires Consistent(files, units)
    ensures AllMembers(files, files)
  {
    InOrder(files);
  }
}

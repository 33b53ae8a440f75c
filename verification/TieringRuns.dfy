/** Runs of the tiering engine: what holds after any sequence of its steps. */
module TieringRuns {
  import opened Arithmetic
  import opened Tiering

  /** Steps of a serialised run. A startup write comes from the service of the file's disk;
      the other steps only happen once every file has been written (the startup barrier). */
  datatype Step =
    | Startup(f: nat)
    | Touch(f: nat, write: bool)
    | Relocate(f: nat, ok: bool)
    | Reset
    | Toggle

  /** The state, the files written at startup, whether the plan is current (an access has
      been counted and no move has failed since), and whether the disk counters are complete
      (no relocation switch since load or reset). */
  datatype Machine = Machine(s: State, started: set<nat>, planned: bool, exact: bool)

  predicate Loaded(m: Machine) {
    forall f :: 0 <= f < |m.s.assign| ==> f in m.started
  }

  predicate Enabled(m: Machine, step: Step) {
    match step
    case Startup(f) => f < |m.s.assign| && f !in m.started
    case Touch(f, _) => f < |m.s.assign| && Loaded(m)
    case Relocate(f, _) => f < |m.s.assign| && Loaded(m)
    case Reset => Loaded(m)
    case Toggle => Loaded(m)
  }

  predicate AllAssigned(s: State) {
    forall f :: 0 <= f < |s.assign| ==> s.assign[f].On?
  }

  function Next(m: Machine, step: Step): Machine
    requires Good(m.s) && AllAssigned(m.s) && Enabled(m, step)
  {
    match step
    case Startup(f) => m.(s := Counted(m.s, f, 0, 1), started := m.started + {f})
    case Touch(f, write) => m.(s := Access(m.s, f, if write then 0 else 1, if write then 1 else 0), planned := true)
    case Relocate(f, ok) => m.(s := Relocated(m.s, f, ok), planned := m.planned && (ok || m.s.plan[f].NoDisk?))
    case Reset => m.(s := ResetCounts(m.s), exact := true)
    case Toggle => m.(s := ResetDisks(m.s), exact := false)
  }

  // ---------------------------------------------------------------- the invariant

  /** The disk a file is on or bound for. */
  function Destination(s: State, f: nat): Disk
    requires Sizes(s) && f < |s.assign|
  {
    if s.plan[f].On? then s.plan[f] else s.assign[f]
  }

  /** The file at position p of the sorted array is bound for the disk whose band holds p. */
  predicate PlanCurrent(s: State)
    requires Good(s)
  {
    forall f :: 0 <= f < |s.assign| ==> Destination(s, f) == On(BandDisk(s.limits, s.index[f]))
  }

  predicate Totals(s: State, exact: bool) {
    s.totalReads == Sum(s.fileReads) && s.totalWrites == Sum(s.fileWrites) &&
    Sum(s.diskReads) <= s.totalReads && Sum(s.diskWrites) <= s.totalWrites &&
    (exact ==> Sum(s.diskReads) == s.totalReads && Sum(s.diskWrites) == s.totalWrites)
  }

  predicate StartupCounts(m: Machine)
    requires Sizes(m.s)
  {
    forall f :: 0 <= f < |m.s.assign| ==>
      m.s.fileReads[f] == 0 && m.s.fileWrites[f] == if f in m.started then 1 else 0
  }

  predicate Inv(m: Machine) {
    Good(m.s) && AllAssigned(m.s) && Totals(m.s, m.exact) &&
    (!Loaded(m) ==> StartupCounts(m)) &&
    (Loaded(m) ==> DescendingBy(m.s.sorted, Counts(m.s))) &&
    (m.planned ==> Loaded(m) && PlanCurrent(m.s))
  }

  /** After the assignment loop of the configuration: nothing counted, nothing planned, and
      the bands are as wide as the lists are long. */
  predicate Init(m: Machine) {
    Good(m.s) && AllAssigned(m.s) && m.started == {} && !m.planned && m.exact &&
    m.s.fileReads == Zeros(|m.s.fileReads|) && m.s.fileWrites == Zeros(|m.s.fileWrites|) &&
    m.s.diskReads == Zeros(|m.s.diskReads|) && m.s.diskWrites == Zeros(|m.s.diskWrites|) &&
    m.s.totalReads == 0 && m.s.totalWrites == 0 && Capacities(m.s)
  }

  /** Each disk lists as many files as its band has positions. */
  predicate Capacities(s: State)
    requires Sizes(s)
  {
    forall d :: 0 <= d < |s.lists| ==> BandStart(s.limits, d) + |s.lists[d]| == s.limits[d]
  }

  lemma InitInv(m: Machine)
    requires Init(m)
    ensures Inv(m)
  {
    SumZeros(|m.s.fileReads|);
    SumZeros(|m.s.diskReads|);
  }

  // ---------------------------------------------------------------- counters

  /** Counting once keeps the totals, and with them the conservation of counts. */
  lemma CountedTotals(s: State, f: nat, r: nat, w: nat, exact: bool)
    requires Shaped(s) && f < |s.assign| && s.assign[f].On? && Totals(s, exact)
    ensures Totals(Counted(s, f, r, w), exact)
  {
    var d := s.assign[f].d;
    SumBump(s.fileReads, f, r);
    SumBump(s.fileWrites, f, w);
    SumBump(s.diskReads, d, r);
    SumBump(s.diskWrites, d, w);
  }

  lemma ResetTotals(s: State)
    requires Sizes(s)
    ensures Totals(ResetCounts(s), true)
  {
    SumZeros(|s.fileReads|);
    SumZeros(|s.fileWrites|);
    SumZeros(|s.diskReads|);
    SumZeros(|s.diskWrites|);
  }

  lemma ToggleTotals(s: State, exact: bool)
    requires Sizes(s) && Totals(s, exact)
    ensures Totals(ResetDisks(s), false)
  {
    SumZeros(|s.diskReads|);
    SumZeros(|s.diskWrites|);
  }

  // ---------------------------------------------------------------- order and plan

  /** Where only the count of file f has grown, only f may stand too low. */
  lemma GrowthLowers(sorted: seq<nat>, index: seq<nat>, before: seq<nat>, after: seq<nat>, f: nat)
    requires Inverse(sorted, index) && |before| == |after| == |index| && f < |index|
    requires (forall g :: 0 <= g < |index| && g != f ==> after[g] == before[g]) && after[f] >= before[f]
    requires DescendingBy(sorted, before)
    ensures DescendingBut(sorted, after, index[f])
  {
    forall a, b | 0 <= a < b < |sorted| && b != index[f]
      ensures after[sorted[a]] >= after[sorted[b]]
    {
      assert sorted[b] != f;
    }
  }

  /** One more access keeps the array sorted once the file has moved up. */
  lemma AccessSorts(s: State, f: nat, r: nat, w: nat)
    requires Good(s) && f < |s.assign| && s.assign[f].On? && DescendingBy(s.sorted, Counts(s))
    ensures DescendingBy(Access(s, f, r, w).sorted, Counts(Access(s, f, r, w)))
  {
    hide Promote, Planned, ListsMatch, Bands, InverseOf;
    var c := Counted(s, f, r, w);
    GrowthLowers(s.sorted, s.index, Counts(s), Counts(c), f);
    PromoteSorts(s.sorted, Counts(c), s.index[f]);
    assert Counts(Access(s, f, r, w)) == Counts(c);
  }

  lemma AccessTotals(s: State, f: nat, r: nat, w: nat, exact: bool)
    requires Good(s) && f < |s.assign| && s.assign[f].On? && Totals(s, exact)
    ensures Totals(Access(s, f, r, w), exact)
  {
    CountedTotals(s, f, r, w, exact);
  }

  lemma AccessPlans(s: State, f: nat, r: nat, w: nat)
    requires Good(s) && f < |s.assign| && s.assign[f].On?
    ensures PlanCurrent(Access(s, f, r, w))
  {
  }

  /** A relocation step keeps the plan exactly when the move succeeds or none was due. */
  lemma RelocateKeepsPlan(s: State, f: nat, ok: bool)
    requires Good(s) && f < |s.assign| && PlanCurrent(s)
    ensures Good(Relocated(s, f, ok))
    ensures PlanCurrent(Relocated(s, f, ok)) <==> ok || s.plan[f].NoDisk? || s.plan[f] == s.assign[f]
  {
    RelocatedGood(s, f, ok);
    var t := Relocated(s, f, ok);
    assert forall g :: 0 <= g < |s.assign| && g != f ==> Destination(t, g) == Destination(s, g);
    if s.plan[f].On? {
      assert Destination(s, f) == s.plan[f];
      assert Destination(t, f) == if ok then s.plan[f] else s.assign[f];
    }
  }

  // ---------------------------------------------------------------- every step, every run

  lemma StartupKeepsInv(m: Machine, f: nat)
    requires Inv(m) && Enabled(m, Startup(f))
    ensures Inv(Next(m, Startup(f)))
  {
    var n := Next(m, Startup(f));
    CountedTotals(m.s, f, 0, 1, m.exact);
    assert f !in m.started;
    assert StartupCounts(n);
    if Loaded(n) {
      assert forall g :: 0 <= g < |n.s.assign| ==> Counts(n.s)[g] == 1;
    }
  }

  lemma TouchKeepsInv(m: Machine, f: nat, write: bool)
    requires Inv(m) && Enabled(m, Touch(f, write))
    ensures Inv(Next(m, Touch(f, write)))
  {
    var r, w := if write then 0 else 1, if write then 1 else 0;
    AccessTotals(m.s, f, r, w, m.exact);
    AccessSorts(m.s, f, r, w);
    AccessPlans(m.s, f, r, w);
    assert Access(m.s, f, r, w).assign == m.s.assign;
  }

  lemma RelocatedRest(s: State, f: nat, ok: bool)
    requires Good(s) && f < |s.assign|
    ensures var t := Relocated(s, f, ok);
      t.fileReads == s.fileReads && t.fileWrites == s.fileWrites && t.sorted == s.sorted && |t.assign| == |s.assign| &&
      Shaped(s) && Sizes(t) && Good(t) && (forall exact :: Totals(t, exact) <==> Totals(s, exact)) &&
      (AllAssigned(s) ==> AllAssigned(t))
  {
    RelocatedGood(s, f, ok);
    hide Good, Sum;
  }

  lemma RelocateKeepsInv(m: Machine, f: nat, ok: bool)
    requires Inv(m) && Enabled(m, Relocate(f, ok))
    ensures Inv(Next(m, Relocate(f, ok)))
  {
    hide Good, PlanCurrent, Totals, AllAssigned;
    RelocatedGood(m.s, f, ok);
    RelocatedRest(m.s, f, ok);
    SameCounts(m.s, Relocated(m.s, f, ok));
    if m.planned {
      RelocateKeepsPlan(m.s, f, ok);
    }
  }

  lemma ResetsKeepInv(m: Machine, step: Step)
    requires Inv(m) && Enabled(m, step) && (step.Reset? || step.Toggle?)
    ensures Inv(Next(m, step))
  {
    ResetTotals(m.s);
    ToggleTotals(m.s, m.exact);
    SameCounts(m.s, ResetDisks(m.s));
  }

  lemma StepKeepsInv(m: Machine, step: Step)
    requires Inv(m) && Enabled(m, step)
    ensures Inv(Next(m, step))
  {
    match step
    case Startup(f) => StartupKeepsInv(m, f);
    case Touch(f, write) => TouchKeepsInv(m, f, write);
    case Relocate(f, ok) => RelocateKeepsInv(m, f, ok);
    case Reset => ResetsKeepInv(m, step);
    case Toggle => ResetsKeepInv(m, step);
  }

  /** The states a run goes through: each step is taken where it is enabled. */
  predicate Legal(m: Machine, steps: seq<Step>)
    decreases |steps|
  {
    steps == [] ||
    (Good(m.s) && AllAssigned(m.s) && Enabled(m, steps[0]) && Legal(Next(m, steps[0]), steps[1..]))
  }

  function Run(m: Machine, steps: seq<Step>): Machine
    requires Legal(m, steps)
    decreases |steps|
  {
    if steps == [] then m else Run(Next(m, steps[0]), steps[1..])
  }

  lemma {:induction false} RunKeepsInv(m: Machine, steps: seq<Step>)
    requires Inv(m) && Legal(m, steps)
    ensures Inv(Run(m, steps)) && Run(m, steps).s.limits == m.s.limits
    decreases |steps|
  {
    if steps != [] {
      StepKeepsInv(m, steps[0]);
      RunKeepsInv(Next(m, steps[0]), steps[1..]);
    }
  }

  /** Conservation over every run: the totals equal the sums over the files; the sums over
      the disks never exceed them, and are equal while relocation has not been switched
      since load or reset. */
  lemma CountsConserved(m: Machine, steps: seq<Step>)
    requires Init(m) && Legal(m, steps)
    ensures Totals(Run(m, steps).s, Run(m, steps).exact)
  {
    InitInv(m);
    RunKeepsInv(m, steps);
  }

  /** The file at position p is bound for exactly the disk whose band holds p. */
  predicate BoundByBand(s: State)
    requires Good(s)
  {
    forall p, d :: 0 <= p < |s.sorted| && 0 <= d < |s.limits| ==>
      (Destination(s, s.sorted[p]) == On(d) <==> InBand(s.limits, d, p))
  }

  lemma CurrentIsByBand(s: State)
    requires Good(s) && PlanCurrent(s)
    ensures BoundByBand(s)
  {
    forall p, d | 0 <= p < |s.sorted| && 0 <= d < |s.limits|
      ensures Destination(s, s.sorted[p]) == On(d) <==> InBand(s.limits, d, p)
    {
      var f := s.sorted[p];
      assert s.index[f] == p && Destination(s, f) == On(BandDisk(s.limits, p));
      BandUnique(s.limits, |s.assign|, p, d);
    }
  }

  /** Order over every run: the sorted array is always a permutation with m_index as its
      inverse, in descending access count once loaded; and from the first counted access on,
      as long as moves succeed, each position is bound for the disk of its band. */
  lemma IndexAndPlan(m: Machine, steps: seq<Step>)
    requires Init(m) && Legal(m, steps)
    ensures var e := Run(m, steps);
      Good(e.s) && (Loaded(e) ==> DescendingBy(e.s.sorted, Counts(e.s))) && (e.planned ==> BoundByBand(e.s))
  {
    InitInv(m);
    RunKeepsInv(m, steps);
    if Run(m, steps).planned {
      CurrentIsByBand(Run(m, steps).s);
    }
  }

  // ---------------------------------------------------------------- a complete pass

  /** workload_file_relocate from file k on, all moves succeeding. */
  function Pass(s: State, k: nat): State
    requires Good(s) && k <= |s.assign|
    decreases |s.assign| - k
  {
    if k == |s.assign| then s
    else
      RelocatedGood(s, k, true);
      Pass(Relocated(s, k, true), k + 1)
  }

  lemma {:induction false} PassMovesAll(s: State, k: nat)
    requires Good(s) && k <= |s.assign| && PlanCurrent(s)
    requires forall f :: 0 <= f < k ==> s.plan[f].NoDisk?
    ensures var t := Pass(s, k);
      Good(t) && PlanCurrent(t) && t.plan == seq(|s.plan|, _ => NoDisk) &&
      t == s.(lists := t.lists, assign := t.assign, plan := t.plan)
    decreases |s.assign| - k
  {
    if k < |s.assign| {
      RelocatedGood(s, k, true);
      RelocateKeepsPlan(s, k, true);
      PassMovesAll(Relocated(s, k, true), k + 1);
    } else {
      assert s.plan == seq(|s.plan|, _ => NoDisk);
    }
  }

  /** Lists without repeats and with the same members are equally long. */
  lemma {:induction false} SameMembers(a: seq<nat>, b: seq<nat>)
    requires NoRepeats(a) && NoRepeats(b) && forall f :: f in a <==> f in b
    ensures |a| == |b|
    decreases |a|
  {
    assert b == [] || b[0] in a;
    if a != [] {
      assert a[0] in b;
      DroppedExactly(a, a[0]);
      DroppedExactly(b, a[0]);
      SameMembers(Dropped(a, a[0]), Dropped(b, a[0]));
    }
  }

  /** The files of a disk after a pass are those at the positions of its band. */
  lemma ListIsBand(s: State, d: nat)
    requires Good(s) && PlanCurrent(s) && d < |s.lists| && forall f :: 0 <= f < |s.plan| ==> s.plan[f].NoDisk?
    ensures BandStart(s.limits, d) + |s.lists[d]| == s.limits[d]
  {
    var lo, hi := BandStart(s.limits, d), s.limits[d];
    var band := s.sorted[lo..hi];
    forall f: nat
      ensures f in s.lists[d] <==> f in band
    {
      InListInBand(s, d, f);
    }
    forall i, j | 0 <= i < j < |band|
      ensures band[i] != band[j]
    {
      assert s.index[s.sorted[lo + i]] == lo + i && s.index[s.sorted[lo + j]] == lo + j;
    }
    SameMembers(s.lists[d], band);
  }

  lemma InListInBand(s: State, d: nat, f: nat)
    requires Good(s) && PlanCurrent(s) && d < |s.lists| && forall g :: 0 <= g < |s.plan| ==> s.plan[g].NoDisk?
    ensures f in s.lists[d] <==> f in s.sorted[BandStart(s.limits, d)..s.limits[d]]
  {
    var lo, band := BandStart(s.limits, d), s.sorted[BandStart(s.limits, d)..s.limits[d]];
    assert forall q :: 0 <= q < |band| ==> band[q] == s.sorted[lo + q];
    if f < |s.assign| {
      assert Destination(s, f) == s.assign[f];
      BandUnique(s.limits, |s.assign|, s.index[f], d);
      assert s.assign[f] == On(d) <==> InBand(s.limits, d, s.index[f]);
      assert s.sorted[s.index[f]] == f;
      if s.assign[f] == On(d) {
        assert band[s.index[f] - lo] == f;
      }
    }
  }

  lemma EarlierDiskBusier(t: State, f: nat, g: nat)
    requires Good(t) && PlanCurrent(t) && f < |t.assign| && g < |t.assign|
    requires forall h :: 0 <= h < |t.plan| ==> t.plan[h].NoDisk?
    requires t.assign[f].On? && t.assign[g].On? && t.assign[f].d < t.assign[g].d && DescendingBy(t.sorted, Counts(t))
    ensures Count(t, f) >= Count(t, g)
  {
    assert Destination(t, f) == t.assign[f] && Destination(t, g) == t.assign[g];
    assert t.limits[t.assign[f].d] <= t.index[g];
    assert t.sorted[t.index[f]] == f && t.sorted[t.index[g]] == g;
  }

  /** Every disk lists as many files as its band is wide, and no file on a later disk has been
      accessed more often than a file on an earlier one. */
  predicate Tiered(t: State)
    requires Good(t)
  {
    Capacities(t) &&
    forall f, g :: 0 <= f < |t.assign| && 0 <= g < |t.assign| && t.assign[f].On? && t.assign[g].On? ==>
      t.assign[f].d < t.assign[g].d ==> Count(t, f) >= Count(t, g)
  }

  lemma SettledTiers(t: State)
    requires Good(t) && PlanCurrent(t) && DescendingBy(t.sorted, Counts(t))
    requires forall f :: 0 <= f < |t.plan| ==> t.plan[f].NoDisk?
    ensures Tiered(t)
  {
    forall d | 0 <= d < |t.lists|
      ensures BandStart(t.limits, d) + |t.lists[d]| == t.limits[d]
    {
      ListIsBand(t, d);
    }
    forall f, g | 0 <= f < |t.assign| && 0 <= g < |t.assign| && t.assign[f].On? && t.assign[g].On? && t.assign[f].d < t.assign[g].d
      ensures Count(t, f) >= Count(t, g)
    {
      EarlierDiskBusier(t, f, g);
    }
  }

  lemma SameCounts(s: State, t: State)
    requires |s.fileReads| == |s.fileWrites| && t.fileReads == s.fileReads && t.fileWrites == s.fileWrites
    ensures Counts(t) == Counts(s)
  {
  }

  lemma PassTiers(s: State)
    requires Good(s) && PlanCurrent(s) && DescendingBy(s.sorted, Counts(s))
    ensures Good(Pass(s, 0)) && Tiered(Pass(s, 0)) && Pass(s, 0).limits == s.limits
  {
    PassMovesAll(s, 0);
    var t := Pass(s, 0);
    SameCounts(s, t);
    SettledTiers(t);
  }

  /** A complete relocation pass with successful moves, at any time from the first counted
      access on, realises the tiers: each disk again holds its original number of files. */
  lemma PassRealisesTiers(m: Machine, steps: seq<Step>)
    requires Init(m) && Legal(m, steps) && Run(m, steps).planned
    ensures Inv(Run(m, steps)) && Good(Pass(Run(m, steps).s, 0)) && Tiered(Pass(Run(m, steps).s, 0))
    ensures |Pass(Run(m, steps).s, 0).lists| == |m.s.lists|
    ensures forall d :: 0 <= d < |m.s.lists| ==> |Pass(Run(m, steps).s, 0).lists[d]| == |m.s.lists[d]|
  {
    InitInv(m);
    RunKeepsInv(m, steps);
    PassTiers(Run(m, steps).s);
  }
}

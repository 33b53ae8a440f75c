/** From the configuration over the startup barrier to the tiering engine: what the loops of
    the configuration leave behind is an initial state of the engine, every interleaving of the
    disk services is a run of its startup steps, and past the barrier the engine is loaded. */
module Startup {
  import opened Arithmetic
  import opened Tiering
  import Config
  import Barrier
  import TieringRuns

  /** What the configuration fixes: the lists and disks of the files, the bands, and the
      sorted array with its inverse. */
  datatype Setup = Setup(p: Placement, limits: seq<nat>, sorted: seq<nat>, index: seq<nat>)

  predicate Ready(c: Setup) {
    Placed(c.p) && (forall f :: 0 <= f < |c.p.assign| ==> c.p.assign[f].On?) &&
    Inverse(c.sorted, c.index) && |c.sorted| == |c.p.assign| &&
    Bands(c.limits, |c.p.assign|) && |c.limits| == |c.p.lists| &&
    forall d :: 0 <= d < |c.limits| ==> BandStart(c.limits, d) + |c.p.lists[d]| == c.limits[d]
  }

  /** The engine while the services count their files. */
  function EngineOf(c: Setup, s: Barrier.Progress): TieringRuns.Machine {
    var n, m := |c.p.assign|, |c.p.lists|;
    TieringRuns.Machine(
      State(Zeros(n), s.writes, Zeros(m), s.diskWrites, 0, s.totalWrites, c.sorted, c.index, c.p.assign,
            seq(n, _ => NoDisk), c.p.lists, c.limits),
      Written(s.writes), false, true)
  }

  /** The files written so far. */
  function Written(writes: seq<nat>): (r: set<nat>)
    ensures forall f: nat :: f in r <==> f < |writes| && writes[f] > 0
  {
    set f: nat | f < |writes| && writes[f] > 0
  }

  function Started(c: Setup): Barrier.Progress {
    Barrier.Initial(|c.p.assign|, |c.p.lists|)
  }

  /** The numbers below n in order: what workload_update_file_array leaves in the sorted array,
      and in m_index of the files. */
  function Counting(n: nat): (r: seq<nat>)
    ensures |r| == n && forall i :: 0 <= i < n ==> r[i] == i
  {
    seq(n, i => i)
  }

  lemma CountingInverse(n: nat)
    ensures Inverse(Counting(n), Counting(n)) && Config.IsOrder(Counting(n))
  {
  }

  /** The loops of the configuration leave an initial state of the engine. */
  lemma SpreadStarts(how: Config.AssignMethod, order: seq<nat>, seed: nat, counts: seq<nat>, c: Setup)
    requires order != [] && Config.Spread(how, order, seed, |order|, c.p.assign, counts, c.p)
    requires |c.limits| == |counts| && Config.Accumulates(c.limits, counts)
    requires c.sorted == c.index == Counting(|order|)
    ensures Ready(c) && TieringRuns.Init(EngineOf(c, Started(c)))
  {
    Config.SpreadIsReady(how, order, seed, c.p.assign, counts, c.p, c.limits);
    Config.AccumulatedBands(c.limits, counts);
    CountingInverse(|order|);
    ReadyStarts(c);
  }

  lemma ReadyStarts(c: Setup)
    requires Ready(c)
    ensures TieringRuns.Init(EngineOf(c, Started(c)))
  {
  }

  lemma WrittenGrows(writes: seq<nat>, f: nat)
    requires f < |writes|
    ensures Written(Bump(writes, f, 1)) == Written(writes) + {f}
  {
  }

  lemma EngineGood(c: Setup, s: Barrier.Progress)
    requires Ready(c) && Barrier.Inv(c.p.lists, c.p.assign, s)
    ensures Good(EngineOf(c, s).s) && TieringRuns.AllAssigned(EngineOf(c, s).s)
  {
  }

  /** The next file of a service has not been counted yet. */
  lemma NextIsNew(lists: seq<seq<nat>>, assign: seq<Disk>, s: Barrier.Progress, d: nat)
    requires Barrier.Inv(lists, assign, s) && Barrier.Enabled(lists, s, Barrier.Serve(d, true))
    ensures var f := lists[d][s.services[d].k]; f < |assign| == |s.writes| && assign[f] == On(d) && s.writes[f] == 0
  {
    var f := lists[d][s.services[d].k];
    assert f in lists[d] && Barrier.ServedOk(lists, s, d);
  }

  /** Counting a file at the barrier is a startup step of the engine. */
  lemma ServeRefines(c: Setup, s: Barrier.Progress, d: nat)
    requires Ready(c) && Barrier.Inv(c.p.lists, c.p.assign, s) && Barrier.Enabled(c.p.lists, s, Barrier.Serve(d, true))
    ensures var m, f := EngineOf(c, s), TieringRuns.Startup(c.p.lists[d][s.services[d].k]);
      Good(m.s) && TieringRuns.AllAssigned(m.s) && TieringRuns.Enabled(m, f) &&
      TieringRuns.Next(m, f) == EngineOf(c, Barrier.Next(c.p.lists, c.p.assign, s, Barrier.Serve(d, true)))
  {
    hide Barrier.Inv, Good, Ready;
    EngineGood(c, s);
    NextIsNew(c.p.lists, c.p.assign, s, d);
    var f := c.p.lists[d][s.services[d].k];
    WrittenGrows(s.writes, f);
    NothingAdded(|c.p.assign|, f);
    NothingAdded(|c.p.lists|, d);
  }

  lemma NothingAdded(n: nat, i: nat)
    requires i < n
    ensures Bump(Zeros(n), i, 0) == Zeros(n)
  {
  }

  /** The other steps of the barrier count nothing. */
  lemma OtherRefines(c: Setup, s: Barrier.Progress, step: Barrier.Step)
    requires Barrier.Fits(c.p.lists, c.p.assign, s) && Barrier.Enabled(c.p.lists, s, step) && !(step.Serve? && step.opens)
    ensures EngineOf(c, Barrier.Next(c.p.lists, c.p.assign, s, step)) == EngineOf(c, s)
  {
  }

  /** Every interleaving of the services is a run of startup steps of the engine. */
  lemma {:induction false} RunRefines(c: Setup, s: Barrier.Progress, steps: seq<Barrier.Step>)
    returns (run: seq<TieringRuns.Step>)
    requires Ready(c) && Barrier.Inv(c.p.lists, c.p.assign, s) && Barrier.Legal(c.p.lists, c.p.assign, s, steps)
    ensures (forall i :: 0 <= i < |run| ==> run[i].Startup?) && TieringRuns.Legal(EngineOf(c, s), run)
    ensures TieringRuns.Run(EngineOf(c, s), run) == EngineOf(c, Barrier.Run(c.p.lists, c.p.assign, s, steps))
    decreases |steps|
  {
    hide Ready, EngineOf, Barrier.Inv, Barrier.Next, TieringRuns.Next, Good;
    if steps == [] {
      run := [];
    } else {
      var t := Barrier.Next(c.p.lists, c.p.assign, s, steps[0]);
      Barrier.StepKeepsInv(c.p.lists, c.p.assign, s, steps[0]);
      run := RunRefines(c, t, steps[1..]);
      if steps[0].Serve? && steps[0].opens {
        ServeRefines(c, s, steps[0].d);
        run := [TieringRuns.Startup(c.p.lists[steps[0].d][s.services[steps[0].d].k])] + run;
        assert run[1..] == run[1..];
      } else {
        OtherRefines(c, s, steps[0]);
      }
    }
  }

  lemma {:induction false} RunOn(m: TieringRuns.Machine, first: seq<TieringRuns.Step>, more: seq<TieringRuns.Step>)
    requires TieringRuns.Legal(m, first) && TieringRuns.Legal(TieringRuns.Run(m, first), more)
    ensures TieringRuns.Legal(m, first + more)
    ensures TieringRuns.Run(m, first + more) == TieringRuns.Run(TieringRuns.Run(m, first), more)
    decreases |first|
  {
    hide TieringRuns.Enabled, TieringRuns.Next, Good;
    if first == [] {
      assert first + more == more;
    } else {
      RunOn(TieringRuns.Next(m, first[0]), first[1..], more);
      assert (first + more)[1..] == first[1..] + more && (first + more)[0] == first[0];
    }
  }

  /** Past the barrier, in whatever interleaving, the engine is loaded: a legal run of startup
      steps from its initial state has counted every file. */
  lemma PassedIsLoaded(c: Setup, steps: seq<Barrier.Step>) returns (run: seq<TieringRuns.Step>)
    requires Ready(c) && Barrier.Legal(c.p.lists, c.p.assign, Started(c), steps)
    requires Barrier.Run(c.p.lists, c.p.assign, Started(c), steps).main == Barrier.Passed
    ensures var m := EngineOf(c, Started(c));
      TieringRuns.Init(m) && TieringRuns.Legal(m, run) && TieringRuns.Loaded(TieringRuns.Run(m, run)) &&
      TieringRuns.Run(m, run) == EngineOf(c, Barrier.Run(c.p.lists, c.p.assign, Started(c), steps))
  {
    hide Barrier.Inv, TieringRuns.Init;
    ReadyStarts(c);
    Barrier.InitialInv(c.p.lists, c.p.assign);
    run := RunRefines(c, Started(c), steps);
    Barrier.PassedMeansCounted(c.p.lists, c.p.assign, steps);
  }

  /** Barrier steps that get past the barrier, and engine steps after it with a counted access. */
  predicate Possible(c: Setup, steps: seq<Barrier.Step>, later: seq<TieringRuns.Step>) {
    Barrier.Legal(c.p.lists, c.p.assign, Started(c), steps) &&
    var s := Barrier.Run(c.p.lists, c.p.assign, Started(c), steps);
    s.main == Barrier.Passed && TieringRuns.Legal(EngineOf(c, s), later) &&
    TieringRuns.Run(EngineOf(c, s), later).planned
  }

  function Reached(c: Setup, steps: seq<Barrier.Step>, later: seq<TieringRuns.Step>): State
    requires Possible(c, steps, later)
  {
    TieringRuns.Run(EngineOf(c, Barrier.Run(c.p.lists, c.p.assign, Started(c), steps)), later).s
  }

  lemma ReadyTiers(c: Setup, steps: seq<Barrier.Step>, later: seq<TieringRuns.Step>)
    requires Ready(c) && Possible(c, steps, later)
    ensures var s := Reached(c, steps, later);
      Good(s) && Good(TieringRuns.Pass(s, 0)) && TieringRuns.Tiered(TieringRuns.Pass(s, 0)) &&
      |TieringRuns.Pass(s, 0).lists| == |c.p.lists| &&
      forall d :: 0 <= d < |c.p.lists| ==> |TieringRuns.Pass(s, 0).lists[d]| == |c.p.lists[d]|
  {
    hide Ready, TieringRuns.Tiered, TieringRuns.Init, TieringRuns.Inv, TieringRuns.Pass, Good;
    var run := PassedIsLoaded(c, steps);
    var m := EngineOf(c, Started(c));
    RunOn(m, run, later);
    TieringRuns.PassRealisesTiers(m, run + later);
  }

  /** From the configuration on: whatever is spread, however the services are interleaved at the
      barrier and whatever the engine does after it, a complete relocation pass with successful
      moves leaves every disk as many files as the configuration gave it, and more often used
      files on earlier disks. */
  lemma ConfiguredTiers(how: Config.AssignMethod, order: seq<nat>, seed: nat, counts: seq<nat>, c: Setup,
                        steps: seq<Barrier.Step>, later: seq<TieringRuns.Step>)
    requires order != [] && Config.Spread(how, order, seed, |order|, c.p.assign, counts, c.p)
    requires |c.limits| == |counts| && Config.Accumulates(c.limits, counts)
    requires c.sorted == c.index == Counting(|order|) && Possible(c, steps, later)
    ensures var s := Reached(c, steps, later);
      Good(s) && Good(TieringRuns.Pass(s, 0)) && TieringRuns.Tiered(TieringRuns.Pass(s, 0)) &&
      |TieringRuns.Pass(s, 0).lists| == |counts| &&
      forall d :: 0 <= d < |counts| ==> |TieringRuns.Pass(s, 0).lists[d]| == counts[d]
  {
    hide *;
    SpreadStarts(how, order, seed, counts, c);
    ReadyTiers(c, steps, later);
    CountsAreSizes(how, order, seed, counts, c);
  }

  lemma CountsAreSizes(how: Config.AssignMethod, order: seq<nat>, seed: nat, counts: seq<nat>, c: Setup)
    requires Config.Spread(how, order, seed, |order|, c.p.assign, counts, c.p)
    ensures |counts| == |c.p.lists| && forall d :: 0 <= d < |counts| ==> |c.p.lists[d]| == counts[d]
  {
  }
}

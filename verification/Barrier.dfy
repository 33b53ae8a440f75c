/** The startup barrier: the services of the disks write and count their files while the main
    thread waits for all of them to be ready, in every interleaving. */
module Barrier {
  import opened Tiering

  /** A disk service: not begun, about to write the k-th file of its list, stopped by a failure
      at the k-th file, through its list (k files counted), returned without path. */
  datatype Service = Waiting | Serving(k: nat) | Failing(k: nat) | Ended(k: nat) | Dead

  /** The main thread: in the waiting loop, past it, returned with an error. */
  datatype Main = Polling | Passed | GaveUp

  datatype Progress = Progress(
    writes: seq<nat>,        // m_write_count of each file
    diskWrites: seq<nat>,    // the same of each disk
    totalWrites: nat,        // the same of the workload
    ready: nat, errors: nat, // m_disk_ready_count, m_disk_error_count
    services: seq<Service>, main: Main)

  datatype Step =
    | Begin(d: nat, pathOk: bool)    // checks or creates the path of the disk
    | Serve(d: nat, opens: bool)     // opens, writes and counts the next file
    | Finish(d: nat)                 // counts the disk as ready
    | Check                          // the lock section of the waiting loop
    | Break                          // the user interrupts the main thread

  function Initial(files: nat, disks: nat): Progress {
    Progress(Zeros(files), Zeros(disks), 0, 0, 0, seq(disks, _ => Waiting), Polling)
  }

  /** The lists partition the files; sizes agree. */
  predicate Fits(lists: seq<seq<nat>>, assign: seq<Disk>, s: Progress) {
    ListsMatch(lists, assign) && (forall f :: 0 <= f < |assign| ==> assign[f].On?) &&
    |s.writes| == |assign| && |s.diskWrites| == |s.services| == |lists|
  }

  predicate Enabled(lists: seq<seq<nat>>, s: Progress, step: Step) {
    match step
    case Begin(d, _) => d < |s.services| && s.services[d].Waiting?
    case Serve(d, _) => d < |s.services| && d < |lists| && s.services[d].Serving? && s.services[d].k < |lists[d]|
    case Finish(d) =>
      d < |s.services| && d < |lists| &&
      match s.services[d] {
        case Serving(k) => k == |lists[d]| || s.main == GaveUp // or asked to stop
        case Failing(_) => true
        case Waiting => false
        case Ended(_) => false
        case Dead => false
      }
    case Check => s.main == Polling
    case Break => s.main == Polling
  }

  function Next(lists: seq<seq<nat>>, assign: seq<Disk>, s: Progress, step: Step): Progress
    requires Fits(lists, assign, s) && Enabled(lists, s, step)
  {
    match step
    case Begin(d, ok) =>
      if ok then s.(services := s.services[d := Serving(0)])
      else s.(services := s.services[d := Dead], errors := s.errors + 1)
    case Serve(d, ok) =>
      var k := s.services[d].k;
      assert lists[d][k] in lists[d];
      if ok then
        s.(writes := Bump(s.writes, lists[d][k], 1), diskWrites := Bump(s.diskWrites, d, 1),
           totalWrites := s.totalWrites + 1, services := s.services[d := Serving(k + 1)])
      else s.(services := s.services[d := Failing(k)], errors := s.errors + 1)
    case Finish(d) => s.(services := s.services[d := Ended(s.services[d].k)], ready := s.ready + 1)
    case Check =>
      if s.errors > 0 then s.(main := GaveUp)
      else if s.ready >= |s.services| then s.(main := Passed)
      else s
    case Break => s.(main := GaveUp)
  }

  // ---------------------------------------------------------------- the invariant

  /** How many files the service has counted. */
  function Served(v: Service): nat {
    match v
    case Waiting => 0
    case Serving(k) => k
    case Failing(k) => k
    case Ended(k) => k
    case Dead => 0
  }

  predicate ServedOk(lists: seq<seq<nat>>, s: Progress, d: nat)
    requires d < |lists| == |s.services| == |s.diskWrites|
  {
    Served(s.services[d]) <= |lists[d]| && s.diskWrites[d] == Served(s.services[d]) &&
    forall k :: 0 <= k < |lists[d]| && lists[d][k] < |s.writes| ==>
      s.writes[lists[d][k]] == if k < Served(s.services[d]) then 1 else 0
  }

  function ReadyCount(v: seq<Service>): (n: nat)
    ensures n <= |v|
    ensures n == |v| ==> forall d :: 0 <= d < |v| ==> v[d].Ended?
  {
    if v == [] then 0
    else
      assert forall d :: 1 <= d < |v| ==> v[d] == v[1..][d - 1];
      (if v[0].Ended? then 1 else 0) + ReadyCount(v[1..])
  }

  lemma {:induction false} ReadyUpdate(v: seq<Service>, d: nat, x: Service)
    requires d < |v| && !v[d].Ended?
    ensures ReadyCount(v[d := x]) == ReadyCount(v) + if x.Ended? then 1 else 0
  {
    if d > 0 {
      assert v[d := x][1..] == v[1..][d - 1 := x];
      ReadyUpdate(v[1..], d - 1, x);
    } else {
      assert v[0 := x][1..] == v[1..];
    }
  }

  /** Without error and as long as main waits, every service is on its way or complete. */
  predicate OnTheWay(lists: seq<seq<nat>>, s: Progress)
    requires |lists| == |s.services|
  {
    forall d :: 0 <= d < |lists| ==>
      (s.services[d].Failing? || s.services[d].Dead? ==> s.errors > 0) &&
      (s.services[d].Ended? && s.services[d].k < |lists[d]| ==> s.errors > 0 || s.main == GaveUp)
  }

  predicate Complete(lists: seq<seq<nat>>, s: Progress)
    requires |lists| == |s.services|
  {
    forall d :: 0 <= d < |lists| ==> s.services[d] == Ended(|lists[d]|)
  }

  predicate Inv(lists: seq<seq<nat>>, assign: seq<Disk>, s: Progress) {
    Fits(lists, assign, s) && (forall d :: 0 <= d < |lists| ==> ServedOk(lists, s, d)) &&
    s.totalWrites == Sum(s.writes) && s.ready == ReadyCount(s.services) && OnTheWay(lists, s) &&
    (s.main == Passed ==> Complete(lists, s))
  }

  lemma CountingKeeps(lists: seq<seq<nat>>, assign: seq<Disk>, s: Progress, d: nat)
    requires Inv(lists, assign, s) && Enabled(lists, s, Serve(d, true))
    ensures forall e :: 0 <= e < |lists| ==> ServedOk(lists, Next(lists, assign, s, Serve(d, true)), e)
  {
    var t, k := Next(lists, assign, s, Serve(d, true)), s.services[d].k;
    var f := lists[d][k];
    assert f in lists[d] && f < |assign| && assign[f] == On(d);
    assert ServedOk(lists, s, d);
    forall e | 0 <= e < |lists|
      ensures ServedOk(lists, t, e)
    {
      assert ServedOk(lists, s, e);
      forall j | 0 <= j < |lists[e]| && lists[e][j] < |t.writes|
        ensures t.writes[lists[e][j]] == if j < Served(t.services[e]) then 1 else 0
      {
        assert lists[e][j] in lists[e];
        if e == d && j != k {
          assert lists[d][j] != lists[d][k];
        }
      }
    }
  }

  lemma ServeKeepsInv(lists: seq<seq<nat>>, assign: seq<Disk>, s: Progress, d: nat)
    requires Inv(lists, assign, s) && Enabled(lists, s, Serve(d, true))
    ensures Inv(lists, assign, Next(lists, assign, s, Serve(d, true)))
  {
    var k := s.services[d].k;
    assert lists[d][k] in lists[d];
    CountingKeeps(lists, assign, s, d);
    SumBump(s.writes, lists[d][k], 1);
    ReadyUpdate(s.services, d, Serving(k + 1));
  }

  /** The service of one disk moves on without counting. */
  lemma MoveKeepsInv(lists: seq<seq<nat>>, assign: seq<Disk>, s: Progress, d: nat, x: Service, t: Progress)
    requires Inv(lists, assign, s) && d < |s.services| && !s.services[d].Ended? && Served(x) == Served(s.services[d])
    requires t == s.(services := s.services[d := x], ready := t.ready, errors := t.errors) && t.errors >= s.errors
    requires t.ready == s.ready + if x.Ended? then 1 else 0
    requires x.Failing? || x.Dead? ==> t.errors > 0
    requires x.Ended? && x.k < |lists[d]| ==> t.errors > 0 || t.main == GaveUp
    ensures Inv(lists, assign, t)
  {
    ReadyUpdate(s.services, d, x);
    forall e | 0 <= e < |lists|
      ensures ServedOk(lists, t, e)
    {
      assert ServedOk(lists, s, e);
    }
  }

  lemma CheckKeepsInv(lists: seq<seq<nat>>, assign: seq<Disk>, s: Progress, step: Step)
    requires Inv(lists, assign, s) && Enabled(lists, s, step) && (step.Check? || step.Break?)
    ensures Inv(lists, assign, Next(lists, assign, s, step))
  {
    var t := Next(lists, assign, s, step);
    forall d | 0 <= d < |lists|
      ensures ServedOk(lists, t, d) && (t.main == Passed ==> t.services[d] == Ended(|lists[d]|))
    {
      assert ServedOk(lists, s, d);
    }
  }

  lemma StepKeepsInv(lists: seq<seq<nat>>, assign: seq<Disk>, s: Progress, step: Step)
    requires Inv(lists, assign, s) && Enabled(lists, s, step)
    ensures Inv(lists, assign, Next(lists, assign, s, step))
  {
    var t := Next(lists, assign, s, step);
    match step
    case Begin(d, ok) => MoveKeepsInv(lists, assign, s, d, if ok then Serving(0) else Dead, t);
    case Serve(d, ok) =>
      if ok {
        ServeKeepsInv(lists, assign, s, d);
      } else {
        MoveKeepsInv(lists, assign, s, d, Failing(s.services[d].k), t);
      }
    case Finish(d) =>
      assert ServedOk(lists, s, d);
      MoveKeepsInv(lists, assign, s, d, Ended(s.services[d].k), t);
    case Check => CheckKeepsInv(lists, assign, s, step);
    case Break => CheckKeepsInv(lists, assign, s, step);
  }

  predicate Legal(lists: seq<seq<nat>>, assign: seq<Disk>, s: Progress, steps: seq<Step>)
    decreases |steps|
  {
    steps == [] ||
    (Fits(lists, assign, s) && Enabled(lists, s, steps[0]) &&
     Legal(lists, assign, Next(lists, assign, s, steps[0]), steps[1..]))
  }

  function Run(lists: seq<seq<nat>>, assign: seq<Disk>, s: Progress, steps: seq<Step>): Progress
    requires Legal(lists, assign, s, steps)
    decreases |steps|
  {
    if steps == [] then s else Run(lists, assign, Next(lists, assign, s, steps[0]), steps[1..])
  }

  lemma {:induction false} RunKeepsInv(lists: seq<seq<nat>>, assign: seq<Disk>, s: Progress, steps: seq<Step>)
    requires Inv(lists, assign, s) && Legal(lists, assign, s, steps)
    ensures Inv(lists, assign, Run(lists, assign, s, steps))
    decreases |steps|
  {
    if steps != [] {
      StepKeepsInv(lists, assign, s, steps[0]);
      RunKeepsInv(lists, assign, Next(lists, assign, s, steps[0]), steps[1..]);
    }
  }

  lemma {:induction false} NoneReady(n: nat)
    ensures ReadyCount(seq(n, _ => Waiting)) == 0
  {
    if n > 0 {
      assert seq(n, _ => Waiting)[1..] == seq(n - 1, _ => Waiting);
      NoneReady(n - 1);
    }
  }

  lemma {:induction false} SumOnes(c: seq<nat>)
    requires forall i :: 0 <= i < |c| ==> c[i] == 1
    ensures Sum(c) == |c|
  {
    if c != [] {
      SumOnes(c[1..]);
    }
  }

  lemma InitialInv(lists: seq<seq<nat>>, assign: seq<Disk>)
    requires Fits(lists, assign, Initial(|assign|, |lists|))
    ensures Inv(lists, assign, Initial(|assign|, |lists|))
  {
    NoneReady(|lists|);
    SumZeros(|assign|);
  }

  /** If the barrier is passed then, however the services were interleaved, every file has been
      counted exactly once, every disk as often as it has files, and the workload as often as
      there are files. */
  lemma PassedMeansCounted(lists: seq<seq<nat>>, assign: seq<Disk>, steps: seq<Step>)
    requires Fits(lists, assign, Initial(|assign|, |lists|))
    requires Legal(lists, assign, Initial(|assign|, |lists|), steps)
    requires Run(lists, assign, Initial(|assign|, |lists|), steps).main == Passed
    ensures var s := Run(lists, assign, Initial(|assign|, |lists|), steps);
      |s.writes| == |assign| && (forall f :: 0 <= f < |assign| ==> s.writes[f] == 1) && s.totalWrites == |assign| &&
      |s.diskWrites| == |lists| && forall d :: 0 <= d < |lists| ==> s.diskWrites[d] == |lists[d]|
  {
    InitialInv(lists, assign);
    RunKeepsInv(lists, assign, Initial(|assign|, |lists|), steps);
    var s := Run(lists, assign, Initial(|assign|, |lists|), steps);
    forall f | 0 <= f < |assign|
      ensures s.writes[f] == 1
    {
      var d := assign[f].d;
      assert f in lists[d];
      var k :| 0 <= k < |lists[d]| && lists[d][k] == f;
      assert ServedOk(lists, s, d) && s.services[d] == Ended(|lists[d]|);
    }
    SumOnes(s.writes);
    forall d | 0 <= d < |lists|
      ensures s.diskWrites[d] == |lists[d]|
    {
      assert ServedOk(lists, s, d) && s.services[d] == Ended(|lists[d]|);
    }
  }

  /** The barrier is passed exactly when every service has got through its list by the time
      the main thread looks. */
  lemma BarrierIsExact(lists: seq<seq<nat>>, assign: seq<Disk>, steps: seq<Step>)
    requires Fits(lists, assign, Initial(|assign|, |lists|))
    requires Legal(lists, assign, Initial(|assign|, |lists|), steps)
    ensures var s := Run(lists, assign, Initial(|assign|, |lists|), steps);
      Inv(lists, assign, s) && (s.main == Polling ==>
      (Next(lists, assign, s, Check).main == Passed <==> s.errors == 0 && Complete(lists, s)))
  {
    InitialInv(lists, assign);
    RunKeepsInv(lists, assign, Initial(|assign|, |lists|), steps);
    var s := Run(lists, assign, Initial(|assign|, |lists|), steps);
    if Complete(lists, s) {
      AllReady(s.services);
    }
    if s.main == Polling {
      CheckKeepsInv(lists, assign, s, Check);
    }
  }

  lemma {:induction false} AllReady(v: seq<Service>)
    requires forall d :: 0 <= d < |v| ==> v[d].Ended?
    ensures ReadyCount(v) == |v|
  {
    if v != [] {
      AllReady(v[1..]);
    }
  }

  /** Past the barrier the array of files is sorted by access count in whatever order it was
      filled: the tiering engine starts from a valid sorted index. */
  lemma SortedPastBarrier(lists: seq<seq<nat>>, assign: seq<Disk>, steps: seq<Step>, sorted: seq<nat>)
    requires Fits(lists, assign, Initial(|assign|, |lists|))
    requires Legal(lists, assign, Initial(|assign|, |lists|), steps)
    requires Run(lists, assign, Initial(|assign|, |lists|), steps).main == Passed
    requires forall p :: 0 <= p < |sorted| ==> sorted[p] < |assign|
    ensures var c := Run(lists, assign, Initial(|assign|, |lists|), steps).writes;
      |c| == |assign| && DescendingBy(sorted, c)
  {
    PassedMeansCounted(lists, assign, steps);
  }
}

/** The storage tiering engine as a state machine: access counting with the sorted index and
    the band plan, relocation, counter resets. Files and disks are numbered in list order. */
module Tiering {
  import opened Arithmetic

  /** Disk number, or none (a NULL disk pointer). */
  datatype Disk = NoDisk | On(d: nat)

  datatype State = State(
    fileReads: seq<nat>, fileWrites: seq<nat>,   // m_read_count, m_write_count of each file
    diskReads: seq<nat>, diskWrites: seq<nat>,   // the same of each disk
    totalReads: nat, totalWrites: nat,           // the same of the workload
    sorted: seq<nat>,                            // m_file_sorted
    index: seq<nat>,                             // m_index of each file
    assign: seq<Disk>,                           // m_assign_disk of each file
    plan: seq<Disk>,                             // m_reassign_disk of each file
    lists: seq<seq<nat>>,                        // m_assign_file list of each disk
    limits: seq<nat>)                            // m_next_file_index

  function Count(s: State, f: nat): nat
    requires f < |s.fileReads| && f < |s.fileWrites|
  {
    s.fileReads[f] + s.fileWrites[f]
  }

  function Bump(c: seq<nat>, i: nat, n: nat): seq<nat>
    requires i < |c|
  {
    c[i := c[i] + n]
  }

  function Sum(c: seq<nat>): nat {
    if c == [] then 0 else c[0] + Sum(c[1..])
  }

  lemma {:induction false} SumBump(c: seq<nat>, i: nat, n: nat)
    requires i < |c|
    ensures Sum(Bump(c, i, n)) == Sum(c) + n
  {
    if i > 0 {
      assert Bump(c, i, n)[1..] == Bump(c[1..], i - 1, n);
      SumBump(c[1..], i - 1, n);
    } else {
      assert Bump(c, 0, n)[1..] == c[1..];
    }
  }

  function Zeros(n: nat): (z: seq<nat>)
    ensures |z| == n && forall i :: 0 <= i < n ==> z[i] == 0
  {
    seq(n, _ => 0)
  }

  lemma {:induction false} SumZeros(n: nat)
    ensures Sum(Zeros(n)) == 0
  {
    if n > 0 {
      assert Zeros(n)[1..] == Zeros(n - 1);
      SumZeros(n - 1);
    }
  }

  // ---------------------------------------------------------------- shapes

  predicate Sizes(s: State) {
    var n, m := |s.fileReads|, |s.diskReads|;
    |s.fileWrites| == |s.sorted| == |s.index| == |s.assign| == |s.plan| == n &&
    |s.diskWrites| == |s.lists| == |s.limits| == m
  }

  predicate OnDisks(a: seq<Disk>, m: nat) {
    forall f :: 0 <= f < |a| && a[f].On? ==> a[f].d < m
  }

  /** Sizes fit and every disk number is in range. */
  predicate Shaped(s: State) {
    Sizes(s) && OnDisks(s.assign, |s.lists|) && OnDisks(s.plan, |s.lists|) && Bands(s.limits, |s.assign|)
  }

  /** m_index is the inverse of m_file_sorted, which is therefore a permutation. */
  predicate Inverse(sorted: seq<nat>, index: seq<nat>) {
    |sorted| == |index| &&
    (forall p :: 0 <= p < |sorted| ==> sorted[p] < |index| && index[sorted[p]] == p) &&
    forall f :: 0 <= f < |index| ==> index[f] < |sorted| && sorted[index[f]] == f
  }

  // ---------------------------------------------------------------- capacity bands

  /** Prefix sums of the disk capacities, ending at the number of files. */
  predicate Bands(limits: seq<nat>, n: nat) {
    (forall d, e :: 0 <= d < e < |limits| ==> limits[d] <= limits[e]) &&
    (n > 0 ==> limits != []) && (limits != [] ==> limits[|limits| - 1] == n)
  }

  function BandStart(limits: seq<nat>, d: nat): nat
    requires d < |limits|
  {
    if d == 0 then 0 else limits[d - 1]
  }

  /** Position p lies in the band of disk d. */
  predicate InBand(limits: seq<nat>, d: nat, p: nat) {
    d < |limits| && BandStart(limits, d) <= p < limits[d]
  }

  /** The disk whose band contains position p. */
  function BandDisk(limits: seq<nat>, p: nat): (d: nat)
    requires limits != [] && p < limits[|limits| - 1]
    ensures d < |limits| && p < limits[d] && forall e :: 0 <= e < d ==> limits[e] <= p
  {
    BandFrom(limits, p, 0)
  }

  function BandFrom(limits: seq<nat>, p: nat, d: nat): (e: nat)
    requires d < |limits| && p < limits[|limits| - 1]
    ensures d <= e < |limits| && p < limits[e] && forall k :: d <= k < e ==> limits[k] <= p
    decreases |limits| - d
  {
    if p < limits[d] then d else BandFrom(limits, p, d + 1)
  }

  /** Exactly one band contains each position. */
  lemma BandUnique(limits: seq<nat>, n: nat, p: nat, d: nat)
    requires Bands(limits, n) && p < n
    ensures InBand(limits, d, p) <==> d == BandDisk(limits, p)
  {
    var e := BandDisk(limits, p);
    assert d < |limits| && d < e ==> limits[d] <= p;
    assert d < |limits| && e < d ==> limits[e] <= limits[d - 1];
  }

  // ---------------------------------------------------------------- steps

  function Swapped(a: seq<nat>, p: nat): seq<nat>
    requires 0 < p < |a|
  {
    a[p := a[p - 1]][p - 1 := a[p]]
  }

  /** The sort-index loop: the file at position p moves up past files with smaller counts. */
  function Promote(sorted: seq<nat>, counts: seq<nat>, p: nat): (r: seq<nat>)
    requires p < |sorted| && forall q :: 0 <= q < |sorted| ==> sorted[q] < |counts|
    ensures |r| == |sorted| && forall q :: 0 <= q < |r| ==> r[q] < |counts|
    decreases p
  {
    if p == 0 || counts[sorted[p - 1]] >= counts[sorted[p]] then sorted
    else Promote(Swapped(sorted, p), counts, p - 1)
  }

  /** Position of each file in a permutation. */
  function InverseOf(sorted: seq<nat>): (index: seq<nat>)
    ensures |index| == |sorted|
  {
    seq(|sorted|, (f: nat) => PositionOf(sorted, f, 0))
  }

  function PositionOf(sorted: seq<nat>, f: nat, p: nat): (q: nat)
    requires p <= |sorted|
    ensures q <= |sorted| && (q < |sorted| ==> sorted[q] == f)
    ensures forall k :: p <= k < q ==> sorted[k] != f
    decreases |sorted| - p
  {
    if p == |sorted| || sorted[p] == f then p else PositionOf(sorted, f, p + 1)
  }

  lemma InverseUnique(sorted: seq<nat>, index: seq<nat>)
    requires Inverse(sorted, index)
    ensures index == InverseOf(sorted)
  {
    forall f | 0 <= f < |index|
      ensures index[f] == PositionOf(sorted, f, 0)
    {
      var q := PositionOf(sorted, f, 0);
      assert sorted[index[f]] == f;
      assert q < |sorted| ==> index[sorted[q]] == q;
    }
  }

  /** The planning loops: every file not on its band's disk gets that disk as target. */
  function Planned(s: State): (plan: seq<Disk>)
    requires Shaped(s) && Inverse(s.sorted, s.index)
    ensures |plan| == |s.plan| && OnDisks(plan, |s.lists|)
    ensures forall f :: 0 <= f < |plan| ==> plan[f] == Target(s, f)
  {
    seq(|s.plan|, f requires 0 <= f < |s.plan| => Target(s, f))
  }

  function Target(s: State, f: nat): (t: Disk)
    requires Shaped(s) && Inverse(s.sorted, s.index) && f < |s.plan|
    ensures t.On? ==> t.d < |s.lists|
  {
    var d := BandDisk(s.limits, s.index[f]);
    if s.assign[f] == On(d) then NoDisk else On(d)
  }

  // ---------------------------------------------------------------- the sorted index

  /** Counts descend, except that the file at position p may be too low. */
  predicate DescendingBut(sorted: seq<nat>, counts: seq<nat>, p: nat)
    requires forall q :: 0 <= q < |sorted| ==> sorted[q] < |counts|
  {
    forall a, b :: 0 <= a < b < |sorted| && b != p ==> counts[sorted[a]] >= counts[sorted[b]]
  }

  predicate DescendingBy(sorted: seq<nat>, counts: seq<nat>)
    requires forall q :: 0 <= q < |sorted| ==> sorted[q] < |counts|
  {
    forall a, b :: 0 <= a < b < |sorted| ==> counts[sorted[a]] >= counts[sorted[b]]
  }

  /** The loop restores the order and keeps the array a permutation. */
  lemma {:induction false} PromoteSorts(sorted: seq<nat>, counts: seq<nat>, p: nat)
    requires p < |sorted| && forall q :: 0 <= q < |sorted| ==> sorted[q] < |counts|
    requires DescendingBut(sorted, counts, p)
    ensures DescendingBy(Promote(sorted, counts, p), counts)
    decreases p
  {
    if p > 0 && counts[sorted[p - 1]] < counts[sorted[p]] {
      PromoteSorts(Swapped(sorted, p), counts, p - 1);
    } else {
      forall a, b | 0 <= a < b < |sorted|
        ensures counts[sorted[a]] >= counts[sorted[b]]
      {
        if b == p && a < p - 1 {
          assert counts[sorted[a]] >= counts[sorted[p - 1]];
        }
      }
    }
  }

  lemma {:induction false} PromotePermutes(sorted: seq<nat>, counts: seq<nat>, p: nat, index: seq<nat>)
    requires p < |sorted| && Inverse(sorted, index) && |counts| == |sorted|
    ensures Inverse(Promote(sorted, counts, p), InverseOf(Promote(sorted, counts, p)))
    decreases p
  {
    if p > 0 && counts[sorted[p - 1]] < counts[sorted[p]] {
      PromotePermutes(Swapped(sorted, p), counts, p - 1, index[sorted[p] := p - 1][sorted[p - 1] := p]);
    } else {
      InverseUnique(sorted, index);
    }
  }

  // ---------------------------------------------------------------- steps on the state

  function Counts(s: State): (c: seq<nat>)
    requires |s.fileReads| == |s.fileWrites|
    ensures |c| == |s.fileReads| && forall f :: 0 <= f < |c| ==> c[f] == Count(s, f)
  {
    seq(|s.fileReads|, f requires 0 <= f < |s.fileReads| => Count(s, f))
  }

  /** Every file is on the list of its disk, once, and on no other list. */
  predicate ListsMatch(lists: seq<seq<nat>>, assign: seq<Disk>) {
    (forall d, f {:trigger f in lists[d]} :: 0 <= d < |lists| && f in lists[d] ==> f < |assign| && assign[f] == On(d)) &&
    (forall f :: 0 <= f < |assign| && assign[f].On? ==> assign[f].d < |lists| && f in lists[assign[f].d]) &&
    forall d :: 0 <= d < |lists| ==> NoRepeats(lists[d])
  }

  /** What every step keeps: shapes, the index as a permutation, the lists as a partition. */
  predicate Good(s: State) {
    Shaped(s) && Inverse(s.sorted, s.index) && ListsMatch(s.lists, s.assign)
  }

  /** The counter part of an access (r, w) to file f on disk d. */
  function Counted(s: State, f: nat, r: nat, w: nat): State
    requires Shaped(s) && f < |s.assign| && s.assign[f].On?
  {
    var d := s.assign[f].d;
    s.(fileReads := Bump(s.fileReads, f, r), fileWrites := Bump(s.fileWrites, f, w),
       diskReads := Bump(s.diskReads, d, r), diskWrites := Bump(s.diskWrites, d, w),
       totalReads := s.totalReads + r, totalWrites := s.totalWrites + w)
  }

  /** The file's counts have grown: repair the sorted index. */
  function Resorted(s: State, f: nat): (s': State)
    requires Good(s) && f < |s.assign|
    ensures Good(s') && s' == s.(sorted := s'.sorted, index := s'.index)
  {
    PromotePermutes(s.sorted, Counts(s), s.index[f], s.index);
    var sorted := Promote(s.sorted, Counts(s), s.index[f]);
    s.(sorted := sorted, index := InverseOf(sorted))
  }

  /** A counted access of file f: counters, sorted index, plan. */
  function Access(s: State, f: nat, r: nat, w: nat): (s': State)
    requires Good(s) && f < |s.assign| && s.assign[f].On?
    ensures Good(s')
  {
    var moved := Resorted(Counted(s, f, r, w), f);
    moved.(plan := Planned(moved))
  }

  function Dropped(a: seq<nat>, f: nat): seq<nat> {
    if a == [] then [] else if a[0] == f then a[1..] else [a[0]] + Dropped(a[1..], f)
  }

  /** The lists and disks of a serialised run of assignments. */
  datatype Placement = Placement(lists: seq<seq<nat>>, assign: seq<Disk>)

  predicate Placed(p: Placement) {
    ListsMatch(p.lists, p.assign)
  }

  /** Unlinks file f from the list of its disk. */
  function Deassigned(p: Placement, f: nat): (q: Placement)
    requires f < |p.assign| && OnDisks(p.assign, |p.lists|)
    ensures |q.assign| == |p.assign| && |q.lists| == |p.lists| && OnDisks(q.assign, |q.lists|)
  {
    if p.assign[f].NoDisk? then p
    else
      var e := p.assign[f].d;
      Placement(p.lists[e := Dropped(p.lists[e], f)], p.assign[f := NoDisk])
  }

  /** workload_assign_file_to_disk when the file operations succeed. */
  function Assigned(p: Placement, f: nat, d: nat): (q: Placement)
    requires f < |p.assign| && d < |p.lists| && OnDisks(p.assign, |p.lists|)
    ensures |q.assign| == |p.assign| && |q.lists| == |p.lists| && OnDisks(q.assign, |q.lists|)
  {
    if p.assign[f] == On(d) then p
    else
      var u := Deassigned(p, f);
      Placement(u.lists[d := [f] + u.lists[d]], u.assign[f := On(d)])
  }

  /** Relocation of one file; ok tells whether its move succeeds. */
  function Relocated(s: State, f: nat, ok: bool): State
    requires Shaped(s) && f < |s.assign|
  {
    if s.plan[f].NoDisk? then s
    else
      var p := Placement(s.lists, s.assign);
      var q := if ok then Assigned(p, f, s.plan[f].d) else p;
      s.(lists := q.lists, assign := q.assign, plan := s.plan[f := NoDisk])
  }

  /** workload_reset_file_access_count */
  function ResetCounts(s: State): State {
    s.(fileReads := Zeros(|s.fileReads|), fileWrites := Zeros(|s.fileWrites|),
       diskReads := Zeros(|s.diskReads|), diskWrites := Zeros(|s.diskWrites|), totalReads := 0, totalWrites := 0)
  }

  /** The counter resets of switching relocation on or off. */
  function ResetDisks(s: State): State {
    s.(diskReads := Zeros(|s.diskReads|), diskWrites := Zeros(|s.diskWrites|))
  }

  // ---------------------------------------------------------------- the lists

  lemma {:induction false} DroppedExactly(a: seq<nat>, f: nat)
    requires NoRepeats(a)
    ensures NoRepeats(Dropped(a, f)) && forall g :: g in Dropped(a, f) <==> g in a && g != f
    ensures |Dropped(a, f)| == if f in a then |a| - 1 else |a|
  {
    if a != [] {
      assert a == [a[0]] + a[1..];
      assert forall i :: 1 <= i < |a| ==> a[1..][i - 1] == a[i];
      DroppedExactly(a[1..], f);
      assert a[0] !in a[1..];
      if a[0] != f {
        Consed(a[0], Dropped(a[1..], f));
      }
    }
  }

  lemma Consed(f: nat, a: seq<nat>)
    requires NoRepeats(a) && f !in a
    ensures NoRepeats([f] + a) && forall g :: g in [f] + a <==> g == f || g in a
  {
    var b := [f] + a;
    assert forall i :: 1 <= i < |b| ==> b[i] == a[i - 1];
  }

  lemma DeassignedPlaced(p: Placement, f: nat)
    requires Placed(p) && f < |p.assign| && OnDisks(p.assign, |p.lists|)
    ensures Placed(Deassigned(p, f)) && Deassigned(p, f).assign == p.assign[f := NoDisk]
  {
    if p.assign[f].On? {
      var e, q := p.assign[f].d, Deassigned(p, f);
      DroppedExactly(p.lists[e], f);
      forall d, g | 0 <= d < |q.lists| && g in q.lists[d]
        ensures g < |q.assign| && q.assign[g] == On(d)
      {
        assert g in p.lists[d];
      }
      forall g | 0 <= g < |q.assign| && q.assign[g].On?
        ensures g in q.lists[q.assign[g].d]
      {
        assert p.assign[g] == q.assign[g] && g in p.lists[p.assign[g].d];
      }
    }
  }

  /** Assigning keeps every list the set of files pointing at its disk. */
  lemma AssignedPlaced(p: Placement, f: nat, d: nat)
    requires Placed(p) && f < |p.assign| && d < |p.lists| && OnDisks(p.assign, |p.lists|)
    ensures Placed(Assigned(p, f, d)) && Assigned(p, f, d).assign == p.assign[f := On(d)]
  {
    if p.assign[f] != On(d) {
      DeassignedPlaced(p, f);
      var u := Deassigned(p, f);
      assert f !in u.lists[d];
      Consed(f, u.lists[d]);
      AddedPlaced(u, f, d);
    }
  }

  lemma AddedPlaced(u: Placement, f: nat, d: nat)
    requires Placed(u) && f < |u.assign| && d < |u.lists| && u.assign[f] == NoDisk
    requires NoRepeats([f] + u.lists[d]) && forall g :: g in [f] + u.lists[d] <==> g == f || g in u.lists[d]
    ensures Placed(Placement(u.lists[d := [f] + u.lists[d]], u.assign[f := On(d)]))
  {
    var q := Placement(u.lists[d := [f] + u.lists[d]], u.assign[f := On(d)]);
    forall e, g | 0 <= e < |q.lists| && g in q.lists[e]
      ensures g < |q.assign| && q.assign[g] == On(e)
    {
      assert g == f || g in u.lists[e];
    }
    forall g | 0 <= g < |q.assign| && q.assign[g].On?
      ensures g in q.lists[q.assign[g].d]
    {
      assert g == f || g in u.lists[u.assign[g].d];
    }
  }

  lemma RelocatedGood(s: State, f: nat, ok: bool)
    requires Good(s) && f < |s.assign|
    ensures Good(Relocated(s, f, ok))
    ensures Relocated(s, f, ok).assign == if s.plan[f].On? && ok then s.assign[f := s.plan[f]] else s.assign
  {
    if s.plan[f].On? && ok {
      AssignedPlaced(Placement(s.lists, s.assign), f, s.plan[f].d);
    }
  }
}

/** The workload record: counted accesses, the sorted array, the band plan and relocation. */
module TierWorkload {
  import opened Tiering
  import opened TierEngine
  import TieringRuns

  predicate AllMembers(fs: seq<File>, a: seq<File>) {
    forall p :: 0 <= p < |a| ==> Member(fs, a[p])
  }

  class Workload {
    const files: seq<File>        // in the order of the file list
    const disks: seq<Unit>
    const sorted: array<File>     // m_file_sorted
    const limits: array<nat>      // m_next_file_index
    var readCount: nat
    var writeCount: nat

    constructor (files: seq<File>, disks: seq<Unit>, sorted: array<File>, limits: array<nat>)
      ensures this.files == files && this.disks == disks && this.sorted == sorted && this.limits == limits
      ensures readCount == 0 && writeCount == 0
    {
      this.files, this.disks, this.sorted, this.limits := files, disks, sorted, limits;
      readCount, writeCount := 0, 0;
    }

    ghost function Ids(): (c: seq<nat>)
      reads sorted
    {
      IdsOf(sorted[..])
    }

    /** The sorted array holds the files, and each file knows its position. */
    ghost predicate Indexed()
      reads sorted, files`index
    {
      Numbered(files) && AllMembers(files, sorted[..]) && Inverse(Ids(), IndexOf(files))
    }

    /** c holds the access counts of the files. */
    ghost predicate Counting(c: seq<nat>)
      reads files`readCount, files`writeCount
    {
      |c| == |files| && forall k :: 0 <= k < |files| ==> c[k] == files[k].readCount + files[k].writeCount
    }

    /** File f stands at position i of the sorted array, and climbing on from there leads to
        the order `goal`. */
    ghost predicate Climbing(f: File, i: nat, c: seq<nat>, goal: seq<nat>)
      reads sorted, files`index, files`readCount, files`writeCount
    {
      Indexed() && i < sorted.Length && sorted[i] == f && Counting(c) && InRange(Ids(), c) && Promote(Ids(), c, i) == goal
    }

    /** The file at position i changes places with the one before it. */
    method StepUp(f: File, i: nat)
      requires Indexed() && 0 < i < sorted.Length && sorted[i] == f
      modifies sorted, files`index
      ensures Indexed() && sorted[i - 1] == f && Ids() == Swapped(old(Ids()), i)
    {
      hide Inverse, IdsOf, IndexOf, AllMembers;
      ghost var a, ids, idx := sorted[..], Ids(), IndexOf(files);
      var g := sorted[i - 1];
      IdsAt(i);
      IdsAt(i - 1);
      sorted[i] := sorted[i - 1];
      sorted[i].index := i;
      sorted[i - 1] := f;
      sorted[i - 1].index := i - 1;
      SwappedIds(a, sorted[..], i);
      SwapInverse(ids, idx, i);
      assert IndexOf(files) == Reindexed(idx, ids, i);
    }

    lemma IdsAt(i: nat)
      requires AllMembers(files, sorted[..]) && i < sorted.Length
      ensures Member(files, sorted[i]) && Ids()[i] == sorted[i].id
    {
      assert Member(files, sorted[..][i]);
    }

    lemma SwappedIds(a: seq<File>, b: seq<File>, i: nat)
      requires 0 < i < |a| && b == a[i := a[i - 1]][i - 1 := a[i]] && AllMembers(files, a)
      ensures AllMembers(files, b) && IdsOf(b) == Swapped(IdsOf(a), i)
    {
      hide IdsOf;
    }

    /** The body of the sort-index loop. */
    method ClimbUp(f: File, i: nat, ghost c: seq<nat>, ghost goal: seq<nat>) returns (j: nat)
      requires Climbing(f, i, c, goal) && i > 0
      requires sorted[i - 1].readCount + sorted[i - 1].writeCount < f.readCount + f.writeCount
      modifies sorted, files`index
      ensures j == i - 1 && Climbing(f, j, c, goal)
    {
      hide Promote, Inverse;
      CountAt(f, i, c, goal);
      PromoteUp(Ids(), c, i);
      StepUp(f, i);
      j := i - 1;
    }

    lemma CountAt(f: File, i: nat, c: seq<nat>, goal: seq<nat>)
      requires Climbing(f, i, c, goal)
      ensures c[Ids()[i]] == f.readCount + f.writeCount
      ensures i > 0 ==> c[Ids()[i - 1]] == sorted[i - 1].readCount + sorted[i - 1].writeCount
    {
      assert Member(files, sorted[..][i]) && (i > 0 ==> Member(files, sorted[..][i - 1]));
    }

    lemma Arrived(f: File, i: nat, c: seq<nat>, goal: seq<nat>)
      requires Climbing(f, i, c, goal)
      requires i > 0 ==> sorted[i - 1].readCount + sorted[i - 1].writeCount >= f.readCount + f.writeCount
      ensures Ids() == goal
    {
      CountAt(f, i, c, goal);
    }

    /** The sort-index loop of workload_file_access. */
    method RepairIndex(f: File, ghost c: seq<nat>, ghost goal: seq<nat>)
      requires Climbing(f, f.index, c, goal)
      modifies sorted, files`index
      ensures Indexed() && Ids() == goal
    {
      var count := f.readCount + f.writeCount;
      var i: nat := f.index;
      while i > 0 && sorted[i - 1].readCount + sorted[i - 1].writeCount < count
        invariant Climbing(f, i, c, goal)
      {
        i := ClimbUp(f, i, c, goal);
      }
      Arrived(f, i, c, goal);
    }

    // -------------------------------------------------------------- the state

    ghost predicate Tallied(s: State)
      reads `readCount, `writeCount, files`readCount, files`writeCount, disks`readCount, disks`writeCount
    {
      ReadsOf(files) == s.fileReads && WritesOf(files) == s.fileWrites && DiskReadsOf(disks) == s.diskReads &&
      DiskWritesOf(disks) == s.diskWrites && readCount == s.totalReads && writeCount == s.totalWrites
    }

    ghost predicate Ordered(s: State)
      reads sorted, limits, files`index
    {
      AllMembers(files, sorted[..]) && Ids() == s.sorted && IndexOf(files) == s.index && limits[..] == s.limits
    }

    ghost predicate Housed(s: State)
      reads files`assignDisk, files`assignNext, files`assignPrev, disks`list, disks`assignFile, disks`assignFileCount
    {
      Consistent(files, disks) && AllLinked(files, disks) && AssignOf(files) == s.assign && ListsOf(disks) == s.lists
    }

    ghost predicate Bound(s: State)
      reads files`reassignDisk
    {
      PlanOf(files) == s.plan && forall i :: 0 <= i < |files| ==> UnitMember(disks, files[i].reassignDisk)
    }

    /** The objects are in state s, and it is a good one. */
    ghost predicate Represents(s: State)
      reads this, sorted, limits, files, disks
    {
      Tallied(s) && Ordered(s) && Housed(s) && Bound(s) && Good(s)
    }

    // -------------------------------------------------------------- a counted access

    lemma DiskOfMember(f: File, s: State)
      requires Housed(s) && Member(files, f)
      ensures UnitMember(disks, f.assignDisk) && s.assign[f.id] == DiskOf(f.assignDisk)
    {
      assert UnitMember(disks, files[f.id].assignDisk);
    }

    /** The counters of workload_file_access. */
    method CountUp(f: File, d: Unit, r: nat, w: nat, ghost s: State)
      requires Tallied(s) && Shaped(s) && Numbered(files) && UnitsNumbered(disks) && Member(files, f)
      requires d.id < |disks| && disks[d.id] == d && s.assign[f.id] == On(d.id)
      modifies f`readCount, f`writeCount, d`readCount, d`writeCount, `readCount, `writeCount
      ensures Tallied(Counted(s, f.id, r, w))
    {
      hide ReadsOf, WritesOf, DiskReadsOf, DiskWritesOf, Bump, Bands, OnDisks;
      CountFile(f, r, w, files);
      CountDisk(d, r, w, disks);
      readCount, writeCount := readCount + r, writeCount + w;
    }

    /** All but the counters. */
    ghost predicate BesidesCounts(s: State)
      reads sorted, limits, files`index, files`reassignDisk
      reads files`assignDisk, files`assignNext, files`assignPrev, disks`list, disks`assignFile, disks`assignFileCount
    {
      Ordered(s) && Housed(s) && Bound(s)
    }

    /** All but the sorted index. */
    ghost predicate BesidesOrder(s: State)
      reads `readCount, `writeCount, files`readCount, files`writeCount, disks`readCount, disks`writeCount
      reads files`assignDisk, files`assignNext, files`assignPrev, disks`list, disks`assignFile, disks`assignFileCount
      reads files`reassignDisk
    {
      Tallied(s) && Housed(s) && Bound(s)
    }

    /** All but the plan. */
    ghost predicate BesidesPlan(s: State)
      reads `readCount, `writeCount, files`readCount, files`writeCount, disks`readCount, disks`writeCount
      reads files`assignDisk, files`assignNext, files`assignPrev, disks`list, disks`assignFile, disks`assignFileCount
      reads sorted, limits, files`index
    {
      Tallied(s) && Ordered(s) && Housed(s)
    }

    lemma WithCounts(s: State, t: State)
      requires BesidesCounts(s) && Tallied(t) && Good(t)
      requires t == s.(fileReads := t.fileReads, fileWrites := t.fileWrites, diskReads := t.diskReads,
                       diskWrites := t.diskWrites, totalReads := t.totalReads, totalWrites := t.totalWrites)
      ensures Represents(t)
    {
    }

    lemma WithPlan(s: State, t: State)
      requires BesidesPlan(s) && Bound(t) && Good(t) && t == s.(plan := t.plan)
      ensures Represents(t)
    {
    }

    method CountStage(f: File, d: Unit, r: nat, w: nat, ghost s: State)
      requires Tallied(s) && Shaped(s) && Numbered(files) && UnitsNumbered(disks) && Member(files, f)
      requires d.id < |disks| && disks[d.id] == d && s.assign[f.id] == On(d.id)
      modifies f`readCount, f`writeCount, d`readCount, d`writeCount, `readCount, `writeCount
      ensures Tallied(Counted(s, f.id, r, w)) && BesidesCounts(s) == old(BesidesCounts(s))
    {
      hide *;
      ghost var before := BesidesCounts(s);
      CountUp(f, d, r, w, s);
      ghost var after := BesidesCounts(s);
    }

    lemma StartClimb(f: File, s: State)
      requires Represents(s) && Member(files, f)
      ensures BesidesOrder(s) && f.id < |s.assign| && Climbing(f, f.index, Counts(s), Resorted(s, f.id).sorted)
    {
      hide Promote, Housed, Bound, ListsMatch, Bands;
      assert s.index[f.id] == f.index && s.sorted[f.index] == f.id;
      assert Member(files, sorted[..][f.index]) && s.sorted[f.index] == sorted[f.index].id;
    }

    method SortStage(f: File, ghost s: State, ghost c: seq<nat>, ghost goal: seq<nat>)
      requires Climbing(f, f.index, c, goal)
      modifies sorted, files`index
      ensures Indexed() && Ids() == goal && limits[..] == old(limits[..]) && BesidesOrder(s) == old(BesidesOrder(s))
    {
      hide *;
      ghost var before := BesidesOrder(s);
      RepairIndex(f, c, goal);
      ghost var after := BesidesOrder(s);
    }

    lemma WithOrder(f: nat, s: State, t: State)
      requires BesidesOrder(s) && Good(s) && f < |s.assign| && t == Resorted(s, f)
      requires Indexed() && Ids() == t.sorted && limits[..] == t.limits
      ensures Represents(t)
    {
      InverseUnique(Ids(), IndexOf(files));
    }

    method PlanStage(ghost s: State)
      requires Matches(s) && BesidesPlan(s)
      modifies files`reassignDisk
      ensures Bound(s.(plan := Planned(s))) && BesidesPlan(s)
    {
      hide BesidesPlan, Matches;
      ghost var before := BesidesPlan(s);
      PlanBands(s);
      ghost var after := BesidesPlan(s);
      assert after;
    }

    /** workload_file_access once the file has been read or written. */
    method CountAccess(f: File, r: nat, w: nat, ghost s: State)
      requires Represents(s) && Member(files, f) && f.assignDisk != null
      modifies f`readCount, f`writeCount, f.assignDisk`readCount, f.assignDisk`writeCount, `readCount, `writeCount
      modifies sorted, files`index, files`reassignDisk
      ensures s.assign[f.id].On? && Represents(Access(s, f.id, r, w))
    {
      DiskOfMember(f, s);
      ghost var s1 := Counted(s, f.id, r, w);
      CountStage(f, f.assignDisk, r, w, s);
      WithCounts(s, s1);
      ghost var s2 := Resorted(s1, f.id);
      StartClimb(f, s1);
      SortStage(f, s1, Counts(s1), s2.sorted);
      WithOrder(f.id, s1, s2);
      PlanStage(s2);
      WithPlan(s2, s2.(plan := Planned(s2)));
    }

    /** workload_file_access. The parameters are what it takes from outside: the access
        method, a random number, whether the disk is in its fake-off time, whether the file
        opens, and whether any byte is transferred. */
    method FileAccess(f: File, how: AccessMethod, roll: nat, faked: bool, opens: bool, filesize: int, transfers: bool,
                      ghost s: State) returns (n: nat)
      requires Represents(s) && Member(files, f)
      modifies files`readCount, files`writeCount, disks`readCount, disks`writeCount, `readCount, `writeCount
      modifies sorted, files`index, files`reassignDisk
      ensures n == 0 ==> Represents(s)
      ensures n > 0 ==> n == 1 && s.assign[f.id].On? && Represents(Access(s, f.id, Reads(how, roll), Writes(how, roll)))
      ensures n > 0 <==> old(f.assignDisk) != null && !faked && opens && (filesize <= 0 || transfers)
    {
      hide Tallied, Ordered, Housed, Bound, Good, Access;
      if f.assignDisk == null {
        return 0;
      }
      DiskOfMember(f, s);
      var r, w := Transfer(how, roll, faked, opens, filesize, transfers);
      if r + w == 0 {
        return 0;
      }
      CountAccess(f, r, w, s);
      return r + w;
    }

    /** The counting of a file written at startup (workload_disk_service). */
    method StartupWrite(f: File, d: Unit, ghost s: State)
      requires Represents(s) && Member(files, f) && f.assignDisk == d
      modifies f`readCount, f`writeCount, d`readCount, d`writeCount, `readCount, `writeCount
      ensures s.assign[f.id].On? && Represents(Counted(s, f.id, 0, 1))
    {
      DiskOfMember(f, s);
      CountStage(f, d, 0, 1, s);
      WithCounts(s, Counted(s, f.id, 0, 1));
    }

    // -------------------------------------------------------------- relocation

    /** All but the lists. */
    ghost predicate BesidesHouses(s: State)
      reads `readCount, `writeCount, files`readCount, files`writeCount, disks`readCount, disks`writeCount
      reads sorted, limits, files`index, files`reassignDisk
    {
      Tallied(s) && Ordered(s) && Bound(s)
    }

    lemma WithHouses(s: State, t: State)
      requires BesidesHouses(s) && Housed(t) && Good(t) && t == s.(lists := t.lists, assign := t.assign)
      ensures Represents(t)
    {
    }

    /** The fields that moving a file between lists leaves alone. */
    twostate predicate FilesKept()
      reads files
    {
      (forall f <- files :: f.readCount == old(f.readCount)) && (forall f <- files :: f.writeCount == old(f.writeCount)) &&
      (forall f <- files :: f.index == old(f.index)) && forall f <- files :: f.reassignDisk == old(f.reassignDisk)
    }

    twostate predicate RestKept()
      reads this, sorted, limits, disks
    {
      sorted[..] == old(sorted[..]) && limits[..] == old(limits[..]) &&
      readCount == old(readCount) && writeCount == old(writeCount) &&
      (forall d <- disks :: d.readCount == old(d.readCount)) && forall d <- disks :: d.writeCount == old(d.writeCount)
    }

    twostate lemma HousesFrame(s: State)
      requires old(BesidesHouses(s)) && FilesKept() && RestKept()
      ensures BesidesHouses(s)
    {
      assert ReadsOf(files) == s.fileReads && WritesOf(files) == s.fileWrites;
      assert DiskReadsOf(disks) == s.diskReads && DiskWritesOf(disks) == s.diskWrites;
      assert IndexOf(files) == s.index && PlanOf(files) == s.plan;
    }

    method AssignKeepingFiles(f: File, u: Unit, moved: bool) returns (ok: bool)
      requires Consistent(files, disks) && AllLinked(files, disks) && Member(files, f) && UnitMember(disks, u)
      modifies files`assignDisk, files`assignNext, files`assignPrev, disks`assignFile, disks`assignFileCount, disks`list
      ensures Consistent(files, disks) && AllLinked(files, disks) && FilesKept()
      ensures ok <==> moved || old(f.assignDisk) == null || old(f.assignDisk) == u
      ensures Place(files, disks) == if ok then Assigned(old(Place(files, disks)), f.id, u.id) else old(Place(files, disks))
    {
      hide Consistent, AllLinked, Place, Assigned;
      ok := Assign(f, u, moved, files, disks);
    }

    method AssignStage(f: File, u: Unit, moved: bool) returns (ok: bool)
      requires Consistent(files, disks) && AllLinked(files, disks) && Member(files, f) && UnitMember(disks, u)
      modifies files`assignDisk, files`assignNext, files`assignPrev, disks`assignFile, disks`assignFileCount, disks`list
      ensures Consistent(files, disks) && AllLinked(files, disks) && FilesKept() && RestKept()
      ensures ok <==> moved || old(f.assignDisk) == null || old(f.assignDisk) == u
      ensures Place(files, disks) == if ok then Assigned(old(Place(files, disks)), f.id, u.id) else old(Place(files, disks))
    {
      hide Consistent, AllLinked, Place, Assigned;
      ok := AssignKeepingFiles(f, u, moved);
    }

    method ClearStage(f: File, ghost s: State)
      requires BesidesPlan(s) && Bound(s) && Numbered(files) && Member(files, f)
      modifies f`reassignDisk
      ensures BesidesPlan(s) && Bound(s.(plan := s.plan[f.id := NoDisk]))
    {
      hide BesidesPlan;
      ghost var before := BesidesPlan(s);
      f.reassignDisk := null;
      ghost var after := BesidesPlan(s);
      assert after;
    }

    lemma Pointers(f: File, s: State)
      requires Represents(s) && Member(files, f)
      ensures UnitMember(disks, f.assignDisk) && s.assign[f.id] == DiskOf(f.assignDisk)
      ensures UnitMember(disks, f.reassignDisk) && s.plan[f.id] == DiskOf(f.reassignDisk)
    {
      assert UnitMember(disks, files[f.id].assignDisk) && UnitMember(disks, files[f.id].reassignDisk);
    }

    method MoveStage(f: File, u: Unit, moved: bool, ghost s: State, ghost m: State)
      requires Represents(s) && Member(files, f) && f.reassignDisk == u && s.plan[f.id] == On(u.id) && UnitMember(disks, u)
      requires Good(m) && m == Relocated(s, f.id, MoveSucceeds(s, f.id, moved)).(plan := s.plan)
      modifies files`assignDisk, files`assignNext, files`assignPrev, disks`assignFile, disks`assignFileCount, disks`list
      ensures Represents(m)
    {
      Pointers(f, s);
      var ok := AssignStage(f, u, moved);
      HousesFrame(s);
      WithHouses(s, m);
    }

    method ClearPlan(f: File, ghost m: State, ghost t: State)
      requires Represents(m) && Member(files, f) && Good(t) && t == m.(plan := m.plan[f.id := NoDisk])
      modifies f`reassignDisk
      ensures Represents(t)
    {
      ClearStage(f, m);
      WithPlan(m, t);
    }

    /** The body of the loop of workload_file_relocate; `moved` tells whether the file
        operations of the move succeed. */
    method RelocateOne(f: File, moved: bool, ghost s: State)
      requires Represents(s) && Member(files, f)
      modifies files`assignDisk, files`assignNext, files`assignPrev, disks`assignFile, disks`assignFileCount, disks`list
      modifies files`reassignDisk
      ensures Represents(Relocated(s, f.id, MoveSucceeds(s, f.id, moved)))
    {
      hide Represents, Good, Shaped, Relocated, MoveSucceeds;
      Shapes(f, s);
      ghost var t := Relocated(s, f.id, MoveSucceeds(s, f.id, moved));
      Pointers(f, s);
      RelocatedGood(s, f.id, MoveSucceeds(s, f.id, moved));
      RelocatedStages(s, f.id, MoveSucceeds(s, f.id, moved));
      if f.reassignDisk == null {
        return;
      }
      ghost var m := t.(plan := s.plan);
      MoveStage(f, f.reassignDisk, moved, s, m);
      ClearPlan(f, m, t);
    }

    lemma Shapes(f: File, s: State)
      requires Represents(s) && Member(files, f)
      ensures Good(s) && Shaped(s) && f.id < |s.assign| && f.id < |s.plan|
    {
    }

    /** A relocation with a move due is the move and then the clearing of the plan. */
    lemma RelocatedStages(s: State, f: nat, ok: bool)
      requires Good(s) && f < |s.assign| && f < |s.plan|
      ensures var t := Relocated(s, f, ok);
        if s.plan[f].NoDisk? then t == s
        else Good(t.(plan := s.plan)) && t.plan == s.plan[f := NoDisk]
    {
      RelocatedGood(s, f, ok);
    }

    method RelocateNext(k: nat, moved: seq<bool>, ghost t: State, ghost goal: State) returns (j: nat, ghost t': State)
      requires Represents(t) && Passing(t, moved, k, goal) && k < |moved| && |moved| == |files|
      modifies files`assignDisk, files`assignNext, files`assignPrev, disks`assignFile, disks`assignFileCount, disks`list
      modifies files`reassignDisk
      ensures j == k + 1 && Represents(t') && Passing(t', moved, j, goal)
    {
      t' := Relocated(t, k, MoveSucceeds(t, k, moved[k]));
      PassStep(t, moved, k, goal);
      assert files[k].id == k;
      RelocateOne(files[k], moved[k], t);
      j := k + 1;
    }

    /** workload_file_relocate; moved[k] tells whether the file operations for file k succeed. */
    method Relocate(moved: seq<bool>, ghost s: State)
      requires Represents(s) && |moved| == |files|
      modifies files`assignDisk, files`assignNext, files`assignPrev, disks`assignFile, disks`assignFileCount, disks`list
      modifies files`reassignDisk
      ensures Represents(PassOf(s, moved, 0))
    {
      ghost var t, goal := s, PassOf(s, moved, 0);
      var k := 0;
      while k < |files|
        invariant Represents(t) && Passing(t, moved, k, goal)
      {
        k, t := RelocateNext(k, moved, t, goal);
      }
    }

    // -------------------------------------------------------------- resets

    method ZeroFiles()
      modifies files`readCount, files`writeCount
      ensures ReadsOf(files) == Zeros(|files|) && WritesOf(files) == Zeros(|files|)
    {
      for k := 0 to |files|
        invariant forall i :: 0 <= i < k ==> files[i].readCount == 0 && files[i].writeCount == 0
      {
        files[k].readCount, files[k].writeCount := 0, 0;
      }
    }

    method ZeroDisks()
      modifies disks`readCount, disks`writeCount
      ensures DiskReadsOf(disks) == Zeros(|disks|) && DiskWritesOf(disks) == Zeros(|disks|)
    {
      for k := 0 to |disks|
        invariant forall i :: 0 <= i < k ==> disks[i].readCount == 0 && disks[i].writeCount == 0
      {
        disks[k].readCount, disks[k].writeCount := 0, 0;
      }
    }

    method ZeroFileStage(ghost s: State)
      requires BesidesCounts(s)
      modifies files`readCount, files`writeCount
      ensures BesidesCounts(s) && ReadsOf(files) == Zeros(|files|) && WritesOf(files) == Zeros(|files|)
    {
      hide *;
      ghost var before := BesidesCounts(s);
      ZeroFiles();
      ghost var after := BesidesCounts(s);
      assert after;
    }

    method ZeroDiskStage(ghost s: State)
      requires BesidesCounts(s)
      modifies disks`readCount, disks`writeCount
      ensures BesidesCounts(s) && DiskReadsOf(disks) == Zeros(|disks|) && DiskWritesOf(disks) == Zeros(|disks|)
    {
      hide *;
      ghost var before := BesidesCounts(s);
      ZeroDisks();
      ghost var after := BesidesCounts(s);
      assert after;
    }

    lemma Parts(s: State)
      requires Represents(s)
      ensures BesidesCounts(s) && Tallied(s) && Good(s) && Sizes(s)
    {
      hide Ordered, Housed, Bound, Tallied;
    }

    /** Counters do not matter to the shape of a state. */
    lemma GoodWithCounts(s: State, t: State)
      requires Good(s) && Sizes(t)
      requires t == s.(fileReads := t.fileReads, fileWrites := t.fileWrites, diskReads := t.diskReads,
                       diskWrites := t.diskWrites, totalReads := t.totalReads, totalWrites := t.totalWrites)
      ensures Good(t)
    {
      hide Inverse, ListsMatch, Bands, OnDisks;
    }

    method ResetFileCounts(ghost s: State, ghost t: State)
      requires Represents(s) && t == s.(fileReads := Zeros(|files|), fileWrites := Zeros(|files|))
      modifies files`readCount, files`writeCount
      ensures Represents(t)
    {
      hide Represents, BesidesCounts, Good;
      Parts(s);
      GoodWithCounts(s, t);
      ghost var dr, dw := DiskReadsOf(disks), DiskWritesOf(disks);
      ZeroFileStage(s);
      assert DiskReadsOf(disks) == dr;
      assert DiskWritesOf(disks) == dw;
      WithCounts(s, t);
    }

    /** The counter resets of workload_set_main_relocate and workload_toggle_main_relocate. */
    method ResetDiskCounts(ghost s: State)
      requires Represents(s)
      modifies disks`readCount, disks`writeCount
      ensures Represents(ResetDisks(s))
    {
      hide Represents, BesidesCounts, Good;
      Parts(s);
      GoodWithCounts(s, ResetDisks(s));
      ghost var fr, fw := ReadsOf(files), WritesOf(files);
      ZeroDiskStage(s);
      assert ReadsOf(files) == fr;
      assert WritesOf(files) == fw;
      WithCounts(s, ResetDisks(s));
    }

    method ResetTotals(ghost s: State, ghost t: State)
      requires Represents(s) && t == s.(totalReads := 0, totalWrites := 0)
      modifies `readCount, `writeCount
      ensures Represents(t)
    {
      hide Represents, BesidesCounts, Good;
      Parts(s);
      GoodWithCounts(s, t);
      ghost var before := BesidesCounts(s);
      readCount, writeCount := 0, 0;
      ghost var after := BesidesCounts(s);
      assert after;
      WithCounts(s, t);
    }

    /** workload_reset_file_access_count */
    method ResetFileAccessCount(ghost s: State)
      requires Represents(s)
      modifies files`readCount, files`writeCount, disks`readCount, disks`writeCount, `readCount, `writeCount
      ensures Represents(ResetCounts(s))
    {
      ghost var s1 := s.(fileReads := Zeros(|files|), fileWrites := Zeros(|files|));
      ResetFileCounts(s, s1);
      ResetDiskCounts(s1);
      ResetTotals(ResetDisks(s1), ResetCounts(s));
    }

    /** s describes everything the planning loops read. */
    ghost predicate Matches(s: State)
      reads sorted, limits, files`index, files`assignDisk
    {
      Good(s) && Indexed() && s.sorted == Ids() && s.index == IndexOf(files) && s.assign == AssignOf(files) &&
      s.limits == limits[..] && |s.lists| == |disks| && UnitsNumbered(disks) &&
      forall i :: 0 <= i < |files| ==> UnitMember(disks, files[i].assignDisk)
    }

    /** The planning loops of workload_file_access. */
    method PlanBands(ghost s: State)
      requires Matches(s)
      modifies files`reassignDisk
      ensures PlanOf(files) == Planned(s)
      ensures forall i :: 0 <= i < |files| ==> UnitMember(disks, files[i].reassignDisk)
    {
      hide Matches, PlannedAt;
      var i: nat := 0;
      for d := 0 to |disks|
        invariant Matches(s) && BandsEnd(s, d, i) && PlannedTo(s, i)
      {
        BandIsLimit(s, d, i);
        while i < limits[d]
          invariant Matches(s) && BandStart(s.limits, d) <= i <= limits[d] && PlannedTo(s, i)
        {
          i := PlanOne(s, i, d);
        }
      }
      AllPlanned(s, i);
    }

    /** i is the end of the first d bands. */
    ghost predicate BandsEnd(s: State, d: nat, i: nat) {
      d <= |s.limits| && i == if d == 0 then 0 else s.limits[d - 1]
    }

    lemma BandIsLimit(s: State, d: nat, i: nat)
      requires Matches(s) && BandsEnd(s, d, i) && d < |disks|
      ensures d < limits.Length && d < |s.limits| && limits[d] == s.limits[d] && i == BandStart(s.limits, d) <= limits[d]
      ensures limits[d] <= |s.sorted|
    {
      hide Indexed;
    }

    ghost predicate PlannedTo(s: State, i: nat)
      requires Matches(s)
      reads sorted, limits, files`index, files`assignDisk, files`reassignDisk
    {
      forall p :: 0 <= p < i ==> PlannedAt(s, p)
    }

    lemma AllPlanned(s: State, i: nat)
      requires Matches(s) && BandsEnd(s, |disks|, i) && PlannedTo(s, i)
      ensures PlanOf(files) == Planned(s)
      ensures forall i :: 0 <= i < |files| ==> UnitMember(disks, files[i].reassignDisk)
    {
      hide Target;
      BandsCover(s, i);
      hide Matches, BandsEnd;
      forall k | 0 <= k < |files|
        ensures DiskOf(files[k].reassignDisk) == Target(s, k) && UnitMember(disks, files[k].reassignDisk)
      {
        PositionOf(s, k);
        assert PlannedAt(s, s.index[k]);
      }
    }

    lemma BandsCover(s: State, i: nat)
      requires Matches(s) && BandsEnd(s, |disks|, i)
      ensures i == |s.sorted| && |s.assign| == |files| && |s.index| == |files|
    {
      hide Indexed;
    }

    lemma PositionOf(s: State, k: nat)
      requires Matches(s) && k < |files|
      ensures k < |s.index| && s.index[k] < |s.sorted| && s.sorted[s.index[k]] == k
    {
      hide Indexed;
    }

    /** The file at position p has its planned target. */
    ghost predicate PlannedAt(s: State, p: nat)
      requires Matches(s)
      reads sorted, limits, files`index, files`assignDisk, files`reassignDisk
    {
      p < |s.sorted| && s.sorted[p] < |files| &&
      DiskOf(files[s.sorted[p]].reassignDisk) == Target(s, s.sorted[p]) &&
      UnitMember(disks, files[s.sorted[p]].reassignDisk)
    }

    /** The file at position i differs from those before it. */
    lemma FileAt(s: State, i: nat)
      requires Matches(s) && i < |s.sorted|
      ensures i < sorted.Length && Member(files, sorted[i]) && s.sorted[i] == sorted[i].id
      ensures forall p :: 0 <= p < i ==> s.sorted[p] < |files| && files[s.sorted[p]] != sorted[i]
    {
      assert Member(files, sorted[..][i]);
      forall p | 0 <= p < i
        ensures s.sorted[p] < |files| && files[s.sorted[p]] != sorted[i]
      {
        assert s.index[s.sorted[p]] == p && s.index[s.sorted[i]] == i;
        assert files[s.sorted[p]].id == s.sorted[p];
      }
    }

    method PlanOne(ghost s: State, i: nat, d: nat)
      returns (j: nat)
      requires Matches(s) && InBand(s.limits, d, i) && i < |s.sorted| && PlannedTo(s, i)
      modifies files`reassignDisk
      ensures j == i + 1 && Matches(s) && PlannedTo(s, j)
    {
      hide Matches, Target;
      FileAt(s, i);
      TargetAt(s, i, d);
      var f := sorted[i];
      f.reassignDisk := if f.assignDisk == disks[d] then null else disks[d];
      assert Matches(s);
      forall p | 0 <= p < i
        ensures PlannedAt(s, p)
      {
        assert old(PlannedAt(s, p));
      }
      j := i + 1;
    }

    lemma TargetAt(s: State, i: nat, d: nat)
      requires Matches(s) && InBand(s.limits, d, i) && i < |s.sorted|
      ensures s.sorted[i] < |files| && d < |disks| && disks[d].id == d
      ensures Target(s, s.sorted[i]) == if files[s.sorted[i]].assignDisk == disks[d] then NoDisk else On(d)
    {
      BandUnique(s.limits, |s.assign|, i, d);
      assert s.index[s.sorted[i]] == i;
      var k := s.sorted[i];
      assert UnitMember(disks, files[k].assignDisk) && s.assign[k] == DiskOf(files[k].assignDisk);
    }
  }

  datatype AccessMethod = ReadOnly | WriteOnly | Mixed

  function Writes(how: AccessMethod, roll: nat): (w: nat)
    ensures w <= 1
  {
    match how
    case ReadOnly => 0
    case WriteOnly => 1
    case Mixed => roll % 2
  }

  function Reads(how: AccessMethod, roll: nat): (r: nat)
    ensures r + Writes(how, roll) == 1
  {
    1 - Writes(how, roll)
  }

  /** What a read or write of a file counts. */
  method Transfer(how: AccessMethod, roll: nat, faked: bool, opens: bool, filesize: int, transfers: bool)
    returns (r: nat, w: nat)
    ensures if !faked && opens && (filesize <= 0 || transfers) then r == Reads(how, roll) && w == Writes(how, roll) else r == w == 0
  {
    var mode: nat;
    match how {
      case ReadOnly => mode := 0;
      case WriteOnly => mode := 1;
      case Mixed => mode := roll % 2;
    }
    r, w := 0, 0;
    if faked {
    } else if mode == 0 {
      if opens {
        if filesize <= 0 { r := 1; }
        if transfers { r := 1; }
      }
    } else if opens {
      if filesize <= 0 { w := 1; }
      if transfers { w := 1; }
    }
  }

  /** workload_assign_file_to_disk only needs the file operations for a file that has to move. */
  predicate MoveSucceeds(s: State, f: nat, moved: bool)
    requires Sizes(s) && f < |s.assign|
  {
    moved || s.assign[f].NoDisk? || s.assign[f] == s.plan[f]
  }

  /** workload_file_relocate from file k on. */
  function PassOf(s: State, moved: seq<bool>, k: nat): State
    requires Good(s) && k <= |s.assign| == |moved|
    decreases |moved| - k
  {
    if k == |moved| then s
    else
      RelocatedGood(s, k, MoveSucceeds(s, k, moved[k]));
      PassOf(Relocated(s, k, MoveSucceeds(s, k, moved[k])), moved, k + 1)
  }

  /** With every move succeeding this is the complete pass that realises the tiers. */
  lemma {:induction false} PassOfSuccesses(s: State, moved: seq<bool>, k: nat)
    requires Good(s) && k <= |s.assign| == |moved| && forall i :: k <= i < |moved| ==> moved[i]
    ensures PassOf(s, moved, k) == TieringRuns.Pass(s, k)
    decreases |moved| - k
  {
    if k < |moved| {
      RelocatedGood(s, k, true);
      PassOfSuccesses(Relocated(s, k, true), moved, k + 1);
    }
  }

  predicate Passing(t: State, moved: seq<bool>, k: nat, goal: State) {
    Good(t) && k <= |t.assign| == |moved| && PassOf(t, moved, k) == goal
  }

  lemma PassStep(t: State, moved: seq<bool>, k: nat, goal: State)
    requires Passing(t, moved, k, goal) && k < |moved|
    ensures Passing(Relocated(t, k, MoveSucceeds(t, k, moved[k])), moved, k + 1, goal)
  {
    RelocatedGood(t, k, MoveSucceeds(t, k, moved[k]));
  }

  predicate InRange(ids: seq<nat>, c: seq<nat>) {
    forall q :: 0 <= q < |ids| ==> ids[q] < |c|
  }

  lemma PromoteUp(ids: seq<nat>, c: seq<nat>, i: nat)
    requires InRange(ids, c) && 0 < i < |ids| && c[ids[i - 1]] < c[ids[i]]
    ensures InRange(Swapped(ids, i), c) && Promote(ids, c, i) == Promote(Swapped(ids, i), c, i - 1)
  {
  }

  lemma SwapInverse(ids: seq<nat>, idx: seq<nat>, i: nat)
    requires Inverse(ids, idx) && 0 < i < |ids|
    ensures Inverse(Swapped(ids, i), Reindexed(idx, ids, i))
  {
  }

  function Reindexed(idx: seq<nat>, ids: seq<nat>, i: nat): (r: seq<nat>)
    requires 0 < i < |ids| && ids[i - 1] < |idx| && ids[i] < |idx|
    ensures |r| == |idx|
  {
    var j: nat := i - 1;
    idx[ids[j] := i][ids[i] := j]
  }
}

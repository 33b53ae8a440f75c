/** The tiering engine's objects: file and disk records linked by pointers, updated in place.
    Every operation is tied to the step of the state machine it carries out. */
module TierEngine {
  import opened Arithmetic
  import opened Tiering

  class File {
    const id: nat
    var readCount: nat
    var writeCount: nat
    var index: nat               // position in the sorted array
    var assignDisk: Unit?
    var reassignDisk: Unit?
    var assignPrev: File?
    var assignNext: File?

    constructor (id: nat)
      ensures this.id == id && readCount == writeCount == 0
      ensures assignDisk == null && reassignDisk == null && assignPrev == null && assignNext == null
    {
      this.id := id;
      readCount, writeCount, index := 0, 0, 0;
      assignDisk, reassignDisk, assignPrev, assignNext := null, null, null, null;
    }
  }

  /** A disk record. */
  class Unit {
    const id: nat
    var readCount: nat
    var writeCount: nat
    var assignFileCount: nat
    var assignFile: File?        // head of the list of its files
    ghost var list: seq<File>    // that list

    constructor (id: nat)
      ensures this.id == id && readCount == writeCount == assignFileCount == 0 && assignFile == null && list == []
    {
      this.id := id;
      readCount, writeCount, assignFileCount := 0, 0, 0;
      assignFile := null;
      list := [];
    }
  }

  // ---------------------------------------------------------------- abstraction

  ghost function ReadsOf(fs: seq<File>): (c: seq<nat>)
    reads fs`readCount
    ensures |c| == |fs| && forall i :: 0 <= i < |fs| ==> c[i] == fs[i].readCount
  {
    if fs == [] then [] else [fs[0].readCount] + ReadsOf(fs[1..])
  }

  ghost function WritesOf(fs: seq<File>): (c: seq<nat>)
    reads fs`writeCount
    ensures |c| == |fs| && forall i :: 0 <= i < |fs| ==> c[i] == fs[i].writeCount
  {
    if fs == [] then [] else [fs[0].writeCount] + WritesOf(fs[1..])
  }

  ghost function IndexOf(fs: seq<File>): (c: seq<nat>)
    reads fs`index
    ensures |c| == |fs| && forall i :: 0 <= i < |fs| ==> c[i] == fs[i].index
  {
    if fs == [] then [] else [fs[0].index] + IndexOf(fs[1..])
  }

  function DiskOf(u: Unit?): Disk {
    if u == null then NoDisk else On(u.id)
  }

  ghost function AssignOf(fs: seq<File>): (c: seq<Disk>)
    reads fs`assignDisk
    ensures |c| == |fs| && forall i :: 0 <= i < |fs| ==> c[i] == DiskOf(fs[i].assignDisk)
  {
    if fs == [] then [] else [DiskOf(fs[0].assignDisk)] + AssignOf(fs[1..])
  }

  ghost function PlanOf(fs: seq<File>): (c: seq<Disk>)
    reads fs`reassignDisk
    ensures |c| == |fs| && forall i :: 0 <= i < |fs| ==> c[i] == DiskOf(fs[i].reassignDisk)
  {
    if fs == [] then [] else [DiskOf(fs[0].reassignDisk)] + PlanOf(fs[1..])
  }

  function IdsOf(fs: seq<File>): (c: seq<nat>)
    ensures |c| == |fs| && forall i :: 0 <= i < |fs| ==> c[i] == fs[i].id
  {
    if fs == [] then [] else [fs[0].id] + IdsOf(fs[1..])
  }

  ghost function DiskReadsOf(us: seq<Unit>): (c: seq<nat>)
    reads us`readCount
    ensures |c| == |us| && forall i :: 0 <= i < |us| ==> c[i] == us[i].readCount
  {
    if us == [] then [] else [us[0].readCount] + DiskReadsOf(us[1..])
  }

  ghost function DiskWritesOf(us: seq<Unit>): (c: seq<nat>)
    reads us`writeCount
    ensures |c| == |us| && forall i :: 0 <= i < |us| ==> c[i] == us[i].writeCount
  {
    if us == [] then [] else [us[0].writeCount] + DiskWritesOf(us[1..])
  }

  ghost function ListsOf(us: seq<Unit>): (c: seq<seq<nat>>)
    reads us`list
    ensures |c| == |us| && forall i :: 0 <= i < |us| ==> c[i] == IdsOf(us[i].list)
  {
    if us == [] then [] else [IdsOf(us[0].list)] + ListsOf(us[1..])
  }

  ghost function CountsOf(us: seq<Unit>): (c: seq<nat>)
    reads us`assignFileCount
    ensures |c| == |us| && forall i :: 0 <= i < |us| ==> c[i] == us[i].assignFileCount
  {
    if us == [] then [] else [us[0].assignFileCount] + CountsOf(us[1..])
  }

  ghost function FileLists(us: seq<Unit>): (c: seq<seq<File>>)
    reads us`list
    ensures |c| == |us| && forall i :: 0 <= i < |us| ==> c[i] == us[i].list
  {
    if us == [] then [] else [us[0].list] + FileLists(us[1..])
  }

  predicate Numbered(fs: seq<File>) {
    forall i :: 0 <= i < |fs| ==> fs[i].id == i
  }

  predicate UnitsNumbered(us: seq<Unit>) {
    forall i :: 0 <= i < |us| ==> us[i].id == i
  }

  /** f is one of the files. */
  predicate Member(fs: seq<File>, f: File) {
    f.id < |fs| && fs[f.id] == f
  }

  predicate UnitMember(us: seq<Unit>, u: Unit?) {
    u == null || (u.id < |us| && us[u.id] == u)
  }

  // ---------------------------------------------------------------- the linked list of a disk

  function Get(fs: seq<File>, k: int): (f: File?) {
    if 0 <= k < |fs| then fs[k] else null
  }

  /** The disk's doubly linked list is `list`: prev and next are mutual inverses along it, and
      m_assign_file_count is its length. */
  ghost predicate Linked(u: Unit)
    reads u`list, u`assignFile, u`assignFileCount, u.list`assignNext, u.list`assignPrev
  {
    u.assignFile == Get(u.list, 0) && u.assignFileCount == |u.list| &&
    (forall k {:trigger u.list[k].assignNext} :: 0 <= k < |u.list| ==> u.list[k].assignNext == Get(u.list, k + 1)) &&
    (forall k {:trigger u.list[k].assignPrev} :: 0 <= k < |u.list| ==> u.list[k].assignPrev == Get(u.list, k - 1)) &&
    forall j, k :: 0 <= j < k < |u.list| ==> u.list[j] != u.list[k]
  }

  function Without(fs: seq<File>, k: nat): seq<File>
    requires k < |fs|
  {
    fs[..k] + fs[k + 1..]
  }

  /** Once the neighbours of the k-th file lead past it, the rest is linked. */
  lemma Rejoined(l: seq<File>, k: nat, t: seq<File>)
    requires k < |l| && t == Without(l, k)
    requires forall j {:trigger l[j].assignNext} :: 0 <= j < |l| && j != k ==>
      l[j].assignNext == Get(l, if j + 1 == k then k + 1 else j + 1)
    requires forall j {:trigger l[j].assignPrev} :: 0 <= j < |l| && j != k ==>
      l[j].assignPrev == Get(l, if j == k + 1 then k - 1 else j - 1)
    ensures forall j {:trigger t[j].assignNext} :: 0 <= j < |t| ==> t[j].assignNext == Get(t, j + 1)
    ensures forall j {:trigger t[j].assignPrev} :: 0 <= j < |t| ==> t[j].assignPrev == Get(t, j - 1)
  {
    forall j | 0 <= j < |t|
      ensures t[j].assignNext == Get(t, j + 1) && t[j].assignPrev == Get(t, j - 1)
    {
      var m := if j < k then j else j + 1;
      assert t[j] == l[m] && (j + 1 < |t| ==> t[j + 1] == l[if j + 1 < k then j + 1 else j + 2]);
      assert j > 0 ==> t[j - 1] == l[if j - 1 < k then j - 1 else j];
    }
  }

  /** Takes the k-th file out of the disk's list; its own links are left to the caller. */
  method Unlink(u: Unit, f: File, ghost k: nat)
    requires Linked(u) && k < |u.list| && f == u.list[k]
    modifies u`assignFile, u`assignFileCount, u`list, u.list`assignNext, u.list`assignPrev
    ensures Linked(u) && u.list == Without(old(u.list), k)
  {
    if f.assignNext != null {
      f.assignNext.assignPrev := f.assignPrev;
    }
    if f.assignPrev == null {
      u.assignFile := f.assignNext;
    } else {
      f.assignPrev.assignNext := f.assignNext;
    }
    u.assignFileCount := u.assignFileCount - 1;
    ghost var l, t := u.list, Without(u.list, k);
    Rejoined(l, k, t);
    assert forall j :: 0 <= j < |t| ==> t[j] == if j < k then l[j] else l[j + 1];
    u.list := t;
  }

  /** Puts a file at the head of the disk's list. */
  method Link(u: Unit, f: File)
    requires Linked(u) && f !in u.list
    modifies u`assignFile, u`assignFileCount, u`list, f`assignNext, f`assignPrev, u.list`assignPrev
    ensures Linked(u) && u.list == [f] + old(u.list)
  {
    f.assignPrev := null;
    f.assignNext := u.assignFile;
    if u.assignFile != null {
      u.assignFile.assignPrev := f;
    }
    u.assignFile := f;
    u.assignFileCount := u.assignFileCount + 1;
    ghost var l, t := u.list, [f] + u.list;
    u.list := t;
    forall j | 0 <= j < |t|
      ensures t[j].assignNext == Get(t, j + 1) && t[j].assignPrev == Get(t, j - 1)
    {
      if j > 0 {
        assert t[j] == l[j - 1];
      }
    }
  }

  // ---------------------------------------------------------------- all lists together

  ghost function Place(fs: seq<File>, us: seq<Unit>): Placement
    reads fs`assignDisk, us`list
  {
    Placement(ListsOf(us), AssignOf(fs))
  }

  ghost predicate Consistent(fs: seq<File>, us: seq<Unit>)
    reads fs`assignDisk, us`list
  {
    Numbered(fs) && UnitsNumbered(us) && (forall i :: 0 <= i < |fs| ==> UnitMember(us, fs[i].assignDisk)) &&
    (forall d :: 0 <= d < |us| ==> ListMembers(fs, us[d].list)) && Placed(Place(fs, us))
  }

  predicate ListMembers(fs: seq<File>, l: seq<File>) {
    forall k :: 0 <= k < |l| ==> Member(fs, l[k])
  }

  ghost predicate AllLinked(fs: seq<File>, us: seq<Unit>)
    reads fs`assignNext, fs`assignPrev, us`list, us`assignFile, us`assignFileCount
  {
    forall d :: 0 <= d < |us| ==> MembersOwned(fs, us[d].list) && Linked(us[d])
  }

  predicate MembersOwned(fs: seq<File>, l: seq<File>) {
    forall k :: 0 <= k < |l| ==> l[k] in fs
  }

  /** Distinct disks list distinct files. */
  lemma ListsDisjoint(fs: seq<File>, us: seq<Unit>, d: nat, e: nat)
    requires Consistent(fs, us) && d < |us| && e < |us| && d != e
    ensures forall k :: 0 <= k < |us[d].list| ==> us[d].list[k] !in us[e].list
  {
    forall k | 0 <= k < |us[d].list|
      ensures us[d].list[k] !in us[e].list
    {
      var f := us[d].list[k];
      assert IdsOf(us[d].list)[k] == f.id && f.id in ListsOf(us)[d];
      forall j | 0 <= j < |us[e].list|
        ensures us[e].list[j] != f
      {
        assert IdsOf(us[e].list)[j] == us[e].list[j].id && us[e].list[j].id in ListsOf(us)[e];
      }
    }
  }

  /** Where an assigned file stands on its disk's list. */
  lemma OnItsList(fs: seq<File>, us: seq<Unit>, f: File) returns (k: nat)
    requires Consistent(fs, us) && Member(fs, f) && f.assignDisk != null
    ensures f.assignDisk == us[f.assignDisk.id] && k < |f.assignDisk.list| && f.assignDisk.list[k] == f
  {
    var d := f.assignDisk.id;
    assert UnitMember(us, fs[f.id].assignDisk);
    assert AssignOf(fs)[f.id] == On(d);
    assert f.id in ListsOf(us)[d];
    k :| 0 <= k < |IdsOf(us[d].list)| && IdsOf(us[d].list)[k] == f.id;
    assert ListMembers(fs, us[d].list);
  }

  lemma NotOnOtherList(fs: seq<File>, us: seq<Unit>, f: File, e: nat)
    requires Consistent(fs, us) && Member(fs, f) && e < |us| && AssignOf(fs)[f.id] != On(e)
    ensures f !in us[e].list
  {
    forall j | 0 <= j < |us[e].list|
      ensures us[e].list[j] != f
    {
      assert IdsOf(us[e].list)[j] == us[e].list[j].id && us[e].list[j].id in ListsOf(us)[e];
    }
  }

  lemma {:induction false} DroppedAt(a: seq<nat>, k: nat)
    requires k < |a| && NoRepeats(a)
    ensures Dropped(a, a[k]) == a[..k] + a[k + 1..]
  {
    if k > 0 {
      assert a[0] != a[k];
      assert forall i :: 0 <= i < |a| - 1 ==> a[1..][i] == a[i + 1];
      DroppedAt(a[1..], k - 1);
      assert a[..k] + a[k + 1..] == [a[0]] + (a[1..][..k - 1] + a[1..][k..]);
    } else {
      assert a[..0] + a[1..] == a[1..];
    }
  }

  lemma IdsWithout(l: seq<File>, k: nat)
    requires k < |l|
    ensures IdsOf(Without(l, k)) == IdsOf(l)[..k] + IdsOf(l)[k + 1..]
  {
    hide IdsOf, Without;
    var t, a := Without(l, k), IdsOf(l);
    var x, y := IdsOf(t), a[..k] + a[k + 1..];
    WithoutSize(l, k);
    forall j | 0 <= j < |x|
      ensures x[j] == y[j]
    {
      WithoutAt(l, k, j);
    }
  }

  lemma WithoutSize(l: seq<File>, k: nat)
    requires k < |l|
    ensures |Without(l, k)| == |l| - 1
  {
  }

  lemma WithoutAt(l: seq<File>, k: nat, j: nat)
    requires k < |l| && j < |l| - 1
    ensures |Without(l, k)| == |l| - 1 && Without(l, k)[j] == l[if j < k then j else j + 1]
  {
  }

  lemma WithoutIsDropped(l: seq<File>, k: nat)
    requires k < |l| && NoRepeats(IdsOf(l))
    ensures IdsOf(Without(l, k)) == Dropped(IdsOf(l), l[k].id)
  {
    hide IdsOf, NoRepeats, Dropped, Without;
    DroppedAt(IdsOf(l), k);
    IdsWithout(l, k);
  }

  predicate Apart(a: seq<File>, b: seq<File>) {
    forall k :: 0 <= k < |a| ==> a[k] !in b
  }

  /** No file is on two lists. */
  ghost predicate AllApart(us: seq<Unit>)
    reads us`list
  {
    forall d, e :: 0 <= d < |us| && 0 <= e < |us| && d != e ==> Apart(us[d].list, us[e].list)
  }

  /** The list of one disk shrinks or grows; the others stay apart. */
  method TakeOff(f: File, u: Unit, ghost fs: seq<File>, ghost us: seq<Unit>, ghost k: nat)
    requires UnitsNumbered(us) && UnitMember(us, u) && AllLinked(fs, us) && AllApart(us)
    requires k < |u.list| && u.list[k] == f
    modifies f`assignDisk, f`assignNext, f`assignPrev
    modifies u`assignFile, u`assignFileCount, u`list, u.list`assignNext, u.list`assignPrev
    ensures AllLinked(fs, us) && u.list == Without(old(u.list), k) && f.assignDisk == null
    ensures f.assignNext == null && f.assignPrev == null
  {
    ghost var l := u.list;
    forall e | 0 <= e < |us| && us[e] != u
      ensures Apart(us[e].list, l) && Linked(us[e])
    {
      assert e != u.id;
    }
    Unlink(u, f, k);
    assert forall e :: 0 <= e < |us| && us[e] != u ==> Linked(us[e]);
    f.assignDisk := null;
    f.assignPrev, f.assignNext := null, null;
    assert f !in u.list;
    assert Linked(u);
    forall e | 0 <= e < |us|
      ensures MembersOwned(fs, us[e].list) && Linked(us[e])
    {
      if us[e] != u {
        assert f !in us[e].list by { assert f in l; assert Apart(us[e].list, l); }
      } else {
        assert forall j :: 0 <= j < |u.list| ==> u.list[j] in l;
      }
    }
  }

  /** The assigning half of workload_assign_file_to_disk. */
  method PutOn(f: File, u: Unit, ghost fs: seq<File>, ghost us: seq<Unit>)
    requires UnitsNumbered(us) && UnitMember(us, u) && AllLinked(fs, us) && f in fs
    requires forall e :: 0 <= e < |us| ==> f !in us[e].list && (us[e] != u ==> Apart(us[e].list, u.list))
    modifies f`assignDisk, f`assignNext, f`assignPrev
    modifies u`assignFile, u`assignFileCount, u`list, u.list`assignPrev
    ensures AllLinked(fs, us) && u.list == [f] + old(u.list) && f.assignDisk == u
  {
    ghost var l := u.list;
    forall e | 0 <= e < |us| && us[e] != u
      ensures Apart(us[e].list, l) && Linked(us[e])
    {
    }
    Link(u, f);
    f.assignDisk := u;
    forall e | 0 <= e < |us|
      ensures MembersOwned(fs, us[e].list) && Linked(us[e])
    {
      if us[e] == u {
        assert MembersOwned(fs, l);
      }
    }
  }

  // ---------------------------------------------------------------- the operations on placements

  lemma Distances(fs: seq<File>, us: seq<Unit>)
    requires Consistent(fs, us)
    ensures AllApart(us)
  {
    forall d, e | 0 <= d < |us| && 0 <= e < |us| && d != e
      ensures Apart(us[d].list, us[e].list)
    {
      ListsDisjoint(fs, us, d, e);
    }
  }

  lemma IsConsistent(fs: seq<File>, us: seq<Unit>, q: Placement)
    requires Numbered(fs) && UnitsNumbered(us) && Placed(q)
    requires |q.lists| == |us| && forall d :: 0 <= d < |us| ==> IdsOf(us[d].list) == q.lists[d]
    requires |q.assign| == |fs| && forall i :: 0 <= i < |fs| ==> DiskOf(fs[i].assignDisk) == q.assign[i]
    requires forall i :: 0 <= i < |fs| ==> UnitMember(us, fs[i].assignDisk)
    requires forall d :: 0 <= d < |us| ==> ListMembers(fs, us[d].list)
    ensures Consistent(fs, us) && Place(fs, us) == q
  {
    assert ListsOf(us) == q.lists;
    assert AssignOf(fs) == q.assign;
  }

  /** workload_deassign_file for an assigned file. */
  method DeassignFrom(f: File, u: Unit, ghost fs: seq<File>, ghost us: seq<Unit>)
    requires Consistent(fs, us) && AllLinked(fs, us) && Member(fs, f) && f.assignDisk == u
    modifies fs`assignDisk, fs`assignNext, fs`assignPrev, us`assignFile, us`assignFileCount, us`list
    ensures Consistent(fs, us) && AllLinked(fs, us) && f.assignDisk == null
    ensures Place(fs, us) == Deassigned(old(Place(fs, us)), f.id)
  {
    hide Consistent, AllLinked, AllApart, Deassigned, IdsOf, Placed, ListMembers, Without;
    ghost var p, ls := Place(fs, us), FileLists(us);
    Housing(fs, us, p, ls);
    ghost var k := OnItsList(fs, us, f);
    Distances(fs, us);
    OwnList(fs, us, u);
    MemberIn(fs, f);
    TakeOff(f, u, fs, us, k);
    Unsettled(fs, us, ls, p, f, u, k);
  }

  /** After f, the k-th file on the list of u, has been taken off it. */
  lemma Unsettled(fs: seq<File>, us: seq<Unit>, ls: seq<seq<File>>, p: Placement, f: File, u: Unit, k: nat)
    requires Numbered(fs) && UnitsNumbered(us) && Placed(p) && |ls| == |p.lists| == |us| && |p.assign| == |fs|
    requires forall e :: 0 <= e < |us| ==> IdsOf(ls[e]) == p.lists[e] && ListMembers(fs, ls[e])
    requires Member(fs, f) && u.id < |us| && us[u.id] == u && p.assign[f.id] == On(u.id) && OnDisks(p.assign, |p.lists|)
    requires k < |ls[u.id]| && ls[u.id][k] == f
    requires forall e :: 0 <= e < |us| ==> us[e].list == if us[e] == u then Without(ls[u.id], k) else ls[e]
    requires forall i :: 0 <= i < |fs| ==> UnitMember(us, fs[i].assignDisk)
    requires forall i :: 0 <= i < |fs| ==> DiskOf(fs[i].assignDisk) == if fs[i] == f then NoDisk else p.assign[i]
    ensures Consistent(fs, us) && Place(fs, us) == Deassigned(p, f.id)
  {
    hide Consistent, IdsOf, Dropped, NoRepeats;
    var q := Deassigned(p, f.id);
    DeassignedPlaced(p, f.id);
    WithoutIsDropped(ls[u.id], k);
    WithoutMembers(fs, ls[u.id], k);
    forall d | 0 <= d < |us|
      ensures IdsOf(us[d].list) == q.lists[d] && ListMembers(fs, us[d].list)
    {
      assert us[d] == u <==> d == u.id;
    }
    hide Placed;
    IsConsistent(fs, us, q);
  }

  lemma WithoutMembers(fs: seq<File>, l: seq<File>, k: nat)
    requires ListMembers(fs, l) && k < |l|
    ensures ListMembers(fs, Without(l, k))
  {
    assert forall j :: 0 <= j < |Without(l, k)| ==> Without(l, k)[j] == l[if j < k then j else j + 1];
  }

  method Deassign(f: File, ghost fs: seq<File>, ghost us: seq<Unit>)
    requires Consistent(fs, us) && AllLinked(fs, us) && Member(fs, f)
    modifies fs`assignDisk, fs`assignNext, fs`assignPrev, us`assignFile, us`assignFileCount, us`list
    ensures Consistent(fs, us) && AllLinked(fs, us) && f.assignDisk == null
    ensures Place(fs, us) == Deassigned(old(Place(fs, us)), f.id)
  {
    if f.assignDisk != null {
      assert UnitMember(us, fs[f.id].assignDisk);
      DeassignFrom(f, f.assignDisk, fs, us);
    }
  }

  /** workload_assign_file_to_disk; `moved` tells whether the file operations of a move
      succeed. */
  method Assign(f: File, u: Unit, moved: bool, ghost fs: seq<File>, ghost us: seq<Unit>) returns (ok: bool)
    requires Consistent(fs, us) && AllLinked(fs, us) && Member(fs, f) && UnitMember(us, u)
    modifies fs`assignDisk, fs`assignNext, fs`assignPrev, us`assignFile, us`assignFileCount, us`list
    ensures Consistent(fs, us) && AllLinked(fs, us)
    ensures ok <==> moved || old(f.assignDisk) == null || old(f.assignDisk) == u
    ensures Place(fs, us) == if ok then Assigned(old(Place(fs, us)), f.id, u.id) else old(Place(fs, us))
  {
    hide *;
    ghost var p := Place(fs, us);
    PlaceAt(fs, us, f, u);
    if f.assignDisk == u {
      AssignedThere(p, f.id, u.id);
      return true;
    }
    if f.assignDisk != null {
      if !moved {
        return false;
      }
      AssignedFrom(p, f.id, u.id);
      Deassign(f, fs, us);
    }
    Settle(f, u, fs, us);
    return true;
  }

  lemma PlaceAt(fs: seq<File>, us: seq<Unit>, f: File, u: Unit)
    requires Consistent(fs, us) && Member(fs, f) && UnitMember(us, u)
    ensures var p := Place(fs, us);
      f.id < |p.assign| && u.id < |p.lists| && OnDisks(p.assign, |p.lists|) &&
      (p.assign[f.id] == NoDisk <==> f.assignDisk == null) && (p.assign[f.id] == On(u.id) <==> f.assignDisk == u)
  {
    assert UnitMember(us, fs[f.id].assignDisk);
  }

  lemma AssignedThere(p: Placement, f: nat, d: nat)
    requires f < |p.assign| && d < |p.lists| && OnDisks(p.assign, |p.lists|) && p.assign[f] == On(d)
    ensures Assigned(p, f, d) == p
  {
  }

  lemma AssignedFrom(p: Placement, f: nat, d: nat)
    requires f < |p.assign| && d < |p.lists| && OnDisks(p.assign, |p.lists|) && p.assign[f] != On(d)
    ensures var q := Deassigned(p, f);
      OnDisks(q.assign, |q.lists|) && f < |q.assign| && d < |q.lists| && Assigned(q, f, d) == Assigned(p, f, d)
  {
  }

  method Settle(f: File, u: Unit, ghost fs: seq<File>, ghost us: seq<Unit>)
    requires Consistent(fs, us) && AllLinked(fs, us) && Member(fs, f) && UnitMember(us, u) && f.assignDisk == null
    modifies fs`assignDisk, fs`assignNext, fs`assignPrev, us`assignFile, us`assignFileCount, us`list
    ensures Consistent(fs, us) && AllLinked(fs, us)
    ensures Place(fs, us) == Assigned(old(Place(fs, us)), f.id, u.id)
  {
    hide Consistent, AllLinked, AllApart, Assigned, IdsOf, Placed, ListMembers;
    ghost var p, ls := Place(fs, us), FileLists(us);
    Housing(fs, us, p, ls);
    forall e | 0 <= e < |us|
      ensures f !in us[e].list
    {
      NotOnOtherList(fs, us, f, e);
    }
    Distances(fs, us);
    ApartFrom(us, u);
    OwnList(fs, us, u);
    MemberIn(fs, f);
    PutOn(f, u, fs, us);
    Settled(fs, us, ls, p, f, u);
  }

  /** What a consistent state says list by list and file by file. */
  lemma Housing(fs: seq<File>, us: seq<Unit>, p: Placement, ls: seq<seq<File>>)
    requires Consistent(fs, us) && p == Place(fs, us) && ls == FileLists(us)
    ensures Numbered(fs) && UnitsNumbered(us) && Placed(p) && |p.lists| == |us| && |p.assign| == |fs|
    ensures forall e :: 0 <= e < |us| ==> IdsOf(ls[e]) == p.lists[e] && ListMembers(fs, ls[e])
    ensures forall i :: 0 <= i < |fs| ==> p.assign[i] == DiskOf(fs[i].assignDisk) && UnitMember(us, fs[i].assignDisk)
    ensures OnDisks(p.assign, |p.lists|)
  {
    hide Placed;
  }

  lemma ApartFrom(us: seq<Unit>, u: Unit)
    requires AllApart(us) && UnitsNumbered(us) && u.id < |us| && us[u.id] == u
    ensures forall e :: 0 <= e < |us| && us[e] != u ==> Apart(us[e].list, u.list)
  {
    hide Apart;
  }

  lemma OwnList(fs: seq<File>, us: seq<Unit>, u: Unit)
    requires AllLinked(fs, us) && u.id < |us| && us[u.id] == u
    ensures u in us && forall k :: 0 <= k < |u.list| ==> u.list[k] in fs
  {
    hide Linked;
    assert MembersOwned(fs, us[u.id].list);
  }

  lemma MemberIn(fs: seq<File>, f: File)
    requires Member(fs, f)
    ensures f in fs
  {
  }

  /** After f has been put on the list of u. */
  lemma Settled(fs: seq<File>, us: seq<Unit>, ls: seq<seq<File>>, p: Placement, f: File, u: Unit)
    requires Numbered(fs) && UnitsNumbered(us) && Placed(p) && |ls| == |p.lists| == |us| && |p.assign| == |fs|
    requires forall e :: 0 <= e < |us| ==> IdsOf(ls[e]) == p.lists[e] && ListMembers(fs, ls[e])
    requires Member(fs, f) && u.id < |us| && us[u.id] == u && p.assign[f.id] == NoDisk && OnDisks(p.assign, |p.lists|)
    requires forall e :: 0 <= e < |us| ==> us[e].list == if us[e] == u then [f] + ls[e] else ls[e]
    requires forall i :: 0 <= i < |fs| ==> UnitMember(us, fs[i].assignDisk)
    requires forall i :: 0 <= i < |fs| ==> DiskOf(fs[i].assignDisk) == if fs[i] == f then On(u.id) else p.assign[i]
    ensures Consistent(fs, us) && Place(fs, us) == Assigned(p, f.id, u.id)
  {
    hide Placed, Consistent;
    var q := Assigned(p, f.id, u.id);
    AssignedPlaced(p, f.id, u.id);
    assert IdsOf([f] + ls[u.id]) == [f.id] + IdsOf(ls[u.id]);
    forall d | 0 <= d < |us|
      ensures IdsOf(us[d].list) == q.lists[d] && ListMembers(fs, us[d].list)
    {
      assert us[d] == u <==> d == u.id;
    }
    IsConsistent(fs, us, q);
  }

  // ---------------------------------------------------------------- counters

  method CountFile(f: File, r: nat, w: nat, ghost fs: seq<File>)
    requires Numbered(fs) && Member(fs, f)
    modifies f`readCount, f`writeCount
    ensures ReadsOf(fs) == Bump(old(ReadsOf(fs)), f.id, r) && WritesOf(fs) == Bump(old(WritesOf(fs)), f.id, w)
  {
    hide ReadsOf, WritesOf;
    f.readCount, f.writeCount := f.readCount + r, f.writeCount + w;
  }

  method CountDisk(u: Unit, r: nat, w: nat, ghost us: seq<Unit>)
    requires UnitsNumbered(us) && u.id < |us| && us[u.id] == u
    modifies u`readCount, u`writeCount
    ensures DiskReadsOf(us) == Bump(old(DiskReadsOf(us)), u.id, r)
    ensures DiskWritesOf(us) == Bump(old(DiskWritesOf(us)), u.id, w)
  {
    hide DiskReadsOf, DiskWritesOf;
    u.readCount, u.writeCount := u.readCount + r, u.writeCount + w;
  }
}

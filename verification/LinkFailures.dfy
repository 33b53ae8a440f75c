/** What goes wrong in the sub tag lists of the XML engine: a head displaced by a namesake
    stays on the sibling chain; cutting the new head then closes the chain into a loop, cutting
    the old one or a tag between them cuts off the rest, and cutting a head can lose a name. */
module LinkFailures {
  import opened XmlLinks
  import opened XmlCut

  /** A tag behind all others. */
  lemma PlacedLast(s: seq<Node>, off: nat, pos: nat, x: Node)
    requires pos <= |s| && SplitsAt(s, off, pos) && forall k :: 0 <= k < |s| ==> s[k].off <= off
    ensures Inserted(s, pos, x) == s + [x]
  {
    var y := Get(s, pos);
    assert pos == |s|;
  }

  lemma ChainLast(f: seq<Node>, x: Node)
    requires forall k :: 0 <= k < |f| ==> f[k].off <= x.off
    ensures ChainWith(f, x) == if FirstFrom(f, 0, x.name) < |f| then f else f + [x]
  {
    hide ChainWith, FirstFrom, Above;
    var c := FirstFrom(f, 0, x.name);
    if c < |f| {
      ChainBehind(f, c, x);
    } else {
      ChainBefore(f, c, x);
      AboveAt(f, x.off, |f|);
      assert Inserted(f, |f|, x) == f + [x];
    }
  }

  lemma NotRepeated(s: seq<Node>, name: string, off: nat)
    requires forall k :: 0 <= k < |s| ==> s[k].off <= off
    ensures !HeadRepeated(s, name, off)
  {
  }

  lemma ChainInList(p: Node)
    requires SiblingView(p)
    ensures LookupView(p) && forall k :: 0 <= k < |p.firsts| ==> p.firsts[k] in p.kids
  {
  }

  /** ezxml_insert of a new tag with an offset not below any other one. */
  method InsertLast(name: string, dest: Node, off: nat) returns (xml: Node)
    requires Linked(dest) && SiblingView(dest) && forall k :: 0 <= k < |dest.kids| ==> dest.kids[k].off <= off
    modifies dest`child, dest`kids, dest`firsts, dest.kids`ordered, dest.kids`next, dest.kids`sibling
    ensures fresh(xml) && xml.name == name && xml.off == off && xml.parent == dest
    ensures Linked(dest) && SiblingView(dest) && dest.kids == old(dest.kids) + [xml]
    ensures dest.firsts == if FirstFrom(old(dest.firsts), 0, name) < |old(dest.firsts)| then old(dest.firsts)
      else old(dest.firsts) + [xml]
  {
    hide *;
    ghost var s, f := dest.kids, dest.firsts;
    NotRepeated(s, name, off);
    ChainInList(dest);
    xml := new Node(name);
    ghost var l, v, w, r := Linked(dest), LookupView(dest), SiblingView(dest), HeadRepeated(s, name, off);
    assert l && v && w && !r;
    ghost var pos := Insert(xml, dest, off);
    PlacedLast(s, off, pos, xml);
    ChainLast(f, xml);
  }

  // ---------------------------------------------------------------- a name is lost

  method CaParent() returns (p: Node, c: Node, a: Node)
    ensures fresh({p, c, a}) && Linked(p) && SiblingView(p) && p.kids == p.firsts == [c, a]
    ensures c.name == "c" && a.name == "a" && c.off <= 1 && a.off <= 1
  {
    hide *;
    Abc();
    p := new Node("p");
    c := InsertLast("c", p, 0);
    NameSearch([], "c");
    a := InsertLast("a", p, 1);
    NameSearch([c], "a");
  }

  /** The parent of tags c, a, b, a. */
  method CabaParent() returns (p: Node, c: Node, a: Node, b: Node, a2: Node)
    ensures fresh({p, c, a, b, a2}) && Linked(p) && SiblingView(p) && p.kids == [c, a, b, a2] && p.firsts == [c, a, b]
    ensures c.name == "c" && a.name == "a" && b.name == "b" && a2.name == "a"
  {
    hide *;
    Abc();
    p, c, a := CaParent();
    b := InsertLast("b", p, 2);
    NameSearch([c, a], "b");
    assert p.firsts == [c, a, b];
    a2 := InsertLast("a", p, 3);
    NameSearch([c, a, b], "a");
    assert [c, a, b][1] == a;
  }

  lemma Abc()
    ensures "a" != "b" && "a" != "c" && "b" != "c"
  {
    assert "a"[0] != "b"[0] && "a"[0] != "c"[0] && "b"[0] != "c"[0];
  }

  lemma NameSearch(f: seq<Node>, name: string)
    ensures FirstFrom(f, 0, name) < |f| <==> exists k :: 0 <= k < |f| && f[k].name == name
  {
  }

  /** In c, a, b, a the first a can be cut; the second one takes its place on the chain. */
  lemma CutInner(p: Node, c: Node, a: Node, b: Node, a2: Node)
    requires Linked(p) && SiblingView(p) && p.kids == [c, a, b, a2] && p.firsts == [c, a, b]
    requires c.name == "c" && a.name == "a" && b.name == "b" && a2.name == "a"
    ensures p.kids[1] == a && a.parent == p && OnceChained(p.firsts, a, a2) && CutKeeps(p, 1) && a.next == a2
    ensures Removed(p.kids, 1) == [c, b, a2] && ChainCut(p.firsts, a, a2) == [c, a2, b]
  {
    hide Findable, ByOffset;
    Abc();
    AlwaysOnceChained(p.kids, p.firsts, 1);
    assert p.kids[1] == a && p.kids[1].parent == p && FirstFrom(p.kids, 2, "a") == 3;
    assert p.kids[1].next == a2;
    KeepsOnce(p, 1);
    assert FirstFrom(p.firsts, 0, "a") == 1;
  }

  /** In c, b, a on the chain c, a, b cutting c leads past a. */
  lemma CutOuter(p: Node, c: Node, b: Node, a2: Node)
    requires Linked(p) && SiblingView(p) && p.kids == [c, b, a2] && p.firsts == [c, a2, b]
    requires c.name == "c" && b.name == "b" && a2.name == "a"
    ensures p.kids[0] == c && c.parent == p && OnceChained(p.firsts, c, null) && !CutKeeps(p, 0) && c.next == null
    ensures Removed(p.kids, 0) == [b, a2]
  {
    hide Findable, ByOffset;
    Abc();
    AlwaysOnceChained(p.kids, p.firsts, 0);
    assert p.kids[0].parent == p && FirstFrom(p.kids, 1, "c") == 3;
    assert p.kids[0].next == null && p.kids[0].ordered == b && p.firsts[0].sibling == a2;
    assert Distinct(p.kids) && p.kids[1] != p.kids[2];
    KeepsOnce(p, 0);
  }

  lemma OnlyAIsLost(kids: seq<Node>, f: seq<Node>, b: Node, a: Node)
    requires kids == [b, a] && b.name == "b" && a.name == "a" && f != [] && f[0] == b && Within(f, kids)
    requires !Findable(kids, f)
    ensures FirstNamed(kids, "a") == a && FirstNamed(f, "a") == null
  {
    Abc();
    var name :| FirstNamed(f, name) != FirstNamed(kids, name);
    assert kids[1] == a && FirstFrom(kids, 0, "a") == 1;
    assert FirstFrom(kids, 0, "b") == 0 && FirstFrom(f, 0, "b") == 0;
    assert name != "a" && name != "b" ==> FirstNamed(f, name) == null;
  }

  /** ezxml_insert and ezxml_cut alone lead to a tag that ezxml_child does not find: cutting
      the first a and then c from c, a, b, a. */
  method LoseName() returns (p: Node, a: Node)
    ensures Linked(p) && Walk(p) && a in p.kids && a.name == "a"
    ensures FirstNamed(p.kids, "a") == a && FirstNamed(p.firsts, "a") == null
  {
    hide *;
    Abc();
    var c, b, a1;
    p, c, a1, b, a := CabaParent();
    CutInner(p, c, a1, b, a);
    ChainInList(p);
    Cut(a1, p, 1);
    CutOuter(p, c, b, a);
    Cut(c, p, 0);
    StartsAtHead(p);
    OnlyAIsLost(p.kids, p.firsts, b, a);
  }

  lemma StartsAtHead(p: Node)
    requires Linked(p) && Walk(p) && p.kids != []
    ensures p.firsts != [] && p.firsts[0] == p.kids[0]
  {
    hide NextOn, ByOffset;
  }

  // ---------------------------------------------------------------- a displaced head

  method AbParent() returns (p: Node, a: Node, b: Node)
    ensures fresh({p, a, b}) && Linked(p) && SiblingView(p) && p.kids == p.firsts == [a, b]
    ensures a.name == "a" && b.name == "b" && a.off >= 5 && b.off >= 5
  {
    hide *;
    Abc();
    p := new Node("p");
    a := InsertLast("a", p, 5);
    NameSearch([], "a");
    b := InsertLast("b", p, 9);
    NameSearch([a], "b");
  }

  /** ezxml_insert of an a in front of the head a: the chain has the name twice. */
  method DisplaceHead() returns (p: Node, x: Node, a: Node, b: Node)
    ensures fresh({p, x, a, b}) && Linked(p) && LookupView(p) && !SiblingView(p) && p.kids == p.firsts == [x, a, b]
    ensures x.name == "a" && a.name == "a" && b.name == "b" && x.off == 0 && a.off >= 5 && b.off >= 5
  {
    hide *;
    p, a, b := AbParent();
    x := DisplaceWith(p, a, b);
  }

  method DisplaceWith(p: Node, h: Node, b: Node) returns (y: Node)
    requires Linked(p) && SiblingView(p) && p.kids == p.firsts == [h, b] && h.name == "a" && h.off >= 5 && b.off >= 5
    modifies p`child, p`kids, p`firsts, p.kids`ordered, p.kids`next, p.kids`sibling
    ensures fresh(y) && y.name == "a" && y.off == 0 && p.kids == p.firsts == [y, h, b]
    ensures Linked(p) && LookupView(p) && !SiblingView(p)
  {
    hide *;
    ChainInList(p);
    y := new Node("a");
    ghost var l, v := Linked(p), LookupView(p);
    assert l && v;
    ghost var repeated := HeadRepeated(p.kids, "a", 0);
    ghost var pos := Insert(y, p, 0);
    InFront(h, b, y, pos);
    ghost var repeated' := HeadRepeated([h, b], "a", 0);
    assert repeated' == repeated;
  }

  lemma InFront(a: Node, b: Node, x: Node, pos: nat)
    requires pos <= 2 && SplitsAt([a, b], 0, pos) && a.off > 0 && x.off == 0 && a.name == x.name
    ensures Inserted([a, b], pos, x) == [x, a, b] && ChainWith([a, b], x) == [x, a, b] && HeadRepeated([a, b], x.name, 0)
  {
    assert [a, b][0] == a;
    assert FirstFrom([a, b], 0, x.name) == 0 && Above([a, b], 0) == 0;
  }

  /** ezxml_cut of a head whose chain continues with its own namesake. */
  method CutRepeatedHead(xml: Node, p: Node)
    requires xml.parent == p && Linked(p) && p.kids != [] && xml == p.kids[0]
    requires xml.next != null && xml.sibling == xml.next
    modifies p`child, p`kids, xml`ordered, xml`next, xml`sibling, xml.next`sibling
    ensures Linked(p) && p.kids == Removed(old(p.kids), 0)
    ensures old(xml.next).sibling == old(xml.next)
    ensures xml.ordered == null && xml.sibling == null && xml.next == null
  {
    ghost var s := p.kids;
    NextIsOther(s);
    if xml.next != null {
      xml.next.sibling := xml.sibling;
    }
    CutFirst(xml, p, s);
    p.kids := Removed(s, 0);
    ghost var before := Linked(p);
    assert before;
    CutIsGone(s, 0);
    xml.ordered, xml.sibling, xml.next := null, null, null;
    ghost var after := Linked(p);
    assert after;
  }

  method CutFirst(xml: Node, p: Node, ghost s: seq<Node>)
    requires OrderedOn(p, s) && NextOn(s) && s != [] && xml == s[0]
    modifies p`child
    ensures OrderedOn(p, Removed(s, 0)) && NextOn(Removed(s, 0))
  {
    hide FirstFrom;
    NextWithoutHead(s);
    p.child := xml.ordered;
    RemovedLinks(s, 0, p);
  }

  lemma NextIsOther(s: seq<Node>)
    requires NextOn(s) && Distinct(s) && s != []
    ensures s[0].next != s[0]
  {
  }

  /** The tag that k rounds of the search of ezxml_child lead to. */
  ghost function Along(x: Node?, k: nat): Node?
    reads *
  {
    if k == 0 || x == null then x else Along(x.sibling, k - 1)
  }

  lemma {:induction false} StaysOnLoop(x: Node, k: nat)
    requires x.sibling == x
    ensures Along(x, k) == x
  {
    if k > 0 {
      StaysOnLoop(x, k - 1);
    }
  }

  /** Cutting the displacing head closes the chain: although b is in the list, the search of
      ezxml_child for it stays on a tag of another name for any number of rounds. */
  method CloseChain() returns (p: Node, a: Node, b: Node)
    ensures Linked(p) && p.kids == [a, b] && b.name == "b" && a.name != b.name
    ensures forall k: nat :: Along(p.child, k) == a
  {
    hide *;
    var x;
    p, x, a, b := DisplaceHead();
    Abc();
    RepeatedLinks(p, x, a, b);
    CutRepeatedHead(x, p);
    HeadOf(p);
    forall k: nat
      ensures Along(p.child, k) == a
    {
      StaysOnLoop(a, k);
    }
  }

  lemma RepeatedLinks(p: Node, x: Node, a: Node, b: Node)
    requires Linked(p) && LookupView(p) && p.kids == p.firsts == [x, a, b] && x.name == a.name
    ensures x.parent == p && x == p.kids[0] && x.next == a == x.sibling && Removed(p.kids, 0) == [a, b]
  {
    hide Findable, ByOffset;
    assert p.kids[0] == x && p.kids[1] == a && FirstFrom(p.kids, 1, x.name) == 1;
    assert p.kids[0].parent == p && p.kids[0].next == a && p.firsts[0].sibling == a;
  }

  lemma HeadOf(p: Node)
    requires Linked(p) && p.kids != []
    ensures p.child == p.kids[0]
  {
    hide NextOn, ByOffset;
  }

  /** Cutting the displaced head: it is on the chain although its name is looked up elsewhere.
      The cut tag stays on the chain, and b, which is in the list, is no longer reached. */
  method CutOldHead() returns (p: Node, x: Node, a: Node, b: Node)
    ensures Linked(p) && p.kids == [x, b] && b.name == "b" && a !in p.kids
    ensures p.child == x && Chained([x, a]) && FirstNamed([x, a], "b") == null
    ensures !exists h :: FindsAll(p.kids, h) && Chained(h)
  {
    hide *;
    p, x, a, b := DisplaceHead();
    Abc();
    OldHeadLinks(p, x, a, b);
    OldHeadAfter(Sibs(p.kids), x, a, b);
    Cut(a, p, 1);
    HeadOf(p);
    TwoChained(Sibs([x, a, b]), [x, a, b], x, a);
    NotNamed(x, a, "b");
  }

  lemma NotNamed(x: Node, a: Node, name: string)
    requires x.name != name && a.name != name
    ensures FirstNamed([x, a], name) == null
  {
  }

  lemma OldHeadLinks(p: Node, x: Node, a: Node, b: Node)
    requires Linked(p) && LookupView(p) && p.kids == p.firsts == [x, a, b] && x.name == a.name && b.name != a.name
    ensures a.parent == p && a == p.kids[1] && a.next == null && Removed(p.kids, 1) == [x, b] && a != x && a != b
    ensures x.sibling == a && !CutKeeps(p, 1) && x in Sibs(p.kids) && a in Sibs(p.kids) && Sibs(p.kids)[x] == a
  {
    hide Findable, ByOffset;
    assert p.kids[0] == x && p.kids[1] == a && p.kids[2] == b;
    assert p.kids[1].parent == p && FirstFrom(p.kids, 2, a.name) == 3 && p.kids[1].next == null;
    assert FirstFrom(p.firsts, 0, a.name) == 0 && p.firsts[0].sibling == a;
  }

  lemma OldHeadAfter(sib: Links, x: Node, a: Node, b: Node)
    requires x in sib && a in sib && sib[x] == a && x != a && x.name == a.name
    ensures AfterCut(sib, [x, a, b], a, null)[x] == a && AfterCut(sib, [x, a, b], a, null)[a] == null
  {
    assert FirstFrom([x, a, b], 0, a.name) == 0;
    AfterAt(sib, [x, a, b], a, null, x);
  }

  lemma TwoChained(sib: Links, s: seq<Node>, x: Node, a: Node)
    requires sib == Sibs(s) && x in s && a in s && sib[x] == a && sib[a] == null
    ensures Chained([x, a])
  {
    assert x in sib && a in sib;
  }

  /** The parent of y, x, h, b, the first three named a, with x inserted last between y and h:
      the chain is y, h, b. */
  method BetweenParent() returns (p: Node, y: Node, x: Node, h: Node, b: Node)
    ensures fresh({p, y, x, h, b}) && Linked(p) && LookupView(p)
    ensures p.kids == [y, x, h, b] && p.firsts == [y, h, b] && x.sibling == null
    ensures y.name == "a" && x.name == "a" && h.name == "a" && b.name == "b"
  {
    hide *;
    Abc();
    p, y, h, b := DisplaceHead();
    x := new Node("a");
    ghost var l, v := Linked(p), LookupView(p);
    assert l && v;
    ghost var pos := Insert(x, p, 2);
    Between(y, h, b, x, pos);
  }

  lemma Between(y: Node, h: Node, b: Node, x: Node, pos: nat)
    requires pos <= 3 && SplitsAt([y, h, b], 2, pos) && y.off == 0 && h.off >= 5 && b.off >= 5 && x.off == 2
    requires y.name == x.name
    ensures Inserted([y, h, b], pos, x) == [y, x, h, b] && ChainWith([y, h, b], x) == [y, h, b] && x !in [y, h, b]
  {
    assert [y, h, b][0] == y && [y, h, b][1] == h;
    assert FirstFrom([y, h, b], 0, x.name) == 0;
  }

  /** Cutting the tag between them, which is not on the chain: the displaced head takes over its
      pointer, which is null, and b is no longer reached. */
  method CutBetween() returns (p: Node, y: Node, h: Node, b: Node)
    ensures Linked(p) && p.kids == [y, h, b] && b.name == "b"
    ensures p.child == y && Chained([y, h]) && FirstNamed([y, h], "b") == null
    ensures !exists g :: FindsAll(p.kids, g) && Chained(g)
  {
    hide *;
    var x;
    p, y, x, h, b := BetweenParent();
    Abc();
    BetweenLinks(p, y, x, h, b);
    BetweenAfter(Sibs(p.kids), y, x, h, b);
    Cut(x, p, 1);
    HeadOf(p);
    TwoChained(Sibs([y, x, h, b]), [y, x, h, b], y, h);
    NotNamed(y, h, "b");
  }

  lemma BetweenLinks(p: Node, y: Node, x: Node, h: Node, b: Node)
    requires Linked(p) && LookupView(p) && p.kids == [y, x, h, b] && p.firsts == [y, h, b] && x.sibling == null
    requires y.name == x.name == h.name != b.name
    ensures x.parent == p && x == p.kids[1] && x.next == h && Removed(p.kids, 1) == [y, h, b] && x != y && x != h && y != h
    ensures !CutKeeps(p, 1) && Sibs(p.kids).Keys == {y, x, h, b} && Sibs(p.kids)[y] == h && Sibs(p.kids)[x] == null
  {
    hide Findable, ByOffset;
    assert p.kids[0] == y && p.kids[1] == x && p.kids[2] == h && p.kids[3] == b;
    assert p.kids[1].parent == p && FirstFrom(p.kids, 2, x.name) == 2 && p.kids[1].next == h;
    assert p.firsts[0].sibling == h;
    BetweenBreaks(Sibs(p.kids), y, x, h, b);
  }

  lemma BehindSecond(f: seq<Node>)
    requires |f| > 1 && f[0] != f[1]
    ensures Behind(f, f[1]) == 2
  {
    assert f[1..][0] == f[1];
    assert Behind(f[1..], f[1]) == 1;
  }

  lemma BetweenBreaks(sib: Links, y: Node, x: Node, h: Node, b: Node)
    requires x in sib && sib[x] == null && y.name == x.name == h.name != b.name && x != y && h != y && b != y && b != h
    ensures !KeepsLookup([y, x, h, b], [y, h, b], sib, 1, h)
  {
    var f := [y, h, b];
    EntryOfName(f, 2, b.name);
    assert FirstFrom(f, 0, x.name) == 0 && FirstFrom(f, 0, f[2].name) == 2 && f[1] == h;
    BehindSecond(f);
    assert f[2] == b && !OnlyRepeats(f, 2, 3);
  }

  lemma BetweenAfter(sib: Links, y: Node, x: Node, h: Node, b: Node)
    requires sib.Keys == {y, x, h, b} && sib[y] == h && sib[x] == null && x != y && x != h && y != h && y.name == x.name
    ensures var after := AfterCut(sib, [y, h, b], x, h); after[y] == h && after[h] == null
  {
    assert FirstFrom([y, h, b], 0, x.name) == 0;
    AfterAt(sib, [y, h, b], x, h, y);
    AfterAt(sib, [y, h, b], x, h, h);
  }

  /** The pointers of the two need not agree: past an entry that only repeats a name, the walk
      may go on elsewhere. */
  lemma PointersMayDiffer(y: Node, x: Node, n: Node, m: Node, c: Node)
    requires Distinct([y, x, n, m, c]) && y.name == x.name == n.name == m.name != c.name
    ensures var s, f := [y, x, n, m, c], [y, n, m, c];
      var sib: Links := map[y := n, n := m, m := c, c := null, x := c];
      Cuttable(s, f, sib, 1, n) && sib[x] != sib[n] && KeepsLookup(s, f, sib, 1, n)
  {
    var s, f := [y, x, n, m, c], [y, n, m, c];
    var sib: Links := map[y := n, n := m, m := c, c := null, x := c];
    MayCut(s, f, sib, y, x, n, m, c);
    MayGoOn(s, f, sib, y, x, n, m, c);
  }

  lemma MayCut(s: seq<Node>, f: seq<Node>, sib: Links, y: Node, x: Node, n: Node, m: Node, c: Node)
    requires s == [y, x, n, m, c] && f == [y, n, m, c] && Distinct(s) && y.name == x.name == n.name == m.name != c.name
    requires sib == map[y := n, n := m, m := c, c := null, x := c]
    ensures Cuttable(s, f, sib, 1, n) && sib[x] == c && sib[n] == m && c != m
  {
    hide Distinct, FindsAll;
    MaySkip(s, f, y, x, n, m, c);
    FiveApart(s);
    assert FirstFrom(s, 2, x.name) == 2;
  }

  lemma FiveApart(s: seq<Node>)
    requires |s| == 5 && Distinct(s)
    ensures s[0] != s[1] && s[0] != s[2] && s[0] != s[3] && s[0] != s[4] && s[1] != s[2]
    ensures s[1] != s[3] && s[1] != s[4] && s[2] != s[3] && s[2] != s[4] && s[3] != s[4]
  {
  }

  lemma MayGoOn(s: seq<Node>, f: seq<Node>, sib: Links, y: Node, x: Node, n: Node, m: Node, c: Node)
    requires s == [y, x, n, m, c] && f == [y, n, m, c] && Distinct(s) && y.name == x.name == n.name == m.name
    requires x in sib && sib[x] == c
    ensures KeepsLookup(s, f, sib, 1, n)
  {
    hide Distinct;
    FiveApart(s);
    BehindSecond(f);
    JoinsAfterRepeat(s, f, sib, x);
    assert FirstFrom(f, 0, x.name) == 0 && f[1] == n;
  }

  lemma JoinsAfterRepeat(s: seq<Node>, f: seq<Node>, sib: Links, x: Node)
    requires |f| == 4 && f[0].name == f[2].name
    ensures RejoinsIn(s, f, sib, 2, x, f[3], 0)
  {
    assert FirstFrom(f, 0, f[2].name) < 2;
    JoinsAt(s, f, sib, 2, x, 3);
  }

  lemma MaySkip(s: seq<Node>, f: seq<Node>, y: Node, x: Node, n: Node, m: Node, c: Node)
    requires s == [y, x, n, m, c] && f == [y, n, m, c] && Distinct(s) && y.name == x.name == n.name == m.name != c.name
    ensures FindsAll(s, f)
  {
    assert s[0] == y && s[2] == n && s[3] == m && s[4] == c;
    forall k, l | 0 <= k < l < |f|
      ensures f[k] != f[l]
    {
      assert f[k] == s[if k == 0 then 0 else k + 1] && f[l] == s[l + 1];
    }
    forall name
      ensures FirstNamed(f, name) == FirstNamed(s, name)
    {
      assert name == y.name ==> FirstFrom(f, 0, name) == 0 && FirstFrom(s, 0, name) == 0;
      if name == c.name {
        EntryOfName(f, 3, name);
        EntryOfName(s, 4, name);
      }
      assert name != y.name && name != c.name ==> FirstNamed(f, name) == null && FirstNamed(s, name) == null;
    }
  }
}

/** ezxml_cut on the linked views of the sub tags: what it does to every pointer, and exactly
    when the lookup by name stays right. */
module XmlCut {
  import opened XmlLinks

  // ---------------------------------------------------------------- document order and `next`

  /** The j-th tag's `next` leads past the i-th tag. */
  ghost predicate LinksPast(s: seq<Node>, i: nat, j: nat)
    requires i < |s| && j < |s|
    reads s`next
  {
    var r := FirstFrom(s, j + 1, s[j].name);
    s[j].next == if r == i then s[i].next else Get(s, r)
  }

  lemma NextPast(s: seq<Node>, i: nat, j: nat, t: seq<Node>, k: nat)
    requires i < |s| && j < |s| && j != i && t == Removed(s, i) && k == (if j < i then j else j - 1)
    requires s[i].next == Get(s, FirstFrom(s, i + 1, s[i].name)) && LinksPast(s, i, j)
    ensures k < |t| && t[k] == s[j] && t[k].next == Get(t, FirstFrom(t, k + 1, t[k].name))
  {
    hide FirstFrom, Get;
    FirstAfterRemove(s, i, j + 1, s[j].name);
  }

  /** `next` once every link to the i-th tag leads past it. */
  lemma NextRemoved(s: seq<Node>, i: nat)
    requires i < |s| && s[i].next == Get(s, FirstFrom(s, i + 1, s[i].name))
    requires forall j :: 0 <= j < |s| && j != i ==> LinksPast(s, i, j)
    ensures NextOn(Removed(s, i))
  {
    hide FirstFrom, Get, LinksPast;
    var t := Removed(s, i);
    forall k | 0 <= k < |t|
      ensures t[k].next == Get(t, FirstFrom(t, k + 1, t[k].name))
    {
      var j := if k < i then k else k + 1;
      assert LinksPast(s, i, j);
      NextPast(s, i, j, t, k);
    }
  }

  /** The ordered list of ezxml_cut: the tag before the cut one leads past it. */
  method UnlinkOrdered(xml: Node, p: Node, ghost s: seq<Node>, ghost i: nat)
    requires OrderedOn(p, s) && 0 < i < |s| && xml == s[i]
    modifies s`ordered
    ensures OrderedOn(p, Removed(s, i))
  {
    var cur := p.child;
    ghost var k: nat := 0;
    while cur.ordered != xml
      invariant k < i && cur == s[k]
      decreases i - k
    {
      cur := cur.ordered;
      k := k + 1;
    }
    cur.ordered := cur.ordered.ordered;
    RemovedLinks(s, i, p);
  }

  lemma RemovedLinks(s: seq<Node>, i: nat, p: Node)
    requires i < |s| && Distinct(s) && p !in s && p.child == (if i == 0 then Get(s, 1) else s[0])
    requires forall k {:trigger s[k].ordered} :: 0 <= k < |s| ==> s[k].ordered == Get(s, if k + 1 == i then k + 2 else k + 1)
    requires forall k {:trigger s[k].parent} :: 0 <= k < |s| ==> s[k].parent == p
    requires ByOffset(s)
    ensures OrderedOn(p, Removed(s, i))
  {
    hide Removed;
    var t := Removed(s, i);
    RemovedStart(s, i);
    forall k | 0 <= k < |t|
      ensures t[k].ordered == Get(t, k + 1) && t[k].parent == p && t[k] != p
    {
      RemovedAt(s, i, k);
    }
    forall k, l | 0 <= k < l < |t|
      ensures t[k] != t[l] && t[k].off <= t[l].off
    {
      RemovedAt(s, i, k);
      RemovedAt(s, i, l);
    }
  }

  lemma RemovedAt(s: seq<Node>, i: nat, k: nat)
    requires i < |s| && k < |s| - 1
    ensures |Removed(s, i)| == |s| - 1 && Removed(s, i)[k] == s[if k < i then k else k + 1]
    ensures Get(Removed(s, i), k + 1) == Get(s, if k + 1 < i then k + 1 else k + 2)
  {
  }

  /** The `next` list of ezxml_cut, walked from the j-th tag: the first of the name if one
      comes before the cut tag, else a tag of another name. */
  method UnlinkNext(xml: Node, from: Node, ghost s: seq<Node>, ghost i: nat, ghost j: nat)
    requires NextOn(s) && Distinct(s) && i < |s| && xml == s[i] && j < |s| && from == s[j]
    requires from.name == xml.name ==> j < i
    requires from.name != xml.name ==> FirstFrom(s, 0, xml.name) == i
    modifies s`next
    ensures NextOn(Removed(s, i)) && xml.next == old(xml.next)
  {
    hide FirstFrom, Removed;
    var cur := from;
    ghost var l := j;
    while cur.next != null && cur.next != xml
      invariant l < |s| && cur == s[l] && cur.name == from.name
      invariant from.name == xml.name ==> l < i
      decreases |s| - l
    {
      l := FirstFrom(s, l + 1, cur.name);
      cur := cur.next;
    }
    BeforeCut(s, i, l);
    PassOver(cur, xml, s, i, l);
    NextRemoved(s, i);
  }

  /** if(cur->next) cur->next = cur->next->next, at the last tag that may link to the cut one. */
  method PassOver(cur: Node, xml: Node, ghost s: seq<Node>, ghost i: nat, ghost l: nat)
    requires NextOn(s) && Distinct(s) && i < |s| && l < |s| && l != i && cur == s[l] && xml == s[i]
    requires cur.next == null || cur.next == xml
    requires forall j :: 0 <= j < |s| && j != i && FirstFrom(s, j + 1, s[j].name) == i ==> j == l
    modifies s`next
    ensures xml.next == old(xml.next) && s[i].next == Get(s, FirstFrom(s, i + 1, s[i].name))
    ensures forall j :: 0 <= j < |s| && j != i ==> LinksPast(s, i, j)
  {
    hide FirstFrom;
    ghost var r := FirstFrom(s, l + 1, s[l].name);
    assert cur.next == Get(s, r);
    assert cur.next == xml <==> r == i;
    if cur.next != null {
      cur.next := cur.next.next;
    }
    forall j | 0 <= j < |s| && j != i
      ensures LinksPast(s, i, j)
    {
      assert j != l ==> s[j] != s[l] && s[j].next == old(s[j].next);
    }
  }

  /** Only the last namesake before the i-th tag links to it. */
  lemma BeforeCut(s: seq<Node>, i: nat, l: nat)
    requires i < |s| && l < |s|
    requires (s[l].name == s[i].name && l < i && FirstFrom(s, l + 1, s[l].name) == i) || FirstFrom(s, 0, s[i].name) == i
    ensures forall j :: 0 <= j < |s| && j != i && FirstFrom(s, j + 1, s[j].name) == i ==> j == l
  {
    forall j | 0 <= j < |s| && j != i && FirstFrom(s, j + 1, s[j].name) == i
      ensures j == l
    {
      assert s[j].name == s[i].name && j < i;
      assert FirstFrom(s, 0, s[i].name) <= j;
    }
  }

  lemma NextWithoutHead(s: seq<Node>)
    requires NextOn(s) && Distinct(s) && s != []
    ensures NextOn(Removed(s, 0))
  {
    NextRemoved(s, 0);
  }

  lemma CutIsGone(s: seq<Node>, i: nat)
    requires i < |s| && Distinct(s)
    ensures s[i] !in Removed(s, i)
  {
  }

  // ---------------------------------------------------------------- the chain after a cut

  /** The chain entry c of the cut tag passes to its namesake or disappears. */
  function Successors(f: seq<Node>, c: nat, next: Node?): seq<Node>
    requires c < |f|
  {
    if next != null then f[c := next] else Removed(f, c)
  }

  /** The chain without x; a tag behind the first of its name was not on it. */
  function ChainCut(f: seq<Node>, x: Node, next: Node?): seq<Node> {
    var c := FirstFrom(f, 0, x.name);
    if c < |f| && f[c] == x then Successors(f, c, next) else f
  }

  /** Once on the chain at most, where its name is looked up, and its namesake is not. */
  predicate OnceChained(f: seq<Node>, x: Node, next: Node?) {
    (x in f ==> FirstNamed(f, x.name) == x) && (next != null ==> next !in f)
  }

  /** Without repeated names that is so for every tag. */
  lemma AlwaysOnceChained(s: seq<Node>, f: seq<Node>, i: nat)
    requires FindsAll(s, f) && NamesDistinct(f) && NextOn(s) && Distinct(s) && i < |s|
    ensures OnceChained(f, s[i], s[i].next)
  {
    hide FirstFrom, Findable;
    if s[i] in f {
      var k :| 0 <= k < |f| && f[k] == s[i];
      FirstTags(s, f, k);
      FoundAt(s, f, s[i].name);
    }
    var r := FirstFrom(s, i + 1, s[i].name);
    if r < |s| && s[r] in f {
      var k :| 0 <= k < |f| && f[k] == s[r];
      FirstTags(s, f, k);
    }
  }

  lemma SuccessorAt(f: seq<Node>, c: nat, next: Node?, k: nat)
    requires c < |f| && k < |Successors(f, c, next)|
    ensures var m := if next != null || k < c then k else k + 1;
      if next != null && k == c then Successors(f, c, next)[k] == next
      else m < |f| && m != c && Successors(f, c, next)[k] == f[m]
  {
  }

  lemma SuccessorsDistinct(f: seq<Node>, c: nat, next: Node?)
    requires NamesDistinct(f) && c < |f| && (next != null ==> next.name == f[c].name)
    ensures NamesDistinct(Successors(f, c, next))
  {
    var h := Successors(f, c, next);
    assert forall k :: 0 <= k < |h| ==> h[k].name == f[if next != null || k < c then k else k + 1].name;
  }

  /** What the successor chain finds. */
  lemma SuccessorsFind(f: seq<Node>, c: nat, next: Node?, name: string)
    requires c < |f| && c == FirstFrom(f, 0, f[c].name)
    requires if next != null then next.name == f[c].name else forall k :: c < k < |f| ==> f[k].name != f[c].name
    ensures FirstNamed(Successors(f, c, next), name) == if name == f[c].name then next else FirstNamed(f, name)
  {
    if next != null {
      SwappedFirst(f, c, next, name);
    } else {
      FirstAfterRemove(f, c, 0, name);
    }
  }

  lemma SwappedFirst(f: seq<Node>, c: nat, next: Node, name: string)
    requires c < |f| && c == FirstFrom(f, 0, f[c].name) && next.name == f[c].name
    ensures FirstNamed(f[c := next], name) == if name == f[c].name then next else FirstNamed(f, name)
  {
    var h := f[c := next];
    assert forall k :: 0 <= k < |f| ==> h[k].name == f[k].name;
    assert FirstFrom(h, 0, name) == FirstFrom(f, 0, name);
  }

  /** What the list without its i-th tag finds. */
  lemma RemovedFinds(s: seq<Node>, i: nat, name: string)
    requires i < |s|
    ensures FirstNamed(Removed(s, i), name) ==
      if FirstFrom(s, 0, name) == i then Get(s, FirstFrom(s, i + 1, name)) else FirstNamed(s, name)
  {
    hide FirstFrom, Removed;
    FirstAfterRemove(s, i, 0, name);
  }

  /** The tag at index i is the first of its name exactly if its chain entry is itself. */
  lemma EntryIsCut(s: seq<Node>, f: seq<Node>, i: nat)
    requires FindsAll(s, f) && Distinct(s) && i < |s|
    ensures var c := FirstFrom(f, 0, s[i].name);
      c < |f| && f[c] == s[FirstFrom(s, 0, s[i].name)] && (f[c] == s[i] <==> FirstFrom(s, 0, s[i].name) == i)
  {
    hide Within, FirstNamed;
    FoundAt(s, f, s[i].name);
    FoundIs(s, s[i].name);
    FoundIs(f, s[i].name);
  }

  lemma FoundIs(s: seq<Node>, name: string)
    ensures FirstNamed(s, name) == Get(s, FirstFrom(s, 0, name))
  {
  }

  /** Only the last tag of a name has no successor. */
  lemma NoneBehind(s: seq<Node>, f: seq<Node>, i: nat, c: nat)
    requires Within(f, s) && Distinct(f) && i < |s| && c < |f| && f[c] == s[i] && FirstFrom(s, 0, s[i].name) == i
    requires FirstFrom(s, i + 1, s[i].name) == |s|
    ensures forall k :: 0 <= k < |f| && k != c ==> f[k].name != f[c].name
  {
    forall k | 0 <= k < |f| && k != c
      ensures f[k].name != f[c].name
    {
      var j :| 0 <= j < |s| && s[j] == f[k];
    }
  }

  lemma CutKeepsFind(s: seq<Node>, f: seq<Node>, i: nat, next: Node?, name: string)
    requires FindsAll(s, f) && Distinct(s) && i < |s| && next == Get(s, FirstFrom(s, i + 1, s[i].name))
    ensures FirstNamed(ChainCut(f, s[i], next), name) == FirstNamed(Removed(s, i), name)
  {
    hide Findable, FirstNamed, Successors, Removed;
    var c := FirstFrom(f, 0, s[i].name);
    EntryIsCut(s, f, i);
    RemovedFinds(s, i, name);
    FoundAt(s, f, name);
    FoundIs(s, name);
    if f[c] == s[i] {
      if next == null {
        NoneBehind(s, f, i, c);
      }
      SuccessorsFind(f, c, next, name);
    }
  }

  lemma CutWithin(s: seq<Node>, f: seq<Node>, i: nat, next: Node?)
    requires FindsAll(s, f) && Distinct(s) && i < |s| && next == Get(s, FirstFrom(s, i + 1, s[i].name))
    requires OnceChained(f, s[i], next)
    ensures Within(ChainCut(f, s[i], next), Removed(s, i)) && Distinct(ChainCut(f, s[i], next)) && s[i] !in ChainCut(f, s[i], next)
  {
    hide Findable, FirstFrom, Successors, Removed, FindsAll;
    var h, c := ChainCut(f, s[i], next), FirstFrom(f, 0, s[i].name);
    ChainFacts(s, f);
    EntryIsCut(s, f, i);
    FoundIs(f, s[i].name);
    forall y | y in s && y != s[i]
      ensures y in Removed(s, i)
    {
      RemovedHas(s, i, y);
    }
    if f[c] == s[i] {
      forall k | 0 <= k < |h|
        ensures h[k] in s && h[k] != s[i]
      {
        SuccessorAt(f, c, next, k);
      }
      forall k, l | 0 <= k < l < |h|
        ensures h[k] != h[l]
      {
        SuccessorAt(f, c, next, k);
        SuccessorAt(f, c, next, l);
      }
    }
  }

  lemma ChainFacts(s: seq<Node>, f: seq<Node>)
    requires FindsAll(s, f)
    ensures Within(f, s) && Distinct(f) && Get(f, 0) == Get(s, 0) && (f == [] <==> s == [])
    ensures s != [] ==> f[0] == s[0]
  {
  }

  lemma RemovedHas(s: seq<Node>, i: nat, y: Node)
    requires i < |s| && y in s && y != s[i]
    ensures y in Removed(s, i)
  {
    var k :| 0 <= k < |s| && s[k] == y;
    assert Removed(s, i)[if k < i then k else k - 1] == y;
  }

  lemma CutFinds(s: seq<Node>, f: seq<Node>, i: nat, next: Node?)
    requires FindsAll(s, f) && Distinct(s) && i < |s| && next == Get(s, FirstFrom(s, i + 1, s[i].name))
    requires OnceChained(f, s[i], next)
    requires i == 0 ==> Get(s, 1) == if next != null then next else Get(f, 1)
    ensures FindsAll(Removed(s, i), ChainCut(f, s[i], next)) && s[i] !in ChainCut(f, s[i], next)
    ensures NamesDistinct(f) ==> NamesDistinct(ChainCut(f, s[i], next))
  {
    hide FirstNamed, FirstFrom, Distinct, Within, Successors, Removed, OnceChained;
    forall name
      ensures FirstNamed(ChainCut(f, s[i], next), name) == FirstNamed(Removed(s, i), name)
    {
      CutKeepsFind(s, f, i, next, name);
    }
    CutWithin(s, f, i, next);
    CutStart(s, f, i, next);
    if NamesDistinct(f) && FirstFrom(f, 0, s[i].name) < |f| && f[FirstFrom(f, 0, s[i].name)] == s[i] {
      SuccessorsDistinct(f, FirstFrom(f, 0, s[i].name), next);
    }
  }

  lemma CutStart(s: seq<Node>, f: seq<Node>, i: nat, next: Node?)
    requires FindsAll(s, f) && Distinct(s) && i < |s|
    requires i == 0 ==> Get(s, 1) == if next != null then next else Get(f, 1)
    ensures Get(ChainCut(f, s[i], next), 0) == Get(Removed(s, i), 0)
  {
    hide Findable, Within;
    ChainFacts(s, f);
    var c := FirstFrom(f, 0, s[i].name);
    EntryIsCut(s, f, i);
    assert c == 0 && f[c] == s[i] ==> i == 0;
  }

  lemma DistinctAt(s: seq<Node>, i: nat, j: nat)
    requires Distinct(s) && i < j < |s|
    ensures s[i] != s[j]
  {
  }

  /** The first tag of a name comes before any other one. */
  lemma IndexIn(s: seq<Node>, i: nat, y: Node) returns (j: nat)
    requires y in s && i < |s|
    ensures j < |s| && s[j] == y
    ensures FirstFrom(s, 0, s[i].name) < |s| && y == s[FirstFrom(s, 0, s[i].name)] ==> j <= i
  {
    assert FirstFrom(s, 0, s[i].name) <= i;
    if y == s[FirstFrom(s, 0, s[i].name)] {
      j := FirstFrom(s, 0, s[i].name);
    } else {
      j :| 0 <= j < |s| && s[j] == y;
    }
  }

  lemma HeadIsFirst(s: seq<Node>)
    requires s != []
    ensures FirstFrom(s, 0, s[0].name) == 0
  {
  }

  lemma NotInSuffix(f: seq<Node>, k: nat, m: nat)
    requires Distinct(f) && k < m <= |f|
    ensures f[k] !in f[m..]
  {
    assert forall l :: 0 <= l < |f[m..]| ==> f[m..][l] == f[m + l];
  }

  lemma SuffixWithin(s: seq<Node>, f: seq<Node>, m: nat)
    requires s != [] && Within(f, s) && m <= |f| && s[0] !in f[m..]
    ensures Within(f[m..], Removed(s, 0))
  {
    forall k | 0 <= k < |f[m..]|
      ensures f[m..][k] in Removed(s, 0)
    {
      assert f[m..][k] == f[m + k];
      RemovedHas(s, 0, f[m + k]);
    }
  }

  /** The tag after the head, if it is neither the head's namesake nor second in the chain. */
  lemma SecondInChain(s: seq<Node>, f: seq<Node>, next: Node?) returns (m: nat)
    requires FindsAll(s, f) && Distinct(s) && s != [] && next == Get(s, FirstFrom(s, 1, s[0].name))
    requires Get(s, 1) != if next != null then next else Get(f, 1)
    ensures 0 < m < |f| && |s| > 1 && f[m] == s[1] && (next == null ==> m > 1)
  {
    hide Findable;
    ChainFacts(s, f);
    var r := FirstFrom(s, 1, s[0].name);
    if |s| == 1 {
      AllHead(s, f);
    }
    assert r == 1 <==> s[1].name == s[0].name;
    assert FirstFrom(s, 0, s[1].name) == 1;
    EntryIsCut(s, f, 1);
    m := FirstFrom(f, 0, s[1].name);
  }

  lemma AllHead(s: seq<Node>, f: seq<Node>)
    requires |s| == 1 && Within(f, s)
    ensures forall k :: 0 <= k < |f| ==> f[k] == s[0]
  {
    forall k | 0 <= k < |f|
      ensures f[k] == s[0]
    {
      assert f[k] in s;
    }
  }

  /** A name of the list that h does not find. */
  lemma Missing(t: seq<Node>, h: seq<Node>, y: Node)
    requires FirstNamed(t, y.name) == y && y !in h
    ensures !Findable(t, h)
  {
    hide FirstFrom;
    assert FirstNamed(h, y.name) != y;
  }

  lemma NextMissing(s: seq<Node>, f: seq<Node>, m: nat, next: Node)
    requires s != [] && 0 < m < |f| && next == Get(s, FirstFrom(s, 1, s[0].name)) && next !in f
    ensures !Findable(Removed(s, 0), f[m..])
  {
    RemovedFinds(s, 0, s[0].name);
    Missing(Removed(s, 0), f[m..], next);
  }

  lemma SecondMissing(s: seq<Node>, f: seq<Node>, m: nat)
    requires FindsAll(s, f) && Distinct(s) && s != [] && 1 < m < |f| && FirstFrom(s, 1, s[0].name) == |s|
    ensures !Findable(Removed(s, 0), f[m..])
  {
    hide Findable, FindsAll, Distinct, Removed;
    ChainFacts(s, f);
    HeadIsFirst(s);
    NoneBehind(s, f, 0, 0);
    SecondFound(f);
    FoundAt(s, f, f[1].name);
    RemovedFinds(s, 0, f[1].name);
    NotInSuffix(f, 1, m);
    Missing(Removed(s, 0), f[m..], f[1]);
  }

  lemma SecondFound(f: seq<Node>)
    requires |f| > 1 && f[1].name != f[0].name
    ensures FirstNamed(f, f[1].name) == f[1]
  {
  }

  // ---------------------------------------------------------------- the sibling pointers

  /** The `sibling` pointers of a list of tags. */
  type Links = map<Node, Node?>

  ghost function Sibs(s: seq<Node>): (sib: Links)
    reads s`sibling
    ensures sib.Keys == (set y | y in s)
    ensures forall k :: 0 <= k < |s| ==> sib[s[k]] == s[k].sibling
  {
    map y: Node | y in s :: y.sibling
  }

  /** A walk along the pointers visits f and ends. */
  predicate Chain(sib: Links, f: seq<Node>) {
    forall k :: 0 <= k < |f| ==> f[k] in sib && sib[f[k]] == Get(f, k + 1)
  }

  lemma ChainedIs(s: seq<Node>, f: seq<Node>)
    requires Within(f, s)
    ensures Chained(f) <==> Chain(Sibs(s), f)
  {
    assert Chained(f) ==> forall k :: 0 <= k < |f| ==> f[k].sibling == Get(f, k + 1);
    if Chain(Sibs(s), f) {
      forall k | 0 <= k < |f|
        ensures f[k].sibling == Get(f, k + 1)
      {
        assert f[k] in Sibs(s);
      }
    }
  }

  /** The first statement of ezxml_cut: the namesake behind the cut tag takes over its pointer. */
  function Patched(sib: Links, x: Node, next: Node?): Links
    requires x in sib
  {
    if next != null then sib[next := sib[x]] else sib
  }

  /** The chain entry before the cut tag, if it is the one its name is looked up at, leads past
      it. */
  function Relinked(sib: Links, f: seq<Node>, x: Node, next: Node?): Links
    requires x in sib
  {
    var c := FirstFrom(f, 0, x.name);
    if 0 < c < |f| && f[c] == x then sib[f[c - 1] := if next != null then next else sib[x]] else sib
  }

  /** All pointers after ezxml_cut. */
  function AfterCut(sib: Links, f: seq<Node>, x: Node, next: Node?): Links
    requires x in sib
  {
    Relinked(Patched(sib, x, next), f, x, next)[x := null]
  }

  /** The pointer of one tag after ezxml_cut. */
  lemma AfterAt(sib: Links, f: seq<Node>, x: Node, next: Node?, y: Node)
    requires x in sib && y in sib
    ensures var c, after := FirstFrom(f, 0, x.name), AfterCut(sib, f, x, next);
      y in after && after[y] ==
        if y == x then null
        else if 0 < c < |f| && f[c] == x && y == f[c - 1] then (if next != null then next else sib[x])
        else if y == next then sib[x]
        else sib[y]
  {
  }

  /** A parent's list s with chain f and pointers sib, and its i-th tag, to be cut. */
  ghost predicate Cuttable(s: seq<Node>, f: seq<Node>, sib: Links, i: nat, next: Node?) {
    FindsAll(s, f) && Distinct(s) && Chain(sib, f) && sib.Keys == (set y | y in s) &&
    i < |s| && next == Get(s, FirstFrom(s, i + 1, s[i].name))
  }

  // ---------------------------------------------------------------- when the lookup stays right

  /** From z on, k tags that are not on the chain, and then the chain again, or its end: all
      tags on the way, and all entries left out between index n and there, only repeat names
      found before index n. */
  predicate RejoinsIn(s: seq<Node>, f: seq<Node>, sib: Links, n: nat, x: Node, z: Node?, k: nat) {
    if k == 0 then exists m :: n <= m <= |f| && z == Get(f, m) && OnlyRepeats(f, n, m)
    else
      z != null && z !in f && z in s && z in sib && z != x && FirstFrom(f, 0, z.name) < n &&
      RejoinsIn(s, f, sib, n, x, sib[z], k - 1)
  }

  predicate OnlyRepeats(f: seq<Node>, n: nat, m: nat) {
    forall j :: n <= j < m && j < |f| ==> FirstFrom(f, 0, f[j].name) < n
  }

  ghost predicate Rejoins(s: seq<Node>, f: seq<Node>, sib: Links, n: nat, x: Node, z: Node?) {
    exists k: nat :: RejoinsIn(s, f, sib, n, x, z, k)
  }

  /** The head's place is taken by the tag that the chain continues with. */
  predicate HeadFits(s: seq<Node>, f: seq<Node>, i: nat, next: Node?) {
    i == 0 ==> Get(s, 1) == if next != null then next else Get(f, 1)
  }

  /** The index behind a tag of the chain. */
  function Behind(f: seq<Node>, y: Node): (n: nat)
    ensures n <= |f| && (y in f ==> 0 < n && f[n - 1] == y)
  {
    if f == [] then 0 else if f[0] == y then 1 else Behind(f[1..], y) + 1
  }

  /** The condition of ezxml_cut. Where the tag is looked up by its name: its namesake is not on
      the chain yet, and the next head is right. Elsewhere: without a namesake on the chain, it
      is not on the chain either; otherwise the walk that its own pointer starts joins the
      chain behind that namesake. */
  ghost predicate KeepsLookup(s: seq<Node>, f: seq<Node>, sib: Links, i: nat, next: Node?) {
    i < |s| && s[i] in sib &&
    if FirstNamed(f, s[i].name) == s[i] then (next == null || next !in f) && HeadFits(s, f, i, next)
    else if next == null || next !in f then s[i] !in f
    else Rejoins(s, f, sib, Behind(f, next), s[i], sib[s[i]])
  }

  /** Where no name is repeated, only the next head matters. */
  lemma KeepsWithoutRepeats(s: seq<Node>, f: seq<Node>, sib: Links, i: nat, next: Node?)
    requires Cuttable(s, f, sib, i, next) && OnceChained(f, s[i], next)
    ensures KeepsLookup(s, f, sib, i, next) <==> HeadFits(s, f, i, next)
  {
    hide FirstFrom, Findable;
    EntryIsCut(s, f, i);
    FoundIs(f, s[i].name);
    FoundIs(s, s[i].name);
    if i == 0 {
      HeadIsFirst(s);
    }
  }

  /** A namesake on the chain whose pointer is the same anyway does no harm. */
  lemma SamePointerKeeps(s: seq<Node>, f: seq<Node>, sib: Links, i: nat, next: Node?)
    requires Cuttable(s, f, sib, i, next) && next != null && next in f
    requires FirstNamed(f, s[i].name) != s[i] && sib[s[i]] == sib[next]
    ensures KeepsLookup(s, f, sib, i, next)
  {
    hide FirstFrom, FindsAll, FirstNamed;
    var n := Behind(f, next);
    assert sib[f[n - 1]] == Get(f, n);
    assert RejoinsIn(s, f, sib, n, s[i], sib[s[i]], 0) by {
      assert n <= n <= |f| && OnlyRepeats(f, n, n);
    }
  }

  // ---------------------------------------------------------------- walks

  lemma ChainTail(sib: Links, f: seq<Node>)
    requires Chain(sib, f) && f != []
    ensures Chain(sib, f[1..]) && f[0] in sib && Get(f[1..], 0) == sib[f[0]]
  {
    forall k | 0 <= k < |f[1..]|
      ensures f[1..][k] in sib && sib[f[1..][k]] == Get(f[1..], k + 1)
    {
      assert f[1..][k] == f[k + 1];
    }
  }

  lemma ChainAt(sib: Links, f: seq<Node>, k: nat)
    requires Chain(sib, f) && k < |f|
    ensures f[k] in sib && sib[f[k]] == Get(f, k + 1)
  {
  }

  /** A walk is determined by where it starts. */
  lemma {:induction false} ChainUnique(sib: Links, f: seq<Node>, g: seq<Node>)
    requires Chain(sib, f) && Chain(sib, g) && Get(f, 0) == Get(g, 0)
    ensures f == g
    decreases |f|
  {
    if f != [] {
      ChainTail(sib, f);
      ChainTail(sib, g);
      ChainUnique(sib, f[1..], g[1..]);
      assert f == [f[0]] + f[1..] && g == [g[0]] + g[1..];
    }
  }

  predicate Closed(sib: Links, c: set<Node?>) {
    forall y: Node :: y in c ==> y in sib && sib[y] != null && sib[y] in c
  }

  /** Inside a set that no pointer leaves, no walk ends. */
  lemma {:induction false} Trapped(sib: Links, f: seq<Node>, c: set<Node?>)
    requires Chain(sib, f) && f != [] && f[0] in c && Closed(sib, c)
    ensures false
    decreases |f|
  {
    ChainTail(sib, f);
    assert f[0] in c;
    Trapped(sib, f[1..], c);
  }

  // ---------------------------------------------------------------- the looked-up tag

  /** The chain after cutting a looked-up tag that is not the head. */
  lemma LaterChain(s: seq<Node>, f: seq<Node>, sib: Links, i: nat, next: Node?)
    requires Cuttable(s, f, sib, i, next) && OnceChained(f, s[i], next) && i > 0
    ensures Chain(AfterCut(sib, f, s[i], next), ChainCut(f, s[i], next))
  {
    hide FirstFrom, Findable, FirstNamed;
    var x, c := s[i], FirstFrom(f, 0, s[i].name);
    ChainFacts(s, f);
    EntryIsCut(s, f, i);
    FoundIs(f, x.name);
    var h, after := ChainCut(f, x, next), AfterCut(sib, f, x, next);
    if f[c] == x {
      DistinctAt(s, 0, i);
      assert c > 0;
      forall k | 0 <= k < |h|
        ensures h[k] in after && after[h[k]] == Get(h, k + 1)
      {
        SuccessorAt(f, c, next, k);
        LaterLink(f, sib, x, c, next, k);
      }
    }
  }

  lemma LaterLink(f: seq<Node>, sib: Links, x: Node, c: nat, next: Node?, k: nat)
    requires Chain(sib, f) && Distinct(f) && x in sib && 0 < c < |f| && f[c] == x && c == FirstFrom(f, 0, x.name)
    requires (next != null ==> next !in f && next in sib && next != x) && k < |Successors(f, c, next)|
    ensures var h, after := Successors(f, c, next), AfterCut(sib, f, x, next);
      h[k] in after && after[h[k]] == Get(h, k + 1)
  {
    hide FirstFrom, AfterCut, Successors;
    var h := Successors(f, c, next);
    SuccessorAt(f, c, next, k);
    AfterAt(sib, f, x, next, h[k]);
    assert sib[x] == Get(f, c + 1);
    SuccessorNext(f, c, next, k);
  }

  lemma SuccessorNext(f: seq<Node>, c: nat, next: Node?, k: nat)
    requires c < |f| && k < |Successors(f, c, next)|
    ensures Get(Successors(f, c, next), k + 1) ==
      if next != null then (if k + 1 == c then next else Get(f, k + 1)) else if k + 1 < c then f[k + 1] else Get(f, k + 2)
  {
  }

  /** With its namesake on the chain already, the walk never ends or misses the namesake. */
  lemma NamesakeLoops(s: seq<Node>, f: seq<Node>, sib: Links, i: nat, next: Node, h: seq<Node>)
    requires Cuttable(s, f, sib, i, next) && FirstNamed(f, s[i].name) == s[i] && next in f
    requires FindsAll(Removed(s, i), h) && Chain(AfterCut(sib, f, s[i], next), h)
    ensures false
  {
    hide FirstFrom, FindsAll, FirstNamed, Chain, AfterCut, Removed, Round, Closed;
    var x, c, n := s[i], FirstFrom(f, 0, s[i].name), Behind(f, next) - 1;
    ChainFacts(s, f);
    FoundIs(f, x.name);
    EntryIsCut(s, f, i);
    NamesakeIndex(s, f, i, next, n);
    RemovedStart(s, i);
    ChainFacts(Removed(s, i), h);
    if i > 0 {
      DistinctAt(s, 0, i);
      LoopThroughHead(s, f, sib, x, c, next, n);
      InRound(f, c, n, 0);
      Trapped(AfterCut(sib, f, x, next), h, Round(f, c, n));
    } else {
      LoopOrMiss(s, f, sib, next, n, h);
    }
  }

  lemma InRound(f: seq<Node>, c: nat, n: nat, k: nat)
    requires k <= n < |f| && k != c
    ensures f[k] in Round(f, c, n)
  {
  }

  lemma LoopOrMiss(s: seq<Node>, f: seq<Node>, sib: Links, next: Node, n: nat, h: seq<Node>)
    requires Cuttable(s, f, sib, 0, next) && 0 < n < |f| && f[n] == next && f[0] == s[0]
    requires FindsAll(Removed(s, 0), h) && Chain(AfterCut(sib, f, s[0], next), h)
    ensures false
  {
    hide FirstFrom, FindsAll, FirstNamed, Chain, AfterCut, Removed, Round, Closed;
    var x := s[0];
    ChainFacts(s, f);
    RemovedStart(s, 0);
    ChainFacts(Removed(s, 0), h);
    HeadIsFirst(f);
    var m := SecondEntry(s, f, next);
    if m <= n {
      LoopBehindHead(s, f, sib, x, next, n);
      InRound(f, 0, n, m);
      Trapped(AfterCut(sib, f, x, next), h, Round(f, 0, n));
    } else {
      SuffixChain(f, sib, x, 0, next, n, m);
      ChainUnique(AfterCut(sib, f, x, next), f[m..], h);
      NotInSuffix(f, n, m);
      RemovedFinds(s, 0, x.name);
      HeadIsFirst(s);
      NamesakeFacts(s, 0, next);
      FoundIs(Removed(s, 0), x.name);
      Missing(Removed(s, 0), h, next);
      Unfound(Removed(s, 0), h);
    }
  }

  /** The chain up to index n without its c-th entry. */
  function Round(f: seq<Node>, c: nat, n: nat): (r: set<Node?>)
    requires n < |f|
    ensures forall k :: 0 <= k <= n && k != c ==> f[k] in r
    ensures forall y :: y in r ==> exists k :: 0 <= k <= n && k != c && y == f[k]
  {
    set k | 0 <= k <= n && k != c :: f[k]
  }

  lemma NamesakeIndex(s: seq<Node>, f: seq<Node>, i: nat, next: Node, n: nat)
    requires FindsAll(s, f) && Distinct(s) && i < |s| && next == Get(s, FirstFrom(s, i + 1, s[i].name)) && n < |f| && f[n] == next
    ensures next.name == s[i].name && next != s[i] && next in s
    ensures FirstFrom(f, 0, s[i].name) < n
  {
    hide *;
    NamesakeFacts(s, i, next);
    NotFirst(s, i, next);
    FoundAt(s, f, next.name);
    FirstAtMost(f, n);
  }

  lemma NotFirst(s: seq<Node>, i: nat, next: Node)
    requires Distinct(s) && i < |s| && next == Get(s, FirstFrom(s, i + 1, s[i].name))
    ensures FirstNamed(s, next.name) != next
  {
    hide FirstFrom, Distinct;
    FirstAtMost(s, i);
    DistinctAt(s, FirstFrom(s, 0, s[i].name), FirstFrom(s, i + 1, s[i].name));
  }

  lemma FirstAtMost(s: seq<Node>, i: nat)
    requires i < |s|
    ensures FirstFrom(s, 0, s[i].name) <= i && FirstNamed(s, s[i].name) == s[FirstFrom(s, 0, s[i].name)]
  {
  }

  lemma RemovedStart(s: seq<Node>, i: nat)
    requires i < |s|
    ensures Get(Removed(s, i), 0) == if i > 0 then s[0] else Get(s, 1)
    ensures |Removed(s, i)| == |s| - 1
  {
  }

  /** The pointers of the round. */
  lemma RoundLink(f: seq<Node>, sib: Links, x: Node, c: nat, next: Node, n: nat, k: nat)
    requires Chain(sib, f) && Distinct(f) && x in sib && c < n < |f| && f[c] == x && f[n] == next && c == FirstFrom(f, 0, x.name)
    requires k <= n && k != c
    ensures var after := AfterCut(sib, f, x, next);
      f[k] in after && after[f[k]] == if k == n then f[c + 1] else if c > 0 && k == c - 1 then next else f[k + 1]
  {
    hide FirstFrom, AfterCut, Chain;
    ChainAt(sib, f, k);
    ChainAt(sib, f, c);
    AfterAt(sib, f, x, next, f[k]);
  }

  lemma LoopThroughHead(s: seq<Node>, f: seq<Node>, sib: Links, x: Node, c: nat, next: Node, n: nat)
    requires Chain(sib, f) && Distinct(f) && x in sib && 0 < c < n < |f| && f[c] == x && f[n] == next
    requires c == FirstFrom(f, 0, x.name)
    ensures Closed(AfterCut(sib, f, x, next), Round(f, c, n))
  {
    hide FirstFrom, AfterCut, Chain, Distinct;
    var after, r := AfterCut(sib, f, x, next), Round(f, c, n);
    forall y: Node | y in r
      ensures y in after && after[y] != null && after[y] in r
    {
      var k :| 0 <= k <= n && k != c && y == f[k];
      RoundLink(f, sib, x, c, next, n, k);
      if k != c - 1 && k != n {
        InRound(f, c, n, k + 1);
      } else if k == n {
        InRound(f, c, n, c + 1);
      } else {
        InRound(f, c, n, n);
      }
    }
  }

  lemma LoopBehindHead(s: seq<Node>, f: seq<Node>, sib: Links, x: Node, next: Node, n: nat)
    requires Chain(sib, f) && Distinct(f) && x in sib && 0 < n < |f| && f[0] == x && f[n] == next
    ensures Closed(AfterCut(sib, f, x, next), Round(f, 0, n))
  {
    var after, r := AfterCut(sib, f, x, next), Round(f, 0, n);
    hide FirstFrom, AfterCut, Chain, Distinct, Round;
    HeadIsFirst(f);
    forall y: Node | y in r
      ensures y in after && after[y] != null && after[y] in r
    {
      var k :| 0 <= k <= n && k != 0 && y == f[k];
      RoundLink(f, sib, x, 0, next, n, k);
      if k != n {
        InRound(f, 0, n, k + 1);
      } else {
        InRound(f, 0, n, 1);
      }
    }
  }

  /** The tag after a head that has a namesake is on the chain if that namesake is. */
  lemma SecondEntry(s: seq<Node>, f: seq<Node>, next: Node) returns (m: nat)
    requires FindsAll(s, f) && Distinct(s) && s != [] && next == Get(s, FirstFrom(s, 1, s[0].name)) && next in f
    ensures 0 < m < |f| && |s| > 1 && f[m] == s[1]
  {
    ChainFacts(s, f);
    if s[1].name == s[0].name {
      m := Behind(f, next) - 1;
    } else {
      assert FirstFrom(s, 0, s[1].name) == 1;
      EntryIsCut(s, f, 1);
      m := FirstFrom(f, 0, s[1].name);
    }
  }

  /** Behind all changed pointers the walk goes on as before. */
  lemma SuffixChain(f: seq<Node>, sib: Links, x: Node, c: nat, next: Node?, n: nat, m: nat)
    requires Chain(sib, f) && Distinct(f) && x in sib && c == FirstFrom(f, 0, x.name) && c < m <= |f| && f[c] == x
    requires next != null ==> next !in f || (n < m && f[n] == next)
    ensures Chain(AfterCut(sib, f, x, next), f[m..])
  {
    hide FirstFrom, AfterCut;
    var after := AfterCut(sib, f, x, next);
    forall k | 0 <= k < |f[m..]|
      ensures f[m..][k] in after && after[f[m..][k]] == Get(f[m..], k + 1)
    {
      assert f[m..][k] == f[m + k] && f[m + k] != f[c] && (c > 0 ==> f[m + k] != f[c - 1]);
      AfterAt(sib, f, x, next, f[m + k]);
    }
  }

  /** The walk from the new head once the head, looked up and without a namesake on the chain,
      is cut. */
  lemma HeadWalk(s: seq<Node>, f: seq<Node>, sib: Links, next: Node?) returns (h: seq<Node>)
    requires Cuttable(s, f, sib, 0, next) && OnceChained(f, s[0], next)
    ensures Chain(AfterCut(sib, f, s[0], next), h) && Get(h, 0) == Get(Removed(s, 0), 0) && Within(h, Removed(s, 0))
    ensures if HeadFits(s, f, 0, next) then h == ChainCut(f, s[0], next) else !Findable(Removed(s, 0), h)
  {
    hide FirstFrom, Findable, FindsAll, Distinct, Within;
    ChainFacts(s, f);
    EntryIsCut(s, f, 0);
    FoundIs(f, s[0].name);
    HeadIsFirst(s);
    HeadIsFirst(f);
    RemovedStart(s, 0);
    if HeadFits(s, f, 0, next) {
      h := Successors(f, 0, next);
      NamesakeFacts(s, 0, next);
      HeadChain(f, sib, s[0], next);
      CutFinds(s, f, 0, next);
      CutStart(s, f, 0, next);
      ChainFacts(Removed(s, 0), ChainCut(f, s[0], next));
    } else {
      var m := SecondInChain(s, f, next);
      h := f[m..];
      SuffixChain(f, sib, s[0], 0, next, 0, m);
      NotInSuffix(f, 0, m);
      SuffixWithin(s, f, m);
      if next != null {
        NextMissing(s, f, m, next);
      } else {
        SecondMissing(s, f, m);
      }
    }
  }

  lemma NamesakeFacts(s: seq<Node>, i: nat, next: Node?)
    requires Distinct(s) && i < |s| && next == Get(s, FirstFrom(s, i + 1, s[i].name))
    ensures next != null ==> next in s && next != s[i] && next.name == s[i].name
    ensures next != null ==> i < FirstFrom(s, i + 1, s[i].name) < |s| && s[FirstFrom(s, i + 1, s[i].name)] == next
  {
  }

  lemma HeadChain(f: seq<Node>, sib: Links, x: Node, next: Node?)
    requires Chain(sib, f) && Distinct(f) && x in sib && f != [] && f[0] == x
    requires next != null ==> next !in f && next in sib && next != x
    ensures Chain(AfterCut(sib, f, x, next), Successors(f, 0, next))
  {
    assert FirstFrom(f, 0, x.name) == 0;
    hide FirstFrom, AfterCut, Successors;
    var h, after := Successors(f, 0, next), AfterCut(sib, f, x, next);
    forall k | 0 <= k < |h|
      ensures h[k] in after && after[h[k]] == Get(h, k + 1)
    {
      SuccessorAt(f, 0, next, k);
      SuccessorNext(f, 0, next, k);
      AfterAt(sib, f, x, next, h[k]);
      assert sib[x] == Get(f, 1);
    }
  }

  // ---------------------------------------------------------------- the other tags

  /** Apart from the two, no pointer changes when the tag is not looked up by its name. */
  lemma OtherAt(sib: Links, f: seq<Node>, x: Node, next: Node?, y: Node)
    requires x in sib && y in sib && (FirstFrom(f, 0, x.name) < |f| ==> f[FirstFrom(f, 0, x.name)] != x)
    ensures var after := AfterCut(sib, f, x, next);
      y in after && after[y] == if y == x then null else if y == next then sib[x] else sib[y]
  {
    hide FirstFrom, AfterCut;
    AfterAt(sib, f, x, next, y);
  }

  lemma NotLookedUp(s: seq<Node>, f: seq<Node>, i: nat)
    requires FindsAll(s, f) && Distinct(s) && i < |s| && FirstNamed(f, s[i].name) != s[i]
    ensures i > 0 && FirstFrom(f, 0, s[i].name) < |f| && f[FirstFrom(f, 0, s[i].name)] != s[i]
    ensures FirstFrom(s, 0, s[i].name) != i && s[i] != s[0] && f != [] && f[0] == s[0]
  {
    ChainFacts(s, f);
    EntryIsCut(s, f, i);
    FoundIs(f, s[i].name);
    if i == 0 {
      HeadIsFirst(s);
    }
  }

  /** What is found does not change with a tag that is not looked up. */
  lemma FoundElsewhere(s: seq<Node>, f: seq<Node>, i: nat, name: string)
    requires FindsAll(s, f) && i < |s| && FirstFrom(s, 0, s[i].name) != i
    ensures FirstNamed(Removed(s, i), name) == FirstNamed(f, name)
  {
    FoundAt(s, f, name);
    hide Findable, Removed;
    RemovedFinds(s, i, name);
  }

  /** On the chain although not looked up, without a namesake on the chain: the walk ends with
      the cut tag. */
  lemma EndsWithCut(s: seq<Node>, f: seq<Node>, sib: Links, i: nat, next: Node?)
    requires Cuttable(s, f, sib, i, next) && FirstNamed(f, s[i].name) != s[i] && s[i] in f
    requires next == null || next !in f
    ensures Chain(AfterCut(sib, f, s[i], next), f[..Behind(f, s[i])])
    ensures Get(f[..Behind(f, s[i])], 0) == s[0]
  {
    hide FirstFrom, FirstNamed, FindsAll, AfterCut;
    NotLookedUp(s, f, i);
    ChainFacts(s, f);
    EndingChain(f, sib, s[i], next, Behind(f, s[i]));
  }

  lemma EndingChain(f: seq<Node>, sib: Links, x: Node, next: Node?, n: nat)
    requires Chain(sib, f) && Distinct(f) && 0 < n <= |f| && f[n - 1] == x && x in sib && (next == null || next !in f)
    requires FirstFrom(f, 0, x.name) < |f| && f[FirstFrom(f, 0, x.name)] != x
    ensures Chain(AfterCut(sib, f, x, next), f[..n]) && Get(f[..n], 0) == f[0]
  {
    hide FirstFrom, AfterCut;
    var h, after := f[..n], AfterCut(sib, f, x, next);
    forall k | 0 <= k < |h|
      ensures h[k] in after && after[h[k]] == Get(h, k + 1)
    {
      EndingLink(f, sib, x, next, n, k);
    }
  }

  lemma EndingLink(f: seq<Node>, sib: Links, x: Node, next: Node?, n: nat, k: nat)
    requires Chain(sib, f) && Distinct(f) && k < n <= |f| && f[n - 1] == x && x in sib && (next == null || next !in f)
    requires FirstFrom(f, 0, x.name) < |f| && f[FirstFrom(f, 0, x.name)] != x
    ensures var after := AfterCut(sib, f, x, next); f[k] in after && after[f[k]] == Get(f[..n], k + 1)
  {
    hide FirstFrom, AfterCut, Chain, Distinct;
    ChainAt(sib, f, k);
    OtherAt(sib, f, x, next, f[k]);
    if k < n - 1 {
      DistinctAt(f, k, n - 1);
    }
  }

  lemma CutStaysOn(s: seq<Node>, f: seq<Node>, sib: Links, i: nat, next: Node?, h: seq<Node>)
    requires Cuttable(s, f, sib, i, next) && FirstNamed(f, s[i].name) != s[i] && s[i] in f
    requires next == null || next !in f
    requires Get(h, 0) == Get(Removed(s, i), 0) && Chain(AfterCut(sib, f, s[i], next), h)
    ensures s[i] in h
  {
    hide FirstFrom, FirstNamed, Findable, AfterCut;
    EndsWithCut(s, f, sib, i, next);
    NotLookedUp(s, f, i);
    RemovedStart(s, i);
    var g := f[..Behind(f, s[i])];
    ChainUnique(AfterCut(sib, f, s[i], next), g, h);
    assert g[|g| - 1] == s[i];
  }

  // ---------------------------------------------------------------- a namesake on the chain

  /** The state of the theorem below: x not looked up by its name, its namesake at f[n - 1]. */
  ghost predicate Detours(s: seq<Node>, f: seq<Node>, sib: Links, i: nat, next: Node, n: nat) {
    Cuttable(s, f, sib, i, next) && FirstNamed(f, s[i].name) != s[i] && 0 < n <= |f| && f[n - 1] == next
  }

  predicate OffChain(s: seq<Node>, f: seq<Node>, sib: Links, n: nat, x: Node, y: Node) {
    y !in f && y in s && y in sib && y != x && FirstFrom(f, 0, y.name) < n
  }

  predicate AllOff(s: seq<Node>, f: seq<Node>, sib: Links, n: nat, x: Node, g: seq<Node>) {
    forall j :: 0 <= j < |g| ==> OffChain(s, f, sib, n, x, g[j])
  }

  /** From z the pointers lead over the tags g to y. */
  predicate Trail(sib: Links, z: Node?, g: seq<Node>, y: Node?) {
    z == (if g == [] then y else g[0]) &&
    forall j :: 0 <= j < |g| ==> g[j] in sib && sib[g[j]] == if j + 1 < |g| then g[j + 1] else y
  }

  lemma TrailAt(sib: Links, z: Node?, g: seq<Node>, y: Node?, j: nat)
    requires Trail(sib, z, g, y) && j < |g|
    ensures g[j] in sib && sib[g[j]] == if j + 1 < |g| then g[j + 1] else y
  {
  }

  lemma TrailFurther(sib: Links, z: Node, rest: seq<Node>, y: Node?, g: seq<Node>)
    requires z in sib && Trail(sib, sib[z], rest, y) && g == [z] + rest
    ensures Trail(sib, z, g, y)
  {
    forall j | 0 <= j < |g|
      ensures g[j] in sib && sib[g[j]] == if j + 1 < |g| then g[j + 1] else y
    {
      if j > 0 {
        TrailAt(sib, sib[z], rest, y, j - 1);
      }
    }
  }

  /** The walk that rejoins, spelled out. */
  lemma {:induction false} Detour(s: seq<Node>, f: seq<Node>, sib: Links, n: nat, x: Node, z: Node?, k: nat)
    returns (g: seq<Node>, m: nat)
    requires RejoinsIn(s, f, sib, n, x, z, k)
    ensures |g| == k && n <= m <= |f| && OnlyRepeats(f, n, m) && AllOff(s, f, sib, n, x, g) && Trail(sib, z, g, Get(f, m))
    ensures forall j :: 0 <= j < |g| ==> RejoinsIn(s, f, sib, n, x, g[j], k - j)
    decreases k
  {
    hide OnlyRepeats, FirstFrom;
    if k == 0 {
      g := [];
      m :| n <= m <= |f| && z == Get(f, m) && OnlyRepeats(f, n, m);
    } else {
      var rest;
      rest, m := Detour(s, f, sib, n, x, sib[z], k - 1);
      g := [z] + rest;
      TrailFurther(sib, z, rest, Get(f, m), g);
      forall j | 0 <= j < |g|
        ensures OffChain(s, f, sib, n, x, g[j]) && RejoinsIn(s, f, sib, n, x, g[j], k - j)
      {
        assert j > 0 ==> g[j] == rest[j - 1];
      }
    }
  }

  /** The number of steps is determined. */
  lemma {:induction false} StepsUnique(s: seq<Node>, f: seq<Node>, sib: Links, n: nat, x: Node, z: Node?, k: nat, l: nat)
    requires RejoinsIn(s, f, sib, n, x, z, k) && RejoinsIn(s, f, sib, n, x, z, l)
    ensures k == l
    decreases k + l
  {
    if k > 0 && l > 0 {
      StepsUnique(s, f, sib, n, x, sib[z], k - 1, l - 1);
    }
  }

  /** The chain with the entries between n and m replaced by the tags g. */
  function Joined(f: seq<Node>, n: nat, g: seq<Node>, m: nat): seq<Node>
    requires n <= m <= |f|
  {
    f[..n] + g + f[m..]
  }

  lemma JoinedAt(f: seq<Node>, n: nat, g: seq<Node>, m: nat, k: nat)
    requires n <= m <= |f| && k < |Joined(f, n, g, m)|
    ensures Joined(f, n, g, m)[k] == if k < n then f[k] else if k < n + |g| then g[k - n] else f[m + k - n - |g|]
    ensures k >= n + |g| ==> m <= m + k - n - |g| < |f|
  {
  }

  lemma JoinedLength(f: seq<Node>, n: nat, g: seq<Node>, m: nat)
    requires n <= m <= |f|
    ensures |Joined(f, n, g, m)| == n + |g| + (|f| - m)
  {
  }

  /** The cut tag is among the entries left out, or not on the chain. */
  lemma CutLeftOut(s: seq<Node>, f: seq<Node>, sib: Links, i: nat, next: Node, n: nat, g: seq<Node>, m: nat)
    requires Detours(s, f, sib, i, next, n) && n <= m <= |f|
    requires s[i] in sib && Trail(sib, sib[s[i]], g, Get(f, m)) && AllOff(s, f, sib, n, s[i], g)
    ensures forall k :: 0 <= k < |f| && (k < n || m <= k) ==> f[k] != s[i]
  {
    hide FirstFrom, FirstNamed, Findable;
    NamesakeFacts(s, i, next);
    forall k | 0 <= k < |f| && f[k] == s[i]
      ensures n <= k < m
    {
      assert sib[f[k]] == Get(f, k + 1);
      assert k != n - 1;
    }
  }

  lemma JoinedNext(f: seq<Node>, n: nat, g: seq<Node>, m: nat, k: nat)
    requires n <= m <= |f| && k < |Joined(f, n, g, m)|
    ensures Get(Joined(f, n, g, m), k + 1) ==
      if k + 1 < n then f[k + 1]
      else if k + 1 < n + |g| then g[k + 1 - n]
      else Get(f, m + (k + 1 - n - |g|))
  {
    JoinedLength(f, n, g, m);
    if k + 1 < |Joined(f, n, g, m)| {
      JoinedAt(f, n, g, m, k + 1);
    }
  }

  lemma JoinedLink(f: seq<Node>, sib: Links, x: Node, next: Node, n: nat, g: seq<Node>, m: nat, k: nat)
    requires Chain(sib, f) && Distinct(f) && 0 < n <= m <= |f| && f[n - 1] == next && k < |Joined(f, n, g, m)|
    requires x in sib && x != next && (FirstFrom(f, 0, x.name) < |f| ==> f[FirstFrom(f, 0, x.name)] != x)
    requires Trail(sib, sib[x], g, Get(f, m)) && forall j :: 0 <= j < |g| ==> g[j] !in f && g[j] != x
    requires forall l :: 0 <= l < |f| && (l < n || m <= l) ==> f[l] != x
    ensures var h, after := Joined(f, n, g, m), AfterCut(sib, f, x, next);
      h[k] in after && after[h[k]] == Get(h, k + 1)
  {
    hide FirstFrom, AfterCut, Joined;
    JoinedAt(f, n, g, m, k);
    JoinedNext(f, n, g, m, k);
    OtherAt(sib, f, x, next, Joined(f, n, g, m)[k]);
    if k < n - 1 {
      DistinctAt(f, k, n - 1);
    } else if n <= k < n + |g| {
      TrailAt(sib, sib[x], g, Get(f, m), k - n);
    } else if k >= n + |g| {
      DistinctAt(f, n - 1, m + k - n - |g|);
    }
  }

  lemma JoinedChain(s: seq<Node>, f: seq<Node>, sib: Links, i: nat, next: Node, n: nat, g: seq<Node>, m: nat)
    requires Detours(s, f, sib, i, next, n) && n <= m <= |f|
    requires s[i] in sib && Trail(sib, sib[s[i]], g, Get(f, m)) && AllOff(s, f, sib, n, s[i], g)
    ensures Chain(AfterCut(sib, f, s[i], next), Joined(f, n, g, m))
  {
    hide FirstFrom, FirstNamed, Findable, FindsAll, Joined, AfterCut, Trail;
    ChainFacts(s, f);
    NotLookedUp(s, f, i);
    CutLeftOut(s, f, sib, i, next, n, g, m);
    NamesakeFacts(s, i, next);
    var h, after := Joined(f, n, g, m), AfterCut(sib, f, s[i], next);
    forall k | 0 <= k < |h|
      ensures h[k] in after && after[h[k]] == Get(h, k + 1)
    {
      JoinedLink(f, sib, s[i], next, n, g, m, k);
    }
  }

  lemma JoinedWithin(s: seq<Node>, f: seq<Node>, sib: Links, i: nat, next: Node, n: nat, g: seq<Node>, m: nat)
    requires Detours(s, f, sib, i, next, n) && n <= m <= |f|
    requires s[i] in sib && Trail(sib, sib[s[i]], g, Get(f, m)) && AllOff(s, f, sib, n, s[i], g)
    requires Distinct(g)
    ensures Within(Joined(f, n, g, m), Removed(s, i)) && Distinct(Joined(f, n, g, m))
  {
    hide FirstFrom, FirstNamed, Findable, Joined, Removed;
    var h := Joined(f, n, g, m);
    CutLeftOut(s, f, sib, i, next, n, g, m);
    forall k | 0 <= k < |h|
      ensures h[k] in Removed(s, i)
    {
      JoinedAt(f, n, g, m, k);
      RemovedHas(s, i, h[k]);
    }
    forall k, l | 0 <= k < l < |h|
      ensures h[k] != h[l]
    {
      JoinedAt(f, n, g, m, k);
      JoinedAt(f, n, g, m, l);
    }
  }

  /** The joined chain finds what the old one found. */
  lemma JoinedFinds(f: seq<Node>, n: nat, g: seq<Node>, m: nat, name: string)
    requires n <= m <= |f| && OnlyRepeats(f, n, m)
    requires forall j :: 0 <= j < |g| ==> FirstFrom(f, 0, g[j].name) < n
    ensures FirstNamed(Joined(f, n, g, m), name) == FirstNamed(f, name)
  {
    hide Joined;
    var h, r := Joined(f, n, g, m), FirstFrom(f, 0, name);
    JoinedLength(f, n, g, m);
    assert n <= r < |f| ==> r >= m;
    hide OnlyRepeats;
    var e := if r < n then r else n + |g| + r - m;
    forall k | 0 <= k < e && k < |h|
      ensures h[k].name != name
    {
      JoinedAt(f, n, g, m, k);
    }
    if e < |h| {
      JoinedAt(f, n, g, m, e);
    }
    assert FirstFrom(h, 0, name) == e;
  }

  /** If the walk rejoins the chain, the lookup stays right. */
  lemma RejoinedFinds(s: seq<Node>, f: seq<Node>, sib: Links, i: nat, next: Node, n: nat) returns (h: seq<Node>)
    requires Detours(s, f, sib, i, next, n) && Rejoins(s, f, sib, n, s[i], sib[s[i]])
    ensures FindsAll(Removed(s, i), h) && Chain(AfterCut(sib, f, s[i], next), h)
  {
    hide FirstFrom, FirstNamed, RejoinsIn, OnlyRepeats, AfterCut, Joined, Removed, Within, Distinct;
    var k: nat :| RejoinsIn(s, f, sib, n, s[i], sib[s[i]], k);
    var g, m := Detour(s, f, sib, n, s[i], sib[s[i]], k);
    h := Joined(f, n, g, m);
    DetourDistinct(s, f, sib, n, s[i], g, k);
    JoinedChain(s, f, sib, i, next, n, g, m);
    JoinedWithin(s, f, sib, i, next, n, g, m);
    NotLookedUp(s, f, i);
    JoinedLength(f, n, g, m);
    JoinedAt(f, n, g, m, 0);
    RemovedStart(s, i);
    forall name
      ensures FirstNamed(h, name) == FirstNamed(Removed(s, i), name)
    {
      JoinedFinds(f, n, g, m, name);
      FoundElsewhere(s, f, i, name);
    }
  }

  lemma DetourDistinct(s: seq<Node>, f: seq<Node>, sib: Links, n: nat, x: Node, g: seq<Node>, k: nat)
    requires |g| == k && forall j :: 0 <= j < |g| ==> RejoinsIn(s, f, sib, n, x, g[j], k - j)
    ensures Distinct(g)
  {
    forall a, b | 0 <= a < b < |g|
      ensures g[a] != g[b]
    {
      if g[a] == g[b] {
        StepsUnique(s, f, sib, n, x, g[a], k - a, k - b);
      }
    }
  }

  lemma NotThere(s: seq<Node>, i: nat, h: seq<Node>, j: nat)
    requires Distinct(s) && i < |s| && FindsAll(Removed(s, i), h) && j < |h|
    ensures h[j] != s[i] && h[j] in s
  {
    ChainFacts(Removed(s, i), h);
    CutIsGone(s, i);
    InRemoved(s, i, h[j]);
  }

  /** One step of a walk along the old chain. */
  lemma AlongStep(f: seq<Node>, sib: Links, x: Node, next: Node, h: seq<Node>, j: nat, m: nat)
    requires x in sib && Chain(sib, f) && Chain(AfterCut(sib, f, x, next), h)
    requires j < |h| && m < |f| && h[j] == f[m] != x && f[m] != next
    requires FirstFrom(f, 0, x.name) < |f| ==> f[FirstFrom(f, 0, x.name)] != x
    ensures Get(h, j + 1) == Get(f, m + 1)
  {
    hide FirstFrom, AfterCut;
    OtherAt(sib, f, x, next, f[m]);
  }

  /** Up to the namesake every walk that finds all goes along the old chain. */
  lemma {:induction false} SameStart(s: seq<Node>, f: seq<Node>, sib: Links, i: nat, next: Node, n: nat, h: seq<Node>, j: nat)
    requires Detours(s, f, sib, i, next, n) && j < n
    requires FindsAll(Removed(s, i), h) && Chain(AfterCut(sib, f, s[i], next), h)
    ensures j < |h| && h[j] == f[j]
  {
    hide FirstFrom, FirstNamed, FindsAll, AfterCut, Chain, Removed;
    NotLookedUp(s, f, i);
    ChainFacts(s, f);
    if j == 0 {
      ChainFacts(Removed(s, i), h);
      RemovedStart(s, i);
    } else {
      SameStart(s, f, sib, i, next, n, h, j - 1);
      NotThere(s, i, h, j - 1);
      DistinctAt(f, j - 1, n - 1);
      AlongStep(f, sib, s[i], next, h, j - 1, j - 1);
    }
  }

  /** From where a walk is on the old chain, behind the namesake, it goes along the chain. */
  lemma {:induction false} AlongChain(s: seq<Node>, f: seq<Node>, sib: Links, i: nat, next: Node, n: nat,
                                       h: seq<Node>, j: nat, m: nat, q: nat)
    requires Detours(s, f, sib, i, next, n) && j + q < |h| && n <= m < |f| && h[j] == f[m]
    requires FindsAll(Removed(s, i), h) && Chain(AfterCut(sib, f, s[i], next), h)
    ensures m + q < |f| && h[j + q] == f[m + q]
  {
    hide FirstFrom, FirstNamed, FindsAll, AfterCut, Chain, Removed, Distinct;
    NotLookedUp(s, f, i);
    ChainFacts(s, f);
    if q > 0 {
      AlongChain(s, f, sib, i, next, n, h, j, m, q - 1);
      NotThere(s, i, h, j + q - 1);
      DistinctAt(f, n - 1, m + q - 1);
      AlongStep(f, sib, s[i], next, h, j + q - 1, m + q - 1);
    }
  }

  /** Where every walk that finds all has left the chain, the entries left out are repeats. */
  lemma LeftOutRepeat(s: seq<Node>, f: seq<Node>, sib: Links, i: nat, next: Node, n: nat, h: seq<Node>, j: nat, m: nat, l: nat)
    requires Detours(s, f, sib, i, next, n) && n <= j <= |h| && n <= l < m <= |f|
    requires FindsAll(Removed(s, i), h) && Chain(AfterCut(sib, f, s[i], next), h)
    requires (forall a :: n <= a < j ==> h[a] !in f) && Get(h, j) == Get(f, m)
    ensures FirstFrom(f, 0, f[l].name) < n
  {
    hide FirstNamed, Findable, FindsAll, AfterCut, Chain, Removed;
    ChainFacts(s, f);
    ChainFacts(Removed(s, i), h);
    var name, r := f[l].name, FirstFrom(f, 0, f[l].name);
    NotLookedUp(s, f, i);
    FoundElsewhere(s, f, i, name);
    FoundAt(Removed(s, i), h, name);
    FoundIs(f, name);
    FoundIs(h, name);
    var e := FirstFrom(h, 0, name);
    assert e < |h| && h[e] == f[r] && r <= l;
    if e < n {
      SameStart(s, f, sib, i, next, n, h, e);
    } else {
      assert e >= j;
      AlongChain(s, f, sib, i, next, n, h, j, m, e - j);
    }
  }

  lemma JoinsAt(s: seq<Node>, f: seq<Node>, sib: Links, n: nat, x: Node, m: nat)
    requires n <= m <= |f| && OnlyRepeats(f, n, m)
    ensures RejoinsIn(s, f, sib, n, x, Get(f, m), 0)
  {
  }

  lemma JoinsLater(s: seq<Node>, f: seq<Node>, sib: Links, n: nat, x: Node, z: Node, k: nat)
    requires OffChain(s, f, sib, n, x, z) && RejoinsIn(s, f, sib, n, x, sib[z], k)
    ensures RejoinsIn(s, f, sib, n, x, z, k + 1)
  {
  }

  /** Where a walk that finds all comes back to the chain, or ends. */
  lemma BackOnChain(s: seq<Node>, f: seq<Node>, sib: Links, i: nat, next: Node, n: nat, h: seq<Node>, j: nat) returns (m: nat)
    requires Detours(s, f, sib, i, next, n) && n <= j <= |h| && (j < |h| ==> h[j] in f)
    requires FindsAll(Removed(s, i), h) && Chain(AfterCut(sib, f, s[i], next), h)
    ensures n <= m <= |f| && Get(h, j) == Get(f, m)
  {
    hide FirstFrom, FirstNamed, FindsAll, AfterCut, Chain, Removed;
    if j == |h| {
      m := |f|;
    } else {
      m := Behind(f, h[j]) - 1;
      ChainFacts(Removed(s, i), h);
      if m < n {
        SameStart(s, f, sib, i, next, n, h, m);
        DistinctAt(h, m, j);
      }
    }
  }

  lemma {:induction false} FoundFrom(s: seq<Node>, f: seq<Node>, sib: Links, i: nat, next: Node, n: nat, h: seq<Node>, j: nat)
    returns (k: nat)
    requires Detours(s, f, sib, i, next, n) && n <= j <= |h|
    requires FindsAll(Removed(s, i), h) && Chain(AfterCut(sib, f, s[i], next), h)
    requires forall a :: n <= a < j ==> h[a] !in f
    ensures RejoinsIn(s, f, sib, n, s[i], Get(h, j), k)
    decreases |h| - j
  {
    hide FirstFrom, FirstNamed, FindsAll, AfterCut, Chain, RejoinsIn, OffChain, Cuttable, Removed;
    CutIn(s, f, sib, i, next);
    if j == |h| || h[j] in f {
      k := 0;
      var m := BackOnChain(s, f, sib, i, next, n, h, j);
      forall l | n <= l < m
        ensures FirstFrom(f, 0, f[l].name) < n
      {
        LeftOutRepeat(s, f, sib, i, next, n, h, j, m, l);
      }
      JoinsAt(s, f, sib, n, s[i], m);
    } else {
      OffChainStep(s, f, sib, i, next, n, h, j);
      k := FoundFrom(s, f, sib, i, next, n, h, j + 1);
      JoinsLater(s, f, sib, n, s[i], h[j], k);
      k := k + 1;
    }
  }

  /** A tag of the walk that is not on the chain repeats a name found before. */
  lemma OffChainStep(s: seq<Node>, f: seq<Node>, sib: Links, i: nat, next: Node, n: nat, h: seq<Node>, j: nat)
    requires Detours(s, f, sib, i, next, n) && n <= j < |h|
    requires FindsAll(Removed(s, i), h) && Chain(AfterCut(sib, f, s[i], next), h)
    requires forall a :: n <= a <= j ==> h[a] !in f
    ensures OffChain(s, f, sib, n, s[i], h[j]) && sib[h[j]] == Get(h, j + 1)
  {
    hide FirstNamed, Findable, AfterCut;
    var y := h[j];
    NotLookedUp(s, f, i);
    CutIsGone(s, i);
    InRemoved(s, i, y);
    FoundElsewhere(s, f, i, y.name);
    FoundAt(Removed(s, i), h, y.name);
    FoundIs(f, y.name);
    FoundIs(h, y.name);
    var e, r := FirstFrom(h, 0, y.name), FirstFrom(f, 0, y.name);
    assert e <= j && r < |f| && h[e] == f[r];
    assert e < n;
    SameStart(s, f, sib, i, next, n, h, e);
    assert f[n - 1] == next;
    OtherAt(sib, f, s[i], next, y);
  }

  lemma InRemoved(s: seq<Node>, i: nat, y: Node)
    requires i < |s| && y in Removed(s, i)
    ensures y in s
  {
  }

  /** If some walk finds all, the walk from the cut tag's pointer rejoins the chain. */
  lemma FoundRejoins(s: seq<Node>, f: seq<Node>, sib: Links, i: nat, next: Node, n: nat, h: seq<Node>)
    requires Detours(s, f, sib, i, next, n)
    requires FindsAll(Removed(s, i), h) && Chain(AfterCut(sib, f, s[i], next), h)
    ensures Rejoins(s, f, sib, n, s[i], sib[s[i]])
  {
    hide FirstFrom, FirstNamed, Findable, AfterCut, RejoinsIn;
    NotLookedUp(s, f, i);
    NamesakeFacts(s, i, next);
    SameStart(s, f, sib, i, next, n, h, n - 1);
    OtherAt(sib, f, s[i], next, next);
    var k := FoundFrom(s, f, sib, i, next, n, h, n);
  }

  // ---------------------------------------------------------------- the exact condition

  /** Exactly under the condition there is a walk after ezxml_cut that finds all. */
  lemma CutIsExact(s: seq<Node>, f: seq<Node>, sib: Links, i: nat, next: Node?)
    requires Cuttable(s, f, sib, i, next)
    ensures KeepsLookup(s, f, sib, i, next) <==>
      exists h :: FindsAll(Removed(s, i), h) && Chain(AfterCut(sib, f, s[i], next), h)
  {
    hide *;
    CutIn(s, f, sib, i, next);
    if KeepsLookup(s, f, sib, i, next) {
      var h := KeptWalk(s, f, sib, i, next);
    } else {
      forall h | FindsAll(Removed(s, i), h) && Chain(AfterCut(sib, f, s[i], next), h)
        ensures false
      {
        NoWalk(s, f, sib, i, next, h);
      }
    }
  }

  lemma CutIn(s: seq<Node>, f: seq<Node>, sib: Links, i: nat, next: Node?)
    requires Cuttable(s, f, sib, i, next)
    ensures i < |s| && s[i] in sib
  {
  }

  lemma NoWalk(s: seq<Node>, f: seq<Node>, sib: Links, i: nat, next: Node?, h: seq<Node>)
    requires Cuttable(s, f, sib, i, next) && FindsAll(Removed(s, i), h) && Chain(AfterCut(sib, f, s[i], next), h)
    ensures KeepsLookup(s, f, sib, i, next)
  {
    hide FirstFrom, FirstNamed, Findable, FindsAll, Rejoins, AfterCut, Removed, Within, Chain, Distinct;
    if FirstNamed(f, s[i].name) == s[i] {
      if next != null && next in f {
        NamesakeLoops(s, f, sib, i, next, h);
      } else if !HeadFits(s, f, i, next) {
        LookedUpOnce(f, s[i]);
        var g := HeadWalk(s, f, sib, next);
        ChainFacts(Removed(s, i), h);
        ChainUnique(AfterCut(sib, f, s[i], next), g, h);
        Unfound(Removed(s, i), h);
      }
    } else if next == null || next !in f {
      if s[i] in f {
        ChainFacts(Removed(s, i), h);
        CutStaysOn(s, f, sib, i, next, h);
        GoneFrom(s, i, h);
      }
    } else {
      FoundRejoins(s, f, sib, i, next, Behind(f, next), h);
    }
  }

  lemma GoneFrom(s: seq<Node>, i: nat, h: seq<Node>)
    requires Distinct(s) && i < |s| && Within(h, Removed(s, i))
    ensures s[i] !in h
  {
    CutIsGone(s, i);
  }

  lemma LookedUpOnce(f: seq<Node>, x: Node)
    requires FirstNamed(f, x.name) == x
    ensures x in f
  {
  }

  lemma Unfound(t: seq<Node>, h: seq<Node>)
    ensures FindsAll(t, h) ==> Findable(t, h)
  {
  }

  lemma KeptWalk(s: seq<Node>, f: seq<Node>, sib: Links, i: nat, next: Node?) returns (h: seq<Node>)
    requires Cuttable(s, f, sib, i, next) && KeepsLookup(s, f, sib, i, next)
    ensures FindsAll(Removed(s, i), h) && Chain(AfterCut(sib, f, s[i], next), h)
    ensures OnceChained(f, s[i], next) ==> h == ChainCut(f, s[i], next) && (NamesDistinct(f) ==> NamesDistinct(h))
  {
    hide FirstFrom, FirstNamed, Findable, FindsAll, Rejoins, AfterCut, Removed, Within, Chain, Distinct, NamesDistinct, ChainCut;
    if next != null && next in f {
      h := RejoinedFinds(s, f, sib, i, next, Behind(f, next));
    } else {
      if i == 0 {
        HeadLookedUp(s, f);
        h := HeadWalk(s, f, sib, next);
      } else {
        h := ChainCut(f, s[i], next);
        LaterChain(s, f, sib, i, next);
      }
      CutFinds(s, f, i, next);
    }
  }

  lemma HeadLookedUp(s: seq<Node>, f: seq<Node>)
    requires FindsAll(s, f) && s != []
    ensures FirstNamed(f, s[0].name) == s[0]
  {
    FoundAt(s, f, s[0].name);
    HeadIsFirst(s);
  }

  // ---------------------------------------------------------------- ezxml_cut

  /** The ordered list of ezxml_cut for the head. */
  method CutHead(xml: Node, p: Node, ghost s: seq<Node>)
    requires OrderedOn(p, s) && NextOn(s) && s != [] && xml == s[0]
    modifies p`child
    ensures OrderedOn(p, Removed(s, 0)) && NextOn(Removed(s, 0))
  {
    hide FirstFrom;
    NextWithoutHead(s);
    p.child := xml.ordered;
    RemovedLinks(s, 0, p);
  }

  /** The walk of ezxml_cut along the chain, to the entry before the one of the name. */
  method EntryBefore(xml: Node, head: Node, ghost s: seq<Node>, ghost f: seq<Node>, ghost sib: Links, ghost c: nat)
    returns (cur: Node)
    requires Chain(sib, f) && Within(f, s) && xml in sib && 0 < c < |f| && c == FirstFrom(f, 0, xml.name) && f[0] == head
    requires (xml.next != null ==> xml.next.name == xml.name) && Sibs(s) == Patched(sib, xml, xml.next)
    ensures cur == f[c - 1] && cur.sibling == f[c]
  {
    hide FirstFrom, Patched, Sibs, Chain;
    cur := head;
    ghost var k: nat := 0;
    Before(s, f, sib, xml, xml.next, c, 0);
    while cur.sibling.name != xml.name
      invariant k < c && cur == f[k] && cur.sibling == f[k + 1]
      decreases c - k
    {
      cur := cur.sibling;
      k := k + 1;
      Before(s, f, sib, xml, xml.next, c, k);
    }
  }

  /** The search of ezxml_cut for a tag that is not the head, along the chain to the entry of its
      name; `from` is where the search along `next` starts. */
  method CutSibling(xml: Node, head: Node, ghost s: seq<Node>, ghost f: seq<Node>, ghost sib: Links, ghost i: nat)
    returns (from: Node, ghost j: nat)
    requires Cuttable(s, f, sib, i, xml.next) && 0 < i && xml == s[i] && head == s[0]
    requires Sibs(s) == Patched(sib, xml, xml.next)
    modifies s`sibling
    ensures Sibs(s) == Relinked(Patched(sib, xml, xml.next), f, xml, xml.next)
    ensures j < |s| && from == s[j] && (from.name == xml.name ==> j < i)
    ensures from.name != xml.name ==> FirstFrom(s, 0, xml.name) == i
  {
    hide FirstFrom, FindsAll, Distinct, Chain, Patched, Relinked, Sibs;
    ChainFacts(s, f);
    EntryIsCut(s, f, i);
    NamesakeFacts(s, i, xml.next);
    ghost var c := FirstFrom(f, 0, xml.name);
    DistinctAt(s, 0, i);
    HeadStays(sib, f, xml, xml.next);
    from := head;
    if from.name != xml.name {
      from := EntryBefore(xml, head, s, f, sib, c);
      if from.sibling == xml {
        LeadPast(xml, from, s, f, sib, c);
      } else {
        from := from.sibling;
      }
    }
    j := IndexIn(s, i, from);
  }

  /** Without the tag as the entry of its name, no pointer of the chain is redirected. */
  lemma HeadStays(sib: Links, f: seq<Node>, x: Node, next: Node?)
    requires x in sib && FirstFrom(f, 0, x.name) < |f|
    ensures f[FirstFrom(f, 0, x.name)] != x ==> Relinked(Patched(sib, x, next), f, x, next) == Patched(sib, x, next)
    ensures f[0].name == x.name ==> FirstFrom(f, 0, x.name) == 0
  {
  }

  /** cur->sibling = (xml->next) ? xml->next : cur->sibling->sibling */
  method LeadPast(xml: Node, cur: Node, ghost s: seq<Node>, ghost f: seq<Node>, ghost sib: Links, ghost c: nat)
    requires xml in s && cur in s && xml in sib && c == FirstFrom(f, 0, xml.name) && 0 < c < |f| && f[c] == xml && cur == f[c - 1]
    requires cur.sibling == xml && xml.next != xml && Sibs(s) == Patched(sib, xml, xml.next)
    modifies cur`sibling
    ensures Sibs(s) == Relinked(Patched(sib, xml, xml.next), f, xml, xml.next)
  {
    hide FirstFrom;
    assert xml in Sibs(s);
    cur.sibling := if xml.next != null then xml.next else cur.sibling.sibling;
  }

  /** Before the entry of its name, the first statement has changed no pointer of the chain. */
  lemma Before(s: seq<Node>, f: seq<Node>, sib: Links, x: Node, next: Node?, c: nat, k: nat)
    requires Chain(sib, f) && Within(f, s) && x in sib && k < c < |f| && c == FirstFrom(f, 0, x.name)
    requires (next != null ==> next.name == x.name) && Sibs(s) == Patched(sib, x, next)
    ensures f[k].sibling == f[k + 1] && f[k].name != x.name
  {
    assert f[k] in Sibs(s);
  }

  /** The part of ezxml_cut for a tag that is not the head. */
  method CutLater(xml: Node, p: Node, ghost s: seq<Node>, ghost f: seq<Node>, ghost sib: Links, ghost i: nat)
    requires OrderedOn(p, s) && NextOn(s) && Cuttable(s, f, sib, i, xml.next) && 0 < i && xml == s[i]
    requires Sibs(s) == Patched(sib, xml, xml.next)
    modifies s`ordered, s`next, s`sibling
    ensures OrderedOn(p, Removed(s, i)) && NextOn(Removed(s, i))
    ensures Sibs(s) == Relinked(Patched(sib, xml, old(xml.next)), f, xml, old(xml.next))
  {
    hide *;
    CutIn(s, f, sib, i, xml.next);
    HeadIs(p, s);
    ghost var links, next := Sibs(s), xml.next;
    UnlinkOrdered(xml, p, s, i);
    ghost var t := Removed(s, i);
    ghost var ordered, links' := OrderedOn(p, t), Sibs(s);
    assert ordered && links' == links;
    CutNames(xml, p.child, s, f, sib, i);
    ghost var ordered' := OrderedOn(p, t);
    assert ordered';
  }

  lemma HeadIs(p: Node, s: seq<Node>)
    requires OrderedOn(p, s) && s != []
    ensures p.child == s[0] && Distinct(s)
  {
  }

  method CutNames(xml: Node, head: Node, ghost s: seq<Node>, ghost f: seq<Node>, ghost sib: Links, ghost i: nat)
    requires NextOn(s) && Cuttable(s, f, sib, i, xml.next) && 0 < i && xml == s[i] && head == s[0]
    requires Sibs(s) == Patched(sib, xml, xml.next)
    modifies s`next, s`sibling
    ensures NextOn(Removed(s, i))
    ensures Sibs(s) == Relinked(Patched(sib, xml, old(xml.next)), f, xml, old(xml.next))
  {
    hide NextOn, Sibs, FirstFrom, FindsAll, Chain, Removed, Patched, Relinked;
    var from;
    ghost var j;
    from, j := CutSibling(xml, head, s, f, sib, i);
    ghost var links := Sibs(s);
    UnlinkNext(xml, from, s, i, j);
    ghost var links' := Sibs(s);
    assert links' == links;
  }

  /** The first statement of ezxml_cut. */
  method PatchSibling(xml: Node, ghost s: seq<Node>)
    requires xml in s && (xml.next != null ==> xml.next in s)
    modifies s`sibling
    ensures Sibs(s) == Patched(old(Sibs(s)), xml, xml.next)
  {
    if xml.next != null {
      xml.next.sibling := xml.sibling;
    }
  }

  /** The statements of ezxml_cut, for a parent whose list is s and whose chain is f. */
  method CutFrom(xml: Node, p: Node, ghost s: seq<Node>, ghost f: seq<Node>, ghost sib: Links, ghost i: nat)
    requires OrderedOn(p, s) && NextOn(s) && Cuttable(s, f, sib, i, xml.next) && xml == s[i] && sib == Sibs(s)
    modifies p`child, s`ordered, s`next, s`sibling
    ensures OrderedOn(p, Removed(s, i)) && NextOn(Removed(s, i))
    ensures Sibs(s) == AfterCut(sib, f, xml, old(xml.next))
    ensures xml.ordered == null && xml.sibling == null && xml.next == null
  {
    hide Findable, Removed, FirstFrom, NextOn, Sibs, Patched, Relinked, FindsAll, Chain;
    NamesakeFacts(s, i, xml.next);
    HeadIs(p, s);
    PatchSibling(xml, s);
    ghost var next := xml.next;
    if p.child == xml {
      SameIndex(s, i);
      CutHead(xml, p, s);
      HeadRelinks(s, f, Patched(sib, xml, next), xml, next);
    } else {
      CutLater(xml, p, s, f, sib, i);
    }
    ClearLinks(xml, p, s, i);
  }

  lemma SameIndex(s: seq<Node>, i: nat)
    requires Distinct(s) && i < |s| && s[i] == s[0]
    ensures i == 0
  {
  }

  lemma HeadRelinks(s: seq<Node>, f: seq<Node>, sib: Links, x: Node, next: Node?)
    requires FindsAll(s, f) && s != [] && s[0] == x && x in sib
    ensures Relinked(sib, f, x, next) == sib
  {
    ChainFacts(s, f);
    HeadIsFirst(f);
  }

  /** The last statement of ezxml_cut. */
  method ClearLinks(xml: Node, p: Node, ghost s: seq<Node>, ghost i: nat)
    requires Distinct(s) && i < |s| && xml == s[i]
    requires OrderedOn(p, Removed(s, i)) && NextOn(Removed(s, i))
    modifies xml`ordered, xml`sibling, xml`next
    ensures OrderedOn(p, Removed(s, i)) && NextOn(Removed(s, i))
    ensures Sibs(s) == old(Sibs(s))[xml := null]
    ensures xml.ordered == null && xml.sibling == null && xml.next == null
  {
    CutIsGone(s, i);
    ghost var t := Removed(s, i);
    ghost var before, after := OrderedOn(p, t), NextOn(t);
    assert before && after;
    hide Removed;
    xml.ordered, xml.sibling, xml.next := null, null, null;
    ghost var before', after' := OrderedOn(p, t), NextOn(t);
    assert before' && after';
  }

  /** KeepsLookup for the i-th sub tag of a parent, as the pointers stand. */
  ghost predicate CutKeeps(p: Node, i: nat)
    requires i < |p.kids|
    reads p`kids, p`firsts, p.kids`next, p.kids`sibling
  {
    KeepsLookup(p.kids, p.firsts, Sibs(p.kids), i, p.kids[i].next)
  }

  /** The chain that the ghost field records after the cut. */
  lemma NewChain(s: seq<Node>, f: seq<Node>, sib: Links, i: nat, next: Node?) returns (h: seq<Node>)
    requires Cuttable(s, f, sib, i, next)
    ensures KeepsLookup(s, f, sib, i, next) ==> FindsAll(Removed(s, i), h) && Chain(AfterCut(sib, f, s[i], next), h)
    ensures OnceChained(f, s[i], next) ==> Chain(AfterCut(sib, f, s[i], next), h) && Get(h, 0) == Get(Removed(s, i), 0)
    ensures OnceChained(f, s[i], next) ==> Within(h, Removed(s, i))
    ensures OnceChained(f, s[i], next) ==> (Findable(Removed(s, i), h) <==> KeepsLookup(s, f, sib, i, next))
    ensures OnceChained(f, s[i], next) && KeepsLookup(s, f, sib, i, next) ==>
      h == ChainCut(f, s[i], next) && (NamesDistinct(f) ==> NamesDistinct(h))
  {
    hide *;
    CutIn(s, f, sib, i, next);
    var keeps := KeepsLookup(s, f, sib, i, next);
    if keeps {
      h := KeptWalk(s, f, sib, i, next);
      ChainFacts(Removed(s, i), h);
      Unfound(Removed(s, i), h);
    } else if OnceChained(f, s[i], next) {
      KeepsWithoutRepeats(s, f, sib, i, next);
      OnlyHeads(s, f, i, next);
      h := HeadWalk(s, f, sib, next);
    } else {
      h := [];
    }
  }

  lemma OnlyHeads(s: seq<Node>, f: seq<Node>, i: nat, next: Node?)
    requires !HeadFits(s, f, i, next)
    ensures i == 0
  {
  }

  /** ezxml_cut of a sub tag. The list and `next` stay right in every case, and every pointer is
      what AfterCut says; there is a walk that finds the first tag of every name if and only if
      the condition CutKeeps held before. For a tag that is on the chain at most once, and its
      next namesake not, the walk is the old one without the tag, and otherwise loses a name. */
  method Cut(xml: Node, p: Node, ghost i: nat)
    requires xml.parent == p && Linked(p) && LookupView(p) && i < |p.kids| && xml == p.kids[i]
    modifies p`child, p`kids, p`firsts, p.kids`ordered, p.kids`next, p.kids`sibling
    ensures p.kids == Removed(old(p.kids), i) && Linked(p)
    ensures Sibs(old(p.kids)) == old(AfterCut(Sibs(p.kids), p.firsts, xml, xml.next))
    ensures LookupView(p) <==> old(CutKeeps(p, i))
    ensures (exists h :: FindsAll(p.kids, h) && Chained(h)) <==> old(CutKeeps(p, i))
    ensures old(OnceChained(p.firsts, xml, xml.next)) ==>
      Walk(p) && Within(p.firsts, p.kids) && (Findable(p.kids, p.firsts) <==> old(CutKeeps(p, i)))
    ensures old(OnceChained(p.firsts, xml, xml.next) && CutKeeps(p, i)) ==> p.firsts == ChainCut(old(p.firsts), xml, old(xml.next))
    ensures LookupView(p) && old(SiblingView(p)) ==> SiblingView(p)
    ensures xml.ordered == null && xml.sibling == null && xml.next == null
  {
    hide *;
    ViewsOf(p);
    ghost var s, f, sib, next := p.kids, p.firsts, Sibs(p.kids), xml.next;
    StartsCuttable(s, f, i);
    ghost var keeps := CutKeeps(p, i);
    KeepsIs(p, i);
    ghost var h := NewChain(s, f, sib, i, next);
    if NamesDistinct(f) {
      AlwaysOnceChained(s, f, i);
    }
    CutFrom(xml, p, s, f, sib, i);
    ghost var t := Removed(s, i);
    RemovedWithin(s, i);
    ghost var o, n := OrderedOn(p, t), NextOn(t);
    assert o && n;
    p.kids, p.firsts := t, h;
    ghost var o', n', sib' := OrderedOn(p, t), NextOn(t), Sibs(s);
    assert o' && n' && sib' == AfterCut(sib, f, xml, next);
    AllViews(p, t, h);
    CutIsExact(s, f, sib, i, next);
    AfterViews(p, s, t, h, keeps);
  }

  lemma RemovedWithin(s: seq<Node>, i: nat)
    requires i < |s|
    ensures Within(Removed(s, i), s)
  {
  }

  lemma AllViews(p: Node, t: seq<Node>, h: seq<Node>)
    requires p.kids == t && p.firsts == h && OrderedOn(p, t) && NextOn(t)
    ensures Linked(p) && (LookupView(p) <==> FindsAll(t, h) && Chained(h))
    ensures SiblingView(p) <==> LookupView(p) && NamesDistinct(h)
    ensures Chained(h) && Get(h, 0) == Get(t, 0) ==> Walk(p)
  {
    hide NextOn, Findable, Chained, NamesDistinct, ByOffset, Distinct, Within, FindsAll;
  }

  lemma StartsCuttable(s: seq<Node>, f: seq<Node>, i: nat)
    requires FindsAll(s, f) && Chained(f) && NextOn(s) && Distinct(s) && i < |s|
    ensures Cuttable(s, f, Sibs(s), i, s[i].next)
  {
    hide Findable, FirstFrom, Chained, Chain;
    ChainedIs(s, f);
  }

  lemma KeepsIs(p: Node, i: nat)
    requires i < |p.kids|
    ensures CutKeeps(p, i) <==> KeepsLookup(p.kids, p.firsts, Sibs(p.kids), i, p.kids[i].next)
  {
  }

  /** The walks over the pointers as they stand. */
  lemma AfterViews(p: Node, s: seq<Node>, t: seq<Node>, h: seq<Node>, keeps: bool)
    requires Within(t, s) && (keeps <==> exists g :: FindsAll(t, g) && Chain(Sibs(s), g))
    requires keeps ==> FindsAll(t, h) && Chain(Sibs(s), h)
    ensures keeps <==> exists g :: FindsAll(t, g) && Chained(g)
    ensures keeps <==> FindsAll(t, h) && Chained(h)
    ensures Within(h, t) && Chain(Sibs(s), h) ==> Chained(h)
  {
    hide Chained, Chain, Findable;
    forall g | Within(g, t)
      ensures Chained(g) <==> Chain(Sibs(s), g)
    {
      ChainedIs(s, g);
    }
  }

  /** For a tag that is on the chain at most once, and its namesake not, only the next head
      matters. */
  lemma KeepsOnce(p: Node, i: nat)
    requires Linked(p) && LookupView(p) && i < |p.kids| && OnceChained(p.firsts, p.kids[i], p.kids[i].next)
    ensures CutKeeps(p, i) <==> HeadFits(p.kids, p.firsts, i, p.kids[i].next)
  {
    hide *;
    ViewsOf(p);
    StartsCuttable(p.kids, p.firsts, i);
    KeepsIs(p, i);
    KeepsWithoutRepeats(p.kids, p.firsts, Sibs(p.kids), i, p.kids[i].next);
  }
}

/** The sub tag lists of the XML engine: every tag hangs in three linked views of its
    parent's sub tags (`ordered`, `next` and `sibling`), which ezxml_insert and ezxml_cut
    patch and ezxml_child and ezxml_idx walk: the views, the lookups and ezxml_insert. */
module XmlLinks {

  class Node {
    const name: string
    var off: nat
    var next: Node?     // next tag with the same name
    var sibling: Node?  // for the first tag of a name: the first tag of some other name
    var ordered: Node?  // next tag in document order
    var child: Node?    // head of the sub tags
    var parent: Node?
    ghost var kids: seq<Node>    // sub tags in document order
    ghost var firsts: seq<Node>  // the chain of first tags

    constructor (name: string)
      ensures this.name == name && kids == [] && firsts == []
      ensures Linked(this) && SiblingView(this)
    {
      this.name := name;
      off := 0;
      next, sibling, ordered, child, parent := null, null, null, null, null;
      kids, firsts := [], [];
    }
  }

  // ---------------------------------------------------------------- the list and its filter

  function Get(s: seq<Node>, i: nat): (n: Node?) {
    if i < |s| then s[i] else null
  }

  /** First index from j on of a tag with this name, |s| when there is none. */
  function FirstFrom(s: seq<Node>, j: nat, name: string): (r: nat)
    requires j <= |s|
    ensures j <= r <= |s|
    ensures r < |s| ==> s[r].name == name
    ensures forall k :: j <= k < r ==> s[k].name != name
    decreases |s| - j
  {
    if j == |s| || s[j].name == name then j else FirstFrom(s, j + 1, name)
  }

  predicate Distinct(s: seq<Node>) {
    forall i, j :: 0 <= i < j < |s| ==> s[i] != s[j]
  }

  /** Linear filter of the list by name: the reference for child and idx. */
  function Filter(s: seq<Node>, name: string): seq<Node> {
    if s == [] then []
    else if s[0].name == name then [s[0]] + Filter(s[1..], name)
    else Filter(s[1..], name)
  }

  lemma {:induction false} FilterFrom(s: seq<Node>, j: nat, name: string)
    requires j <= |s|
    ensures var r := FirstFrom(s, j, name);
      Filter(s[j..], name) == if r < |s| then [s[r]] + Filter(s[r + 1..], name) else []
    decreases |s| - j
  {
    if j < |s| {
      assert s[j..][1..] == s[j + 1..];
      if s[j].name != name {
        FilterFrom(s, j + 1, name);
      }
    }
  }

  // ---------------------------------------------------------------- the three views

  /** Document order: p's sub tags are the list s, linked by `ordered` and sorted by offset. */
  ghost predicate OrderedOn(p: Node, s: seq<Node>)
    reads p`child, s`ordered, s`parent, s`off
  {
    Distinct(s) && p !in s && p.child == Get(s, 0) &&
    (forall i {:trigger s[i].ordered} :: 0 <= i < |s| ==> s[i].ordered == Get(s, i + 1)) &&
    (forall i {:trigger s[i].parent} :: 0 <= i < |s| ==> s[i].parent == p) && ByOffset(s)
  }

  ghost predicate ByOffset(s: seq<Node>)
    reads s`off
  {
    forall i, j :: 0 <= i < j < |s| ==> s[i].off <= s[j].off
  }

  /** `next` leads to the following tag of the same name. */
  ghost predicate NextOn(s: seq<Node>)
    reads s`next
  {
    forall i {:trigger s[i].next} :: 0 <= i < |s| ==> s[i].next == Get(s, FirstFrom(s, i + 1, s[i].name))
  }

  ghost predicate Linked(p: Node)
    reads p`child, p`kids, p.kids`ordered, p.kids`parent, p.kids`off, p.kids`next
  {
    OrderedOn(p, p.kids) && NextOn(p.kids)
  }

  /** The first tag of the list with this name. */
  function FirstNamed(s: seq<Node>, name: string): (n: Node?)
    ensures n != null ==> n.name == name && n in s
    ensures n == null ==> forall k :: 0 <= k < |s| ==> s[k].name != name
  {
    Get(s, FirstFrom(s, 0, name))
  }

  /** A search along the chain f finds the first tag of every name. */
  ghost predicate Findable(kids: seq<Node>, f: seq<Node>) {
    forall name :: FirstNamed(f, name) == FirstNamed(kids, name)
  }

  predicate Within(f: seq<Node>, s: seq<Node>) {
    forall k :: 0 <= k < |f| ==> f[k] in s
  }

  /** The chain f starts at the head and finds the first tag of every name. */
  ghost predicate FindsAll(kids: seq<Node>, f: seq<Node>) {
    Within(f, kids) && Distinct(f) && Get(f, 0) == Get(kids, 0) && Findable(kids, f)
  }

  predicate NamesDistinct(f: seq<Node>) {
    forall k, l :: 0 <= k < l < |f| ==> f[k].name != f[l].name
  }

  ghost predicate Chained(f: seq<Node>)
    reads f`sibling
  {
    forall k {:trigger f[k].sibling} :: 0 <= k < |f| ==> f[k].sibling == Get(f, k + 1)
  }

  /** p.firsts is what a walk along `sibling` from the head visits. */
  ghost predicate Walk(p: Node)
    reads p`child, p`firsts, p.firsts`sibling
  {
    Chained(p.firsts) && p.child == Get(p.firsts, 0)
  }

  /** The walk along `sibling` finds the first tag of every name. */
  ghost predicate LookupView(p: Node)
    reads p`kids, p`firsts, p.firsts`sibling
  {
    FindsAll(p.kids, p.firsts) && Chained(p.firsts)
  }

  /** Moreover, no name is on the chain twice. */
  ghost predicate SiblingView(p: Node)
    reads p`kids, p`firsts, p.firsts`sibling
  {
    LookupView(p) && NamesDistinct(p.firsts)
  }

  /** A chain that finds all and repeats no name consists of the first tags of all names. */
  lemma FirstTags(kids: seq<Node>, f: seq<Node>, k: nat)
    requires FindsAll(kids, f) && NamesDistinct(f) && k < |f|
    ensures f[k] == FirstNamed(kids, f[k].name)
  {
    assert FirstFrom(f, 0, f[k].name) == k;
    assert FirstNamed(f, f[k].name) == f[k];
  }

  // ---------------------------------------------------------------- lookups

  lemma FirstOfFilter(kids: seq<Node>, name: string)
    ensures Get(Filter(kids, name), 0) == FirstNamed(kids, name)
  {
    FilterFrom(kids, 0, name);
    assert kids[0..] == kids;
  }

  /** ezxml_child: the first entry of the chain with that name; where the chain finds all,
      the first tag of the filtered list. */
  method Child(p: Node, name: string) returns (xml: Node?)
    requires Walk(p)
    ensures xml == FirstNamed(p.firsts, name)
    ensures LookupView(p) ==> xml == Get(Filter(p.kids, name), 0)
  {
    xml := p.child;
    ghost var k := 0;
    while xml != null && xml.name != name
      invariant k <= |p.firsts| && xml == Get(p.firsts, k)
      invariant forall l :: 0 <= l < k ==> p.firsts[l].name != name
      decreases |p.firsts| - k
    {
      xml := xml.sibling;
      k := k + 1;
    }
    assert FirstFrom(p.firsts, 0, name) == k;
    FirstOfFilter(p.kids, name);
  }

  /** n steps along `next` from index i of the list. */
  ghost function Nth(s: seq<Node>, i: nat, name: string, n: nat): nat
    requires i <= |s|
    decreases n
  {
    if n == 0 || i == |s| then i else Nth(s, FirstFrom(s, i + 1, name), name, n - 1)
  }

  lemma FilterTail(s: seq<Node>, i: nat, name: string)
    requires i < |s| && s[i].name == name
    ensures var r := FirstFrom(s, i + 1, name);
      Filter(s[i..], name) == [s[i]] + (if r < |s| then Filter(s[r..], name) else [])
  {
    hide Filter, FirstFrom;
    var r := FirstFrom(s, i + 1, name);
    FirstHere(s, i);
    FilterFrom(s, i, name);
    FilterFrom(s, i + 1, name);
    if r < |s| {
      FirstHere(s, r);
      FilterFrom(s, r, name);
    }
  }

  lemma FirstHere(s: seq<Node>, i: nat)
    requires i < |s|
    ensures FirstFrom(s, i, s[i].name) == i
  {
  }

  lemma {:induction false} NthOfFilter(s: seq<Node>, i: nat, name: string, n: nat, f: seq<Node>)
    requires i < |s| && s[i].name == name && f == Filter(s[i..], name)
    ensures Get(s, Nth(s, i, name, n)) == Get(f, n)
    decreases n
  {
    FilterTail(s, i, name);
    var r := FirstFrom(s, i + 1, name);
    if n > 0 && r < |s| {
      NthOfFilter(s, r, name, n - 1, Filter(s[r..], name));
    }
  }

  /** ezxml_idx: from the i-th tag, the idx-th entry of the rest filtered by its name. */
  method Idx(p: Node, xml: Node?, idx: nat, ghost i: nat) returns (r: Node?)
    requires Linked(p) && i <= |p.kids| && xml == Get(p.kids, i)
    ensures r == if xml == null then null else Get(Filter(p.kids[i..], xml.name), idx)
  {
    r := xml;
    var n := idx;
    ghost var k: nat := i;
    while r != null && n > 0
      invariant k <= |p.kids| && r == Get(p.kids, k)
      invariant xml != null && r != null ==> r.name == xml.name
      invariant xml != null ==> Nth(p.kids, i, xml.name, idx) == Nth(p.kids, k, xml.name, n)
      invariant xml == null ==> r == null
      decreases n
    {
      k := FirstFrom(p.kids, k + 1, xml.name);
      r := r.next;
      n := n - 1;
    }
    if xml != null {
      NthOfFilter(p.kids, i, xml.name, idx, Filter(p.kids[i..], xml.name));
    }
  }

  // ---------------------------------------------------------------- inserting

  function Inserted<T>(s: seq<T>, i: nat, x: T): seq<T>
    requires i <= |s|
  {
    s[..i] + [x] + s[i..]
  }

  /** First tag of a name after an insertion. */
  lemma FirstAfterInsert(s: seq<Node>, pos: nat, x: Node, j: nat, name: string)
    requires j <= pos <= |s|
    ensures var t, r := Inserted(s, pos, x), FirstFrom(s, j, name);
      Get(t, FirstFrom(t, j, name)) == if name == x.name && r >= pos then x else Get(s, r)
  {
    var t, r := Inserted(s, pos, x), FirstFrom(s, j, name);
    var e := if r < pos then r else if name == x.name then pos else r + 1;
    forall k | j <= k < e
      ensures t[k].name != name
    {
      assert t[k] == if k < pos then s[k] else if k == pos then x else s[k - 1];
    }
    assert e < |t| ==> t[e].name == name;
    assert FirstFrom(t, j, name) == e;
  }

  lemma FirstBehindInsert(s: seq<Node>, pos: nat, x: Node, j: nat, name: string)
    requires pos <= j <= |s|
    ensures var t := Inserted(s, pos, x);
      Get(t, FirstFrom(t, j + 1, name)) == Get(s, FirstFrom(s, j, name))
  {
    var t, r := Inserted(s, pos, x), FirstFrom(s, j, name);
    forall k | j + 1 <= k < r + 1
      ensures t[k].name != name
    {
      assert t[k] == s[k - 1];
    }
    assert r < |s| ==> t[r + 1] == s[r];
    assert FirstFrom(t, j + 1, name) == r + 1;
  }

  /** Number of leading tags whose offset is not larger. */
  ghost predicate SplitsAt(s: seq<Node>, off: nat, pos: nat)
    reads s`off
  {
    pos <= |s| && forall i :: 0 <= i < |s| ==> (s[i].off <= off <==> i < pos)
  }

  /** The tag after which a new tag belongs in document order. */
  method LastNotAfter(dest: Node, off: nat, ghost s: seq<Node>) returns (cur: Node, ghost pos: nat)
    requires OrderedOn(dest, s) && s != [] && s[0].off <= off
    ensures 0 < pos && SplitsAt(s, off, pos) && cur == s[pos - 1]
  {
    cur := dest.child;
    pos := 1;
    while cur.ordered != null && cur.ordered.off <= off
      invariant 1 <= pos <= |s| && cur == s[pos - 1] && cur.off <= off
      decreases |s| - pos
    {
      cur := cur.ordered;
      pos := pos + 1;
    }
  }

  /** Part of ezxml_insert that links the tag in document order: after every tag whose
      offset is not larger. */
  method LinkOrdered(xml: Node, dest: Node, off: nat, ghost s: seq<Node>) returns (ghost pos: nat)
    requires OrderedOn(dest, s) && xml !in s && xml != dest
    modifies dest`child, s`ordered, xml`ordered, xml`off, xml`parent
    ensures SplitsAt(s, off, pos) && OrderedOn(dest, Inserted(s, pos, xml)) && xml.off == off && xml.parent == dest
  {
    hide Inserted;
    xml.off := off;
    xml.parent := dest;
    pos := 0;
    var head := dest.child;
    if head != null && head.off <= off {
      var cur;
      cur, pos := LastNotAfter(dest, off, s);
      LinkAfter(xml, dest, s, pos, cur);
    } else {
      LinkFirst(xml, dest, s);
    }
  }

  method LinkFirst(xml: Node, dest: Node, ghost s: seq<Node>)
    requires OrderedOn(dest, s) && xml !in s && xml != dest && xml.parent == dest && SplitsAt(s, xml.off, 0)
    modifies dest`child, xml`ordered
    ensures OrderedOn(dest, Inserted(s, 0, xml))
  {
    hide Inserted;
    xml.ordered := dest.child;
    dest.child := xml;
    InsertedLinks(s, 0, xml, dest);
  }

  method LinkAfter(xml: Node, dest: Node, ghost s: seq<Node>, ghost pos: nat, cur: Node)
    requires OrderedOn(dest, s) && xml !in s && xml != dest && xml.parent == dest
    requires 0 < pos && SplitsAt(s, xml.off, pos) && cur == s[pos - 1]
    modifies s`ordered, xml`ordered
    ensures OrderedOn(dest, Inserted(s, pos, xml))
  {
    hide Inserted;
    xml.ordered := cur.ordered;
    cur.ordered := xml;
    InsertedLinks(s, pos, xml, dest);
  }

  lemma InsertedLinks(s: seq<Node>, pos: nat, xml: Node, dest: Node)
    requires Distinct(s) && xml !in s && dest !in s && xml != dest && SplitsAt(s, xml.off, pos)
    requires ByOffset(s)
    requires forall i {:trigger s[i].ordered} :: 0 <= i < |s| ==> s[i].ordered == if i + 1 == pos then xml else Get(s, i + 1)
    requires forall i {:trigger s[i].parent} :: 0 <= i < |s| ==> s[i].parent == dest
    requires xml.ordered == Get(s, pos) && xml.parent == dest
    requires dest.child == if pos == 0 then xml else s[0]
    ensures OrderedOn(dest, Inserted(s, pos, xml))
  {
    hide Inserted;
    var t := Inserted(s, pos, xml);
    InsertedSize(s, pos, xml);
    forall i | 0 <= i < |t|
      ensures t[i].ordered == Get(t, i + 1) && t[i].parent == dest && t[i] != dest
    {
      InsertedAt(s, pos, xml, i);
      if i + 1 < |t| {
        InsertedAt(s, pos, xml, i + 1);
      }
    }
    forall i, j | 0 <= i < j < |t|
      ensures t[i] != t[j] && t[i].off <= t[j].off
    {
      InsertedAt(s, pos, xml, i);
      InsertedAt(s, pos, xml, j);
    }
    InsertedAt(s, pos, xml, 0);
  }

  /** Search along the sibling chain for the first tag of a name, and its predecessor. */
  method FindType(head: Node?, name: string, ghost f: seq<Node>) returns (cur: Node?, prev: Node?, ghost c: nat)
    requires Chained(f) && head == Get(f, 0)
    ensures c <= |f| && cur == Get(f, c) && prev == if c > 0 then f[c - 1] else null
    ensures (forall l :: 0 <= l < c ==> f[l].name != name) && (c < |f| ==> f[c].name == name)
  {
    cur, prev, c := head, null, 0;
    while cur != null && cur.name != name
      invariant c <= |f| && cur == Get(f, c) && prev == if c > 0 then f[c - 1] else null
      invariant forall l :: 0 <= l < c ==> f[l].name != name
      decreases |f| - c
    {
      prev, cur, c := cur, cur.sibling, c + 1;
    }
  }

  /** The new tag goes behind tags of its name: walk `next` from the first of them. */
  method AppendNext(xml: Node, first: Node, ghost s: seq<Node>, ghost pos: nat)
    requires NextOn(s) && Distinct(s) && SplitsAt(s, xml.off, pos) && xml !in s
    requires FirstFrom(s, 0, xml.name) < pos && first == s[FirstFrom(s, 0, xml.name)]
    modifies s`next, xml`next
    ensures NextOn(Inserted(s, pos, xml))
  {
    var cur := first;
    ghost var l: nat := FirstFrom(s, 0, xml.name);
    while cur.next != null && cur.next.off <= xml.off
      invariant l < pos && cur == s[l] && cur.name == xml.name
      decreases pos - l
    {
      l := FirstFrom(s, l + 1, xml.name);
      cur := cur.next;
    }
    xml.next := cur.next;
    cur.next := xml;
    LastOfName(s, pos, l, xml.name);
    NextInserted(s, pos, xml, l);
  }

  lemma LastOfName(s: seq<Node>, pos: nat, l: nat, name: string)
    requires l < pos <= |s| && s[l].name == name && FirstFrom(s, l + 1, name) >= pos
    ensures FirstFrom(s, l + 1, name) == FirstFrom(s, pos, name)
    ensures forall i :: l < i < pos ==> s[i].name != name
  {
  }

  /** l is the last tag of the new tag's name before pos, or |s| when there is none. */
  lemma NextInserted(s: seq<Node>, pos: nat, x: Node, l: nat)
    requires pos <= |s| && x !in s && Distinct(s) && l <= |s|
    requires l < |s| ==> l < pos && s[l].name == x.name && forall i :: l < i < pos ==> s[i].name != x.name
    requires l == |s| ==> forall i :: 0 <= i < pos ==> s[i].name != x.name
    requires x.next == Get(s, FirstFrom(s, pos, x.name))
    requires forall i {:trigger s[i].next} :: 0 <= i < |s| ==>
      s[i].next == if i == l then x else Get(s, FirstFrom(s, i + 1, s[i].name))
    ensures NextOn(Inserted(s, pos, x))
  {
    hide Inserted, FirstFrom;
    var t := Inserted(s, pos, x);
    InsertedSize(s, pos, x);
    forall i | 0 <= i < |t|
      ensures t[i].next == Get(t, FirstFrom(t, i + 1, t[i].name))
    {
      InsertedAt(s, pos, x, i);
      if i < pos {
        FirstAfterInsert(s, pos, x, i + 1, s[i].name);
      } else if i == pos {
        FirstBehindInsert(s, pos, x, pos, x.name);
      } else {
        FirstBehindInsert(s, pos, x, i, s[i - 1].name);
      }
    }
  }

  lemma InsertedSize(s: seq<Node>, pos: nat, x: Node)
    requires pos <= |s|
    ensures |Inserted(s, pos, x)| == |s| + 1
  {
  }

  lemma InsertedAt(s: seq<Node>, pos: nat, x: Node, i: nat)
    requires pos <= |s| && i <= |s|
    ensures |Inserted(s, pos, x)| == |s| + 1
    ensures Inserted(s, pos, x)[i] == if i < pos then s[i] else if i == pos then x else s[i - 1]
  {
  }

  function Removed<T>(s: seq<T>, i: nat): seq<T>
    requires i < |s|
  {
    s[..i] + s[i + 1..]
  }

  /** Takes f[c] out of the sibling chain. */
  method UnlinkSibling(prev: Node, cur: Node, ghost f: seq<Node>, ghost c: nat)
    requires Chained(f) && Distinct(f) && 0 < c < |f| && prev == f[c - 1] && cur == f[c]
    modifies f`sibling
    ensures Chained(Removed(f, c))
  {
    prev.sibling := cur.sibling;
    ghost var g := Removed(f, c);
    forall k | 0 <= k < |g|
      ensures g[k].sibling == Get(g, k + 1)
    {
      assert g[k] == if k < c then f[k] else f[k + 1];
    }
  }

  /** First index of a tag with a larger offset, |f| when there is none. */
  ghost function Above(f: seq<Node>, off: nat): (q: nat)
    reads f`off
    ensures q <= |f| && (q < |f| ==> f[q].off > off) && forall k :: 0 <= k < q ==> f[k].off <= off
  {
    if f == [] || f[0].off > off then 0 else 1 + Above(f[1..], off)
  }

  lemma AboveAt(f: seq<Node>, off: nat, q: nat)
    requires q <= |f| && (q < |f| ==> f[q].off > off) && forall k :: 0 <= k < q ==> f[k].off <= off
    ensures q == Above(f, off)
  {
  }

  /** The chain once the tag before index q leads to x and x leads on. */
  lemma ChainedAround(f: seq<Node>, q: nat, x: Node)
    requires q <= |f| && x.sibling == Get(f, q)
    requires forall k {:trigger f[k].sibling} :: 0 <= k < |f| ==> f[k].sibling == if k + 1 == q then x else Get(f, k + 1)
    ensures Chained(Inserted(f, q, x))
  {
    var g := Inserted(f, q, x);
    forall k | 0 <= k < |g|
      ensures g[k].sibling == Get(g, k + 1)
    {
      assert g[k] == if k < q then f[k] else if k == q then x else f[k - 1];
    }
  }

  /** Puts the new tag into the sibling chain, before the first tag with a larger offset. */
  method LinkSibling(xml: Node, head: Node, ghost f: seq<Node>) returns (ghost q: nat)
    requires Chained(f) && Distinct(f) && f != [] && head == f[0] && xml !in f
    modifies f`sibling, xml`sibling
    ensures q <= |f| && Chained(Inserted(f, q, xml)) && (q == 0 <==> head.off > xml.off) && q == Above(f, xml.off)
  {
    hide Above, Inserted;
    var cur: Node?, prev: Node? := head, null;
    q := 0;
    while cur != null && cur.off <= xml.off
      invariant q <= |f| && cur == Get(f, q) && prev == if q > 0 then f[q - 1] else null
      invariant q > 0 ==> head.off <= xml.off
      invariant forall k :: 0 <= k < q ==> f[k].off <= xml.off
      decreases |f| - q
    {
      prev, cur, q := cur, cur.sibling, q + 1;
    }
    AboveAt(f, xml.off, q);
    xml.sibling := cur;
    if prev != null {
      prev.sibling := xml;
    }
    ChainedAround(f, q, xml);
  }

  /** The chain once the first namesake of a new tag, its c-th entry, is taken out; the head
      stays. */
  function Unlinked(f: seq<Node>, c: nat): seq<Node> {
    if 0 < c < |f| then Removed(f, c) else f
  }

  /** The chain after ezxml_insert of x: unchanged behind a namesake; otherwise x replaces its
      first namesake, unless that is the head, and goes in by offset. */
  ghost function ChainWith(f: seq<Node>, x: Node): seq<Node>
    reads f`off, x`off
  {
    var c := FirstFrom(f, 0, x.name);
    if c < |f| && f[c].off <= x.off then f else Inserted(Unlinked(f, c), Above(Unlinked(f, c), x.off), x)
  }

  /** ezxml_insert in front of a head of the same name: the old head stays in the chain. */
  ghost predicate HeadRepeated(kids: seq<Node>, name: string, off: nat)
    reads kids`off
  {
    kids != [] && kids[0].name == name && kids[0].off > off
  }

  /** The entry of the old chain at index k of the new one, when that is not the new tag. */
  function Origin(f: seq<Node>, c: nat, q: nat, k: nat): nat
    requires k != q
  {
    var m := if k < q then k else k - 1;
    if 0 < c < |f| && m >= c then m + 1 else m
  }

  lemma EntryAt(f: seq<Node>, c: nat, q: nat, x: Node, k: nat, h: seq<Node>)
    requires q <= |Unlinked(f, c)| && h == Inserted(Unlinked(f, c), q, x) && k < |h|
    ensures k == q ==> h[k] == x
    ensures k != q ==> var m := Origin(f, c, q, k); m < |f| && h[k] == f[m] && !(0 < c < |f| && m == c)
  {
  }

  /** Every old entry but the one taken out has its place. */
  lemma EntryStays(f: seq<Node>, c: nat, q: nat, x: Node, m: nat, h: seq<Node>) returns (k: nat)
    requires q <= |Unlinked(f, c)| && h == Inserted(Unlinked(f, c), q, x) && m < |f| && !(0 < c < |f| && m == c)
    ensures k < |h| && k != q && Origin(f, c, q, k) == m && h[k] == f[m]
  {
    var u := if 0 < c < |f| && m > c then m - 1 else m;
    k := if u < q then u else u + 1;
  }

  /** Taking out the c-th entry changes the first tag of its name only. */
  lemma UnlinkedFirst(f: seq<Node>, c: nat, name: string)
    requires c < |f| ==> f[c].name != name
    ensures FirstNamed(Unlinked(f, c), name) == FirstNamed(f, name)
  {
    hide FirstFrom, Removed;
    if 0 < c < |f| {
      assert FirstFrom(f, 0, name) != c;
      FirstAfterRemove(f, c, 0, name);
    }
  }

  lemma InsertedFirst(g: seq<Node>, q: nat, x: Node, name: string)
    requires q <= |g| && (name == x.name ==> forall k :: 0 <= k < q ==> g[k].name != name)
    ensures FirstNamed(Inserted(g, q, x), name) == if name == x.name then x else FirstNamed(g, name)
  {
    hide Inserted;
    FirstAfterInsert(g, q, x, 0, name);
  }

  /** In front of its namesakes, the new tag comes before any of them in the chain. */
  lemma FirstInChain(s: seq<Node>, f: seq<Node>, pos: nat, x: Node, k: nat)
    requires FindsAll(s, f) && ByOffset(s) && SplitsAt(s, x.off, pos) && pos <= FirstFrom(s, 0, x.name)
    requires k < |f| && f[k].off <= x.off
    ensures f[k].name != x.name
  {
    assert f[k] in s;
  }

  lemma UnlinkedAt(f: seq<Node>, c: nat, k: nat)
    requires k < |Unlinked(f, c)|
    ensures var m := if 0 < c < |f| && k >= c then k + 1 else k; m < |f| && Unlinked(f, c)[k] == f[m]
  {
  }

  lemma BeforeNamesakes(s: seq<Node>, f: seq<Node>, pos: nat, x: Node, c: nat, name: string)
    requires FindsAll(s, f) && ByOffset(s) && SplitsAt(s, x.off, pos) && pos <= FirstFrom(s, 0, x.name)
    requires c == FirstFrom(f, 0, x.name)
    ensures var g := Unlinked(f, c); FirstNamed(Inserted(g, Above(g, x.off), x), name) == FirstNamed(Inserted(s, pos, x), name)
  {
    hide FirstNamed, FirstFrom, Inserted, Above, Findable, FindsAll, Unlinked;
    var g := Unlinked(f, c);
    var q := Above(g, x.off);
    forall k | 0 <= k < q
      ensures g[k].name != x.name
    {
      UnlinkedAt(f, c, k);
      FirstInChain(s, f, pos, x, if 0 < c < |f| && k >= c then k + 1 else k);
    }
    InsertedFirst(g, q, x, name);
    InsertedFirst(s, pos, x, name);
    if name != x.name {
      UnlinkedFirst(f, c, name);
      FoundAt(s, f, name);
    }
  }

  lemma FoundAt(s: seq<Node>, f: seq<Node>, name: string)
    requires FindsAll(s, f)
    ensures FirstNamed(f, name) == FirstNamed(s, name)
  {
  }

  lemma BehindNamesake(s: seq<Node>, pos: nat, x: Node, name: string)
    requires pos <= |s| && FirstFrom(s, 0, x.name) < pos
    ensures FirstNamed(Inserted(s, pos, x), name) == FirstNamed(s, name)
  {
    hide FirstFrom, Inserted;
    FirstAfterInsert(s, pos, x, 0, name);
  }

  /** Where the new tag goes, read off the chain entry c of its name. */
  lemma PlaceOfName(s: seq<Node>, f: seq<Node>, pos: nat, off: nat, c: nat, name: string)
    requires FindsAll(s, f) && SplitsAt(s, off, pos) && c == FirstFrom(f, 0, name)
    ensures pos <= |s| && Get(f, c) == Get(s, FirstFrom(s, 0, name))
    ensures if c < |f| then Get(f, c) == f[c] else Get(f, c) == null
    ensures FirstFrom(s, 0, name) < pos <==> c < |f| && f[c].off <= off
    ensures FirstFrom(s, 0, name) < pos ==> FirstFrom(s, 0, name) < |s| && s[FirstFrom(s, 0, name)] == f[c]
    ensures HeadRepeated(s, name, off) <==> c == 0 && c < |f| && f[c].off > off
  {
    hide Within, Distinct;
    assert FirstNamed(f, name) == FirstNamed(s, name);
    assert s == [] <==> f == [];
  }

  lemma ChainBehind(f: seq<Node>, c: nat, x: Node)
    requires c == FirstFrom(f, 0, x.name) && c < |f| && f[c].off <= x.off
    ensures ChainWith(f, x) == f
  {
  }

  lemma ChainBefore(f: seq<Node>, c: nat, x: Node)
    requires c == FirstFrom(f, 0, x.name) && !(c < |f| && f[c].off <= x.off)
    ensures ChainWith(f, x) == Inserted(Unlinked(f, c), Above(Unlinked(f, c), x.off), x)
  {
  }

  /** The new chain finds the first tag of every name. */
  lemma ChainFinds(s: seq<Node>, f: seq<Node>, pos: nat, x: Node, name: string)
    requires FindsAll(s, f) && ByOffset(s) && SplitsAt(s, x.off, pos) && pos <= |s|
    ensures FirstNamed(ChainWith(f, x), name) == FirstNamed(Inserted(s, pos, x), name)
  {
    hide *;
    var c := FirstFrom(f, 0, x.name);
    PlaceOfName(s, f, pos, x.off, c, x.name);
    if c < |f| && f[c].off <= x.off {
      ChainBehind(f, c, x);
      BehindNamesake(s, pos, x, name);
      FoundAt(s, f, name);
    } else {
      ChainBefore(f, c, x);
      BeforeNamesakes(s, f, pos, x, c, name);
    }
  }

  lemma ChainHead(s: seq<Node>, f: seq<Node>, pos: nat, x: Node)
    requires FindsAll(s, f) && ByOffset(s) && SplitsAt(s, x.off, pos)
    ensures Get(ChainWith(f, x), 0) == Get(Inserted(s, pos, x), 0)
  {
    hide Findable, Distinct, FirstFrom;
    var c := FirstFrom(f, 0, x.name);
    PlaceOfName(s, f, pos, x.off, c, x.name);
    var g := Unlinked(f, c);
    assert g != [] <==> s != [];
    if g != [] {
      assert g[0] == f[0] && f[0] == s[0];
    }
  }

  lemma ChainWithin(s: seq<Node>, f: seq<Node>, pos: nat, x: Node)
    requires FindsAll(s, f) && pos <= |s| && x !in s
    ensures Within(ChainWith(f, x), Inserted(s, pos, x)) && Distinct(ChainWith(f, x))
  {
    hide Findable, FirstFrom, Above, Unlinked, Inserted;
    var h, c := ChainWith(f, x), FirstFrom(f, 0, x.name);
    var q := Above(Unlinked(f, c), x.off);
    forall y | y in s || y == x
      ensures y in Inserted(s, pos, x)
    {
      InsertedHas(s, pos, x, y);
    }
    if !(c < |f| && f[c].off <= x.off) {
      forall k | 0 <= k < |h|
        ensures h[k] in s || h[k] == x
      {
        EntryAt(f, c, q, x, k, h);
      }
      forall k, l | 0 <= k < l < |h|
        ensures h[k] != h[l]
      {
        EntryAt(f, c, q, x, k, h);
        EntryAt(f, c, q, x, l, h);
      }
    }
  }

  lemma InsertedHas(s: seq<Node>, pos: nat, x: Node, y: Node)
    requires pos <= |s| && (y in s || y == x)
    ensures y in Inserted(s, pos, x)
  {
    var t := Inserted(s, pos, x);
    assert t[pos] == x;
    if y in s {
      var k :| 0 <= k < |s| && s[k] == y;
      assert t[if k < pos then k else k + 1] == y;
    }
  }

  lemma InsertFinds(s: seq<Node>, f: seq<Node>, pos: nat, x: Node)
    requires FindsAll(s, f) && ByOffset(s) && SplitsAt(s, x.off, pos) && pos <= |s| && x !in s
    ensures FindsAll(Inserted(s, pos, x), ChainWith(f, x))
  {
    hide ByOffset, SplitsAt, Inserted, ChainWith, FirstNamed, Distinct, Within;
    forall name
      ensures FirstNamed(ChainWith(f, x), name) == FirstNamed(Inserted(s, pos, x), name)
    {
      ChainFinds(s, f, pos, x, name);
    }
    ChainHead(s, f, pos, x);
    ChainWithin(s, f, pos, x);
  }

  /** The new chain repeats a name exactly if the old one did or the head's name comes again
      in front of the head. */
  lemma InsertRepeats(s: seq<Node>, f: seq<Node>, pos: nat, x: Node)
    requires FindsAll(s, f) && SplitsAt(s, x.off, pos)
    ensures NamesDistinct(ChainWith(f, x)) <==> NamesDistinct(f) && !HeadRepeated(s, x.name, x.off)
  {
    hide FindsAll, SplitsAt, Inserted, Unlinked, Above, HeadRepeated;
    var c := FirstFrom(f, 0, x.name);
    PlaceOfName(s, f, pos, x.off, c, x.name);
    if !(c < |f| && f[c].off <= x.off) {
      var g := Unlinked(f, c);
      if NamesDistinct(f) && !(c == 0 && c < |f|) {
        NamesStayDistinct(f, c, Above(g, x.off), x);
      } else {
        NamesStayRepeated(f, c, Above(g, x.off), x);
      }
    }
  }

  lemma NamesStayDistinct(f: seq<Node>, c: nat, q: nat, x: Node)
    requires NamesDistinct(f) && c == FirstFrom(f, 0, x.name) && !(c == 0 && c < |f|) && q <= |Unlinked(f, c)|
    ensures NamesDistinct(Inserted(Unlinked(f, c), q, x))
  {
    hide Unlinked, Inserted, FirstFrom;
    var h := Inserted(Unlinked(f, c), q, x);
    forall k, l | 0 <= k < l < |h|
      ensures h[k].name != h[l].name
    {
      EntryAt(f, c, q, x, k, h);
      EntryAt(f, c, q, x, l, h);
    }
  }

  lemma NamesStayRepeated(f: seq<Node>, c: nat, q: nat, x: Node)
    requires !NamesDistinct(f) || (c == 0 && c < |f|)
    requires c == FirstFrom(f, 0, x.name) && q <= |Unlinked(f, c)|
    ensures !NamesDistinct(Inserted(Unlinked(f, c), q, x))
  {
    hide Unlinked, Inserted;
    var h := Inserted(Unlinked(f, c), q, x);
    HasNew(f, c, q, x, h);
    if c == 0 && c < |f| {
      var k := EntryStays(f, c, q, x, c, h);
    } else {
      var m, l :| 0 <= m < l < |f| && f[m].name == f[l].name;
      var k := EntryStays(f, c, q, x, l, h);
      if m != c {
        var j := EntryStays(f, c, q, x, m, h);
      }
    }
  }

  lemma HasNew(f: seq<Node>, c: nat, q: nat, x: Node, h: seq<Node>)
    requires q <= |Unlinked(f, c)| && h == Inserted(Unlinked(f, c), q, x)
    ensures q < |h| && h[q] == x
  {
  }

  lemma UnlinkedIsChain(f: seq<Node>, c: nat, x: Node)
    requires f != [] && Distinct(f) && x !in f
    ensures var g := Unlinked(f, c); g != [] && g[0] == f[0] && Distinct(g) && x !in g && Within(g, f)
  {
    var g := Unlinked(f, c);
    assert forall k :: 0 <= k < |g| ==> g[k] == f[if 0 < c < |f| && k >= c then k + 1 else k];
  }

  /** ezxml_insert for a tag in front of its namesakes; f is the chain, xml.name its c-th
      name. */
  method InsertFirst(xml: Node, head: Node, cur: Node?, prev: Node?, ghost s: seq<Node>, ghost f: seq<Node>,
        ghost pos: nat, ghost c: nat)
    requires FindsAll(s, f) && Chained(f) && NextOn(s) && Distinct(s) && f != [] && head == f[0] && xml !in s
    requires pos <= |s| && pos <= FirstFrom(s, 0, xml.name) && Get(f, c) == Get(s, FirstFrom(s, 0, xml.name))
    requires c <= |f| && cur == Get(f, c) && prev == if c > 0 then f[c - 1] else null
    modifies s`sibling, xml`sibling, xml`next
    ensures NextOn(Inserted(s, pos, xml))
    ensures var g := Unlinked(f, c); Chained(Inserted(g, Above(g, xml.off), xml))
  {
    hide *;
    InsertSibling(xml, head, cur, prev, s, f, c);
    ghost var g := Unlinked(f, c);
    ghost var h := Inserted(g, Above(g, xml.off), xml);
    ghost var before := Chained(h);
    assert before;
    xml.next := cur;
    ghost var h' := Inserted(g, Above(g, xml.off), xml);
    ghost var after := Chained(h');
    assert h' == h && after;
    NextOfFirst(s, pos, xml);
  }

  method InsertSibling(xml: Node, head: Node, cur: Node?, prev: Node?, ghost s: seq<Node>, ghost f: seq<Node>, ghost c: nat)
    requires FindsAll(s, f) && Chained(f) && f != [] && head == f[0] && xml !in s
    requires c <= |f| && cur == Get(f, c) && prev == if c > 0 then f[c - 1] else null
    modifies s`sibling, xml`sibling
    ensures var g := Unlinked(f, c); Chained(Inserted(g, Above(g, xml.off), xml))
  {
    hide Findable, FirstFrom, Above, Inserted;
    ghost var g := Unlinked(f, c);
    assert xml !in f;
    if prev != null && cur != null {
      UnlinkSibling(prev, cur, f, c);
    }
    UnlinkedIsChain(f, c, xml);
    hide Unlinked;
    ghost var q := LinkSibling(xml, head, g);
  }

  /** Part of ezxml_insert that links the tag into `next` and `sibling`. */
  method LinkNames(xml: Node, head: Node, ghost s: seq<Node>, ghost f: seq<Node>, ghost pos: nat)
    requires FindsAll(s, f) && Chained(f) && NextOn(s) && Distinct(s) && f != [] && head == f[0]
    requires SplitsAt(s, xml.off, pos) && pos <= |s| && xml !in s
    modifies s`next, xml`next, s`sibling, xml`sibling
    ensures NextOn(Inserted(s, pos, xml)) && Chained(ChainWith(f, xml))
    ensures xml in ChainWith(f, xml) || xml.sibling == old(xml.sibling)
  {
    hide *;
    HeadEntry(f);
    var cur, prev;
    ghost var c;
    cur, prev, c := FindType(head, xml.name, f);
    EntryOfName(f, c, xml.name);
    PlaceOfName(s, f, pos, xml.off, c, xml.name);
    if cur != null && cur.off <= xml.off {
      AppendNext(xml, cur, s, pos);
      ChainBehind(f, c, xml);
    } else {
      InsertFirst(xml, head, cur, prev, s, f, pos, c);
      ChainBefore(f, c, xml);
      InsertedHas(Unlinked(f, c), Above(Unlinked(f, c), xml.off), xml, xml);
    }
  }

  lemma HeadEntry(f: seq<Node>)
    requires f != []
    ensures Get(f, 0) == f[0]
  {
  }

  lemma EntryOfName(f: seq<Node>, c: nat, name: string)
    requires c <= |f|
    requires (forall l :: 0 <= l < c ==> f[l].name != name) && (c < |f| ==> f[c].name == name)
    ensures c == FirstFrom(f, 0, name)
  {
  }

  lemma NextOfFirst(s: seq<Node>, pos: nat, x: Node)
    requires NextOn(s) && Distinct(s) && x !in s && pos <= |s| && pos <= FirstFrom(s, 0, x.name)
    requires x.next == Get(s, FirstFrom(s, 0, x.name))
    ensures NextOn(Inserted(s, pos, x))
  {
    assert FirstFrom(s, pos, x.name) == FirstFrom(s, 0, x.name);
    NextInserted(s, pos, x, |s|);
  }

  /** The statements of ezxml_insert, for a parent whose list is s and whose chain is f. */
  method InsertInto(xml: Node, dest: Node, off: nat, ghost s: seq<Node>, ghost f: seq<Node>)
    returns (ghost pos: nat)
    requires OrderedOn(dest, s) && NextOn(s) && FindsAll(s, f) && Chained(f) && xml !in s && xml != dest
    modifies xml`off, xml`parent, xml`ordered, xml`next, xml`sibling
    modifies dest`child, s`ordered, s`next, s`sibling
    ensures pos <= |s| && SplitsAt(s, off, pos) && xml.off == off && xml.parent == dest
    ensures OrderedOn(dest, Inserted(s, pos, xml)) && NextOn(Inserted(s, pos, xml)) && Chained(ChainWith(f, xml))
    ensures xml in ChainWith(f, xml) || xml.sibling == null
  {
    hide Findable, ChainWith;
    var head := dest.child;
    xml.next, xml.sibling := null, null;
    ghost var n, c := NextOn(s), Chained(f);
    assert n && c;
    pos := LinkOrdered(xml, dest, off, s);
    ghost var n', c' := NextOn(s), Chained(f);
    assert n' && c';
    if head != null {
      ghost var before := OrderedOn(dest, Inserted(s, pos, xml));
      assert before;
      LinkNames(xml, head, s, f, pos);
      ghost var after := OrderedOn(dest, Inserted(s, pos, xml));
      assert after;
    } else {
      OnlyTag(pos, xml);
    }
  }

  lemma OnlyTag(pos: nat, x: Node)
    requires pos == 0 && x.next == null && x.sibling == null
    ensures NextOn(Inserted([], pos, x)) && Chained(ChainWith([], x))
  {
    assert Inserted([], 0, x) == [x];
  }

  /** ezxml_insert. The list stays sorted and stable, and `next` and the lookup by name stay
      right in every case; a name comes twice on the chain exactly when it did before or a
      head of the same name is displaced. */
  method Insert(xml: Node, dest: Node, off: nat) returns (ghost pos: nat)
    requires Linked(dest) && LookupView(dest) && xml !in dest.kids && xml != dest
    modifies xml`off, xml`parent, xml`ordered, xml`next, xml`sibling
    modifies dest`child, dest`kids, dest`firsts, dest.kids`ordered, dest.kids`next, dest.kids`sibling
    ensures pos <= |old(dest.kids)| && SplitsAt(old(dest.kids), off, pos) && dest.kids == Inserted(old(dest.kids), pos, xml)
    ensures xml.off == off && xml.parent == dest && Linked(dest) && LookupView(dest)
    ensures SiblingView(dest) <==> old(SiblingView(dest)) && !old(HeadRepeated(dest.kids, xml.name, off))
    ensures dest.firsts == ChainWith(old(dest.firsts), xml) && (xml in dest.firsts || xml.sibling == null)
  {
    hide *;
    ViewsOf(dest);
    ghost var s, f := dest.kids, dest.firsts;
    ghost var repeated, sorted := HeadRepeated(s, xml.name, off), ByOffset(s);
    assert sorted;
    pos := InsertInto(xml, dest, off, s, f);
    ghost var repeated', sorted', split := HeadRepeated(s, xml.name, off), ByOffset(s), SplitsAt(s, off, pos);
    assert repeated' == repeated && sorted' && split;
    InsertFinds(s, f, pos, xml);
    InsertRepeats(s, f, pos, xml);
    ghost var h := ChainWith(f, xml);
    dest.kids, dest.firsts := Inserted(s, pos, xml), h;
    ghost var h' := ChainWith(f, xml);
    assert h' == h;
    Views(dest, dest.kids, h);
  }

  lemma ViewsOf(p: Node)
    requires Linked(p) && LookupView(p)
    ensures OrderedOn(p, p.kids) && NextOn(p.kids) && FindsAll(p.kids, p.firsts) && Chained(p.firsts)
    ensures ByOffset(p.kids) && Distinct(p.kids) && (SiblingView(p) <==> NamesDistinct(p.firsts))
  {
    hide NextOn, FindsAll, Chained, ByOffset, Distinct, NamesDistinct;
  }

  lemma Views(p: Node, s: seq<Node>, f: seq<Node>)
    requires p.kids == s && p.firsts == f && OrderedOn(p, s) && NextOn(s) && Chained(f)
    ensures Linked(p) && (LookupView(p) <==> FindsAll(s, f))
    ensures FindsAll(s, f) ==> Walk(p) && (SiblingView(p) <==> NamesDistinct(f))
    ensures p.child == Get(f, 0) ==> Walk(p)
  {
    hide NextOn, Findable, Chained, NamesDistinct, ByOffset, Distinct, Within;
  }

  // ---------------------------------------------------------------- a list without one tag

  /** First tag of a name after the i-th tag is taken out. */
  lemma FirstAfterRemove(s: seq<Node>, i: nat, j: nat, name: string)
    requires i < |s| && j <= |s|
    ensures var t, r := Removed(s, i), FirstFrom(s, j, name); var j' := if j <= i then j else j - 1;
      Get(t, FirstFrom(t, j', name)) == if r == i then Get(s, FirstFrom(s, i + 1, name)) else Get(s, r)
  {
    var t, r := Removed(s, i), FirstFrom(s, j, name);
    var j' := if j <= i then j else j - 1;
    var e: nat := if r < i then r else if r == i then FirstFrom(s, i + 1, name) - 1 else r - 1;
    forall k | j' <= k < e
      ensures t[k].name != name
    {
      assert t[k] == if k < i then s[k] else s[k + 1];
    }
    assert e < |t| ==> t[e] == if e < i then s[e] else s[e + 1];
    assert FirstFrom(t, j', name) == e;
  }
}

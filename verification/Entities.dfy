/** General entities: the entity list, the circularity check made on every declaration
    and the measure that makes reference expansion terminate. */
module Entities {

  /** One name/value pair of the `ent` array; the parser appends ';' to every name. */
  datatype Entity = Entity(name: string, value: string)

  type Table = seq<Entity>

  /** The loop `for (b = 0; ent[b] && strncmp(s + 1, ent[b], strlen(ent[b])); b += 2)`:
      the first entity whose name starts the text, |ents| when there is none. */
  function Match(ents: Table, text: string): (j: nat)
    ensures j <= |ents|
    ensures j < |ents| ==> ents[j].name <= text
    ensures forall i :: 0 <= i < j ==> !(ents[i].name <= text)
  {
    MatchFrom(ents, text, 0)
  }

  function MatchFrom(ents: Table, text: string, b: nat): (j: nat)
    requires b <= |ents|
    ensures b <= j <= |ents|
    ensures j < |ents| ==> ents[j].name <= text
    ensures forall i :: b <= i < j ==> !(ents[i].name <= text)
    decreases |ents| - b
  {
    if b == |ents| || ents[b].name <= text then b else MatchFrom(ents, text, b + 1)
  }

  method FindEntity(ents: Table, text: string) returns (b: nat)
    ensures b == Match(ents, text)
  {
    b := 0;
    while b < |ents| && !(ents[b].name <= text)
      invariant b <= |ents|
      invariant forall i :: 0 <= i < b ==> !(ents[i].name <= text)
    {
      b := b + 1;
    }
  }

  /** The parser puts a ';' behind every name. */
  predicate NameOk(name: string) {
    |name| > 0 && name[|name| - 1] == ';'
  }

  predicate NamesOk(ents: Table) {
    forall i :: 0 <= i < |ents| ==> NameOk(ents[i].name)
  }

  /** As in every well-formed document, the name has no other ';'. */
  predicate SimpleName(name: string) {
    NameOk(name) && ';' !in name[..|name| - 1]
  }

  predicate SimpleNames(ents: Table) {
    forall i :: 0 <= i < |ents| ==> SimpleName(ents[i].name)
  }

  /** Every '&' of the text has a ';' somewhere after it: no reference is left open. */
  predicate Whole(v: string) {
    forall i :: 0 <= i < |v| && v[i] == '&' ==> ';' in v[i..]
  }

  predicate WholeTable(ents: Table) {
    forall i :: 0 <= i < |ents| ==> Whole(ents[i].value)
  }

  // ---------------------------------------------------------------- expansion weights

  /** What the start of a text weighs: w[j] for a reference to entity j, 1 for any other byte. */
  function HeadCost(u: string, ents: Table, w: seq<nat>): nat
    requires u != "" && |w| == |ents|
  {
    if u[0] == '&' && Match(ents, u[1..]) < |ents| then w[Match(ents, u[1..])] else 1
  }

  /** Weight of a text, the sum over its positions. */
  function Cost(u: string, ents: Table, w: seq<nat>): (c: nat)
    requires |w| == |ents|
  {
    if u == "" then 0 else HeadCost(u, ents, w) + Cost(u[1..], ents, w)
  }

  /** Each entity outweighs its own value. */
  predicate Weighted(ents: Table, w: seq<nat>) {
    |w| == |ents| && forall i :: 0 <= i < |ents| ==> Outweighs(ents, w, i)
  }

  predicate Outweighs(ents: Table, w: seq<nat>, i: nat)
    requires |w| == |ents| && i < |ents|
  {
    Cost(ents[i].value, ents, w) < w[i]
  }

  lemma {:induction false} CostPlain(u: string, ents: Table, w: seq<nat>)
    requires |w| == |ents| && '&' !in u
    ensures Cost(u, ents, w) == |u|
  {
    if u != "" {
      CostPlain(u[1..], ents, w);
    }
  }

  lemma CostHead(u: string, ents: Table, w: seq<nat>)
    requires Weighted(ents, w) && u != ""
    ensures Cost(u, ents, w) == HeadCost(u, ents, w) + Cost(u[1..], ents, w) && HeadCost(u, ents, w) > 0
  {
    if u[0] == '&' && Match(ents, u[1..]) < |ents| {
      assert Outweighs(ents, w, Match(ents, u[1..]));
    }
  }

  /** A proper suffix weighs strictly less. */
  lemma CostTail(u: string, ents: Table, w: seq<nat>)
    requires Weighted(ents, w) && u != ""
    ensures Cost(u[1..], ents, w) < Cost(u, ents, w)
  {
    CostHead(u, ents, w);
  }

  lemma {:induction false} CostSuffix(u: string, k: nat, ents: Table, w: seq<nat>)
    requires Weighted(ents, w) && k <= |u|
    ensures Cost(u[k..], ents, w) <= Cost(u, ents, w)
    ensures k > 0 ==> Cost(u[k..], ents, w) < Cost(u, ents, w)
  {
    if k == 0 {
      assert u[0..] == u;
    } else {
      CostTail(u, ents, w);
      CostSuffix(u[1..], k - 1, ents, w);
      assert u[1..][k - 1..] == u[k..];
    }
  }

  /** A simple name matches within a text that already holds a ';'. */
  lemma NameWithin(name: string, v: string, u: string)
    requires SimpleName(name) && ';' in v
    ensures name <= v + u <==> name <= v
  {
    var i :| 0 <= i < |v| && v[i] == ';';
    assert name <= v + u && i < |name| ==> name[i] == (v + u)[i] == ';';
    assert name <= v + u && |name| <= |v| ==> name == (v + u)[..|name|] == v[..|name|];
    assert name <= v ==> name == v[..|name|] == (v + u)[..|name|];
  }

  lemma MatchWithin(ents: Table, v: string, u: string)
    requires SimpleNames(ents) && ';' in v
    ensures Match(ents, v + u) == Match(ents, v)
  {
    forall i | 0 <= i < |ents|
      ensures ents[i].name <= v + u <==> ents[i].name <= v
    {
      NameWithin(ents[i].name, v, u);
    }
  }

  lemma HeadWithin(v: string, u: string, ents: Table, w: seq<nat>)
    requires v != "" && |w| == |ents| && SimpleNames(ents) && Whole(v)
    ensures HeadCost(v + u, ents, w) == HeadCost(v, ents, w)
  {
    hide Match;
    assert (v + u)[1..] == v[1..] + u;
    if v[0] == '&' {
      assert ';' in v[0..] && v[0..] == v && v == ['&'] + v[1..];
      assert ';' in v[1..];
      MatchWithin(ents, v[1..], u);
    }
  }

  /** Whole text weighs the same in front of anything. */
  lemma {:induction false} CostConcat(v: string, u: string, ents: Table, w: seq<nat>)
    requires |w| == |ents| && SimpleNames(ents) && Whole(v)
    ensures Cost(v + u, ents, w) == Cost(v, ents, w) + Cost(u, ents, w)
    decreases |v|
  {
    hide SimpleNames, Whole, HeadCost;
    if v == "" {
      assert v + u == u;
    } else {
      HeadWithin(v, u, ents, w);
      WholeSuffix(v, 1);
      assert (v + u)[1..] == v[1..] + u;
      CostConcat(v[1..], u, ents, w);
    }
  }

  lemma WholeSuffix(v: string, k: nat)
    requires Whole(v) && k <= |v|
    ensures Whole(v[k..])
  {
    forall i | 0 <= i < |v[k..]| && v[k..][i] == '&'
      ensures ';' in v[k..][i..]
    {
      assert v[k..][i..] == v[k + i..];
    }
  }

  // ---------------------------------------------------------------- the check itself

  /** ezxml_ent_ok as a predicate on the rest of the scanned text: `name` is reached
      neither directly nor through the value of a declared entity. */
  ghost predicate EntOk(name: string, u: string, ents: Table, w: seq<nat>)
    requires Weighted(ents, w)
    decreases Cost(u, ents, w)
  {
    if u == "" then true
    else
      CostHead(u, ents, w);
      if u[0] != '&' then EntOk(name, u[1..], ents, w)
      else
        var j := Match(ents, u[1..]);
        assert j < |ents| ==> Outweighs(ents, w, j);
        !(name <= u[1..]) && (j < |ents| ==> EntOk(name, ents[j].value, ents, w)) && EntOk(name, u[1..], ents, w)
  }

  lemma {:induction false} PlainIsOk(name: string, u: string, ents: Table, w: seq<nat>)
    requires Weighted(ents, w) && '&' !in u
    ensures EntOk(name, u, ents, w)
  {
    if u != "" {
      PlainIsOk(name, u[1..], ents, w);
    }
  }

  /** ezxml_ent_ok: scan for '&', compare with the name being declared, then recurse into
      the value of the entity found. It terminates on every table that has weights. */
  method CheckEntity(name: string, text: string, ents: Table, ghost w: seq<nat>) returns (ok: bool)
    requires Weighted(ents, w)
    ensures ok <==> EntOk(name, text, ents, w)
    decreases Cost(text, ents, w), 1
  {
    var s := 0;
    while true
      invariant 0 <= s <= |text|
      invariant EntOk(name, text, ents, w) <==> EntOk(name, text[s..], ents, w)
      decreases |text| - s
    {
      while s < |text| && text[s] != '&'
        invariant 0 <= s <= |text|
        invariant EntOk(name, text, ents, w) <==> EntOk(name, text[s..], ents, w)
      {
        assert text[s..][1..] == text[s + 1..];
        s := s + 1;
      }
      if s == |text| {
        return true;
      }
      assert text[s..][1..] == text[s + 1..];
      if name <= text[s + 1..] {
        return false;
      }
      var i := FindEntity(ents, text[s + 1..]);
      if i < |ents| {
        assert Outweighs(ents, w, i);
        CostSuffix(text, s, ents, w);
        CostHead(text[s..], ents, w);
        var sub := CheckEntity(name, ents[i].value, ents, w);
        if !sub {
          return false;
        }
      }
      s := s + 1;
    }
  }

  // ---------------------------------------------------------------- the reference graph

  /** Entity i mentions entity j: some '&' of its value is looked up as j. */
  predicate Refers(ents: Table, i: nat, j: nat)
    requires i < |ents| && j < |ents|
  {
    Mentions(ents, ents[i].value, j)
  }

  predicate Mentions(ents: Table, u: string, j: nat) {
    exists p :: 0 <= p < |u| && u[p] == '&' && Match(ents, u[p + 1..]) == j
  }

  ghost predicate IsPath(ents: Table, path: seq<nat>) {
    |path| > 0 && (forall i :: 0 <= i < |path| ==> path[i] < |ents|) &&
    forall i :: 0 <= i < |path| - 1 ==> Refers(ents, path[i], path[i + 1])
  }

  /** "No Recursion" (section 4.1 of XML 1.0): no entity reaches itself. */
  ghost predicate Acyclic(ents: Table) {
    forall path :: IsPath(ents, path) && |path| > 1 ==> path[0] != path[|path| - 1]
  }

  lemma MentionWeighs(ents: Table, w: seq<nat>, u: string, p: nat)
    requires Weighted(ents, w) && p < |u| && u[p] == '&' && Match(ents, u[p + 1..]) < |ents|
    ensures w[Match(ents, u[p + 1..])] <= Cost(u, ents, w)
  {
    CostSuffix(u, p, ents, w);
    CostHead(u[p..], ents, w);
    assert u[p..][1..] == u[p + 1..];
  }

  lemma {:induction false} PathDescends(ents: Table, w: seq<nat>, path: seq<nat>)
    requires Weighted(ents, w) && IsPath(ents, path) && |path| > 1
    ensures w[path[|path| - 1]] < w[path[0]]
  {
    var u := ents[path[0]].value;
    assert Refers(ents, path[0], path[0 + 1]);
    var p :| 0 <= p < |u| && u[p] == '&' && Match(ents, u[p + 1..]) == path[1];
    MentionWeighs(ents, w, u, p);
    assert Outweighs(ents, w, path[0]);
    if |path| > 2 {
      var tail := path[1..];
      forall i | 0 <= i < |tail| - 1
        ensures Refers(ents, tail[i], tail[i + 1])
      {
        assert Refers(ents, path[i + 1], path[i + 1 + 1]);
      }
      PathDescends(ents, w, tail);
    }
  }

  /** Weights rule out every cycle. */
  lemma WeightsMakeAcyclic(ents: Table, w: seq<nat>)
    requires Weighted(ents, w)
    ensures Acyclic(ents)
  {
    forall path | IsPath(ents, path) && |path| > 1
      ensures path[0] != path[|path| - 1]
    {
      PathDescends(ents, w, path);
    }
  }

  // ---------------------------------------------------------------- accepting a declaration

  /** k * a by repeated addition. */
  ghost function Times(k: nat, a: nat): nat {
    if a == 0 then 0 else k + Times(k, a - 1)
  }

  lemma {:induction false} TimesAdd(k: nat, a: nat, b: nat)
    ensures Times(k, a + b) == Times(k, a) + Times(k, b)
  {
    if b > 0 {
      TimesAdd(k, a, b - 1);
    }
  }

  lemma {:induction false} TimesGrows(k: nat, a: nat, b: nat)
    requires k >= 1 && a < b
    ensures Times(k, a) < Times(k, b) && b <= Times(k, b)
  {
    if a > 0 {
      TimesGrows(k, a - 1, b - 1);
    } else if b > 1 {
      TimesGrows(k, a, b - 1);
    }
  }

  /** Weight given to a newly declared entity. */
  ghost function NewWeight(ents: Table, w: seq<nat>, e: Entity): (k: nat)
    requires |w| == |ents|
    ensures k > Cost(e.value, ents, w)
  {
    Cost(e.value, ents, w) + 1
  }

  /** Weights after declaring e: entities that reach it are scaled by its weight. */
  ghost function Reweigh(ents: Table, w: seq<nat>, e: Entity): (w': seq<nat>)
    requires Weighted(ents, w)
    ensures |w'| == |ents| + 1 && w'[|ents|] == NewWeight(ents, w, e)
    ensures forall i :: 0 <= i < |ents| ==>
      w'[i] == if EntOk(e.name, ents[i].value, ents, w) then w[i] else Times(NewWeight(ents, w, e), w[i])
  {
    seq(|ents|, i requires 0 <= i < |ents| =>
      if EntOk(e.name, ents[i].value, ents, w) then w[i] else Times(NewWeight(ents, w, e), w[i]))
    + [NewWeight(ents, w, e)]
  }

  lemma MatchExtended(ents: Table, e: Entity, text: string)
    ensures Match(ents + [e], text) ==
            if Match(ents, text) < |ents| then Match(ents, text)
            else if e.name <= text then |ents| else |ents| + 1
  {
    var t := ents + [e];
    forall i | 0 <= i < |ents|
      ensures t[i] == ents[i]
    {}
    assert t[|ents|] == e;
  }

  /** Text that does not reach the new entity keeps its weight. */
  lemma {:induction false} CostKept(ents: Table, w: seq<nat>, e: Entity, u: string)
    requires Weighted(ents, w) && EntOk(e.name, u, ents, w)
    ensures Cost(u, ents + [e], Reweigh(ents, w, e)) == Cost(u, ents, w)
    decreases |u|
  {
    if u != "" {
      MatchExtended(ents, e, u[1..]);
      CostKept(ents, w, e, u[1..]);
    }
  }

  /** Table, weights and factor of CostScaled. */
  ghost predicate ScalesBy(ents: Table, w: seq<nat>, e: Entity, w': seq<nat>, k: nat) {
    |w| == |ents| && |w'| == |ents| + 1 && k >= 1 && w'[|ents|] == k == Times(k, 1) &&
    forall i :: 0 <= i < |ents| ==> w'[i] <= Times(k, w[i])
  }

  /** Any text grows at most by the factor k, the weight of the added entity. */
  lemma {:induction false} CostScaled(ents: Table, w: seq<nat>, e: Entity, w': seq<nat>, k: nat, u: string)
    requires ScalesBy(ents, w, e, w', k)
    ensures Cost(u, ents + [e], w') <= Times(k, Cost(u, ents, w))
    decreases |u|
  {
    if u != "" {
      CostScaled(ents, w, e, w', k, u[1..]);
      HeadScaled(ents, w, e, w', k, u);
      TimesAdd(k, HeadCost(u, ents, w), Cost(u[1..], ents, w));
    }
  }

  lemma HeadScaled(ents: Table, w: seq<nat>, e: Entity, w': seq<nat>, k: nat, u: string)
    requires ScalesBy(ents, w, e, w', k) && u != ""
    ensures HeadCost(u, ents + [e], w') <= Times(k, HeadCost(u, ents, w))
  {
    hide Match;
    MatchExtended(ents, e, u[1..]);
  }

  lemma ReweighScales(ents: Table, w: seq<nat>, e: Entity)
    requires Weighted(ents, w)
    ensures ScalesBy(ents, w, e, Reweigh(ents, w, e), NewWeight(ents, w, e))
  {
    hide Cost, EntOk, Match;
    var w', k := Reweigh(ents, w, e), NewWeight(ents, w, e);
    assert Times(k, 1) == k + Times(k, 0);
    forall j | 0 <= j < |ents|
      ensures w'[j] <= Times(k, w[j])
    {
      assert Outweighs(ents, w, j);
      TimesGrows(k, 0, w[j]);
    }
  }

  /** The weight condition of one old entity in the extended table. */
  lemma OldEntityKeepsWeight(ents: Table, w: seq<nat>, e: Entity, i: nat)
    requires Weighted(ents, w) && i < |ents|
    ensures Cost(ents[i].value, ents + [e], Reweigh(ents, w, e)) < Reweigh(ents, w, e)[i]
  {
    hide Cost, EntOk, Match, Times;
    var w', k := Reweigh(ents, w, e), NewWeight(ents, w, e);
    assert Outweighs(ents, w, i);
    TimesGrows(k, Cost(ents[i].value, ents, w), w[i]);
    if EntOk(e.name, ents[i].value, ents, w) {
      CostKept(ents, w, e, ents[i].value);
    } else {
      ReweighScales(ents, w, e);
      CostScaled(ents, w, e, w', k, ents[i].value);
    }
  }

  /** Every declaration that ezxml_ent_ok accepts leaves a table with weights. */
  lemma AcceptedKeepsWeights(ents: Table, w: seq<nat>, e: Entity)
    requires Weighted(ents, w) && EntOk(e.name, e.value, ents, w)
    ensures Weighted(ents + [e], Reweigh(ents, w, e))
  {
    var t, w' := ents + [e], Reweigh(ents, w, e);
    CostKept(ents, w, e, e.value);
    forall i | 0 <= i < |t|
      ensures Outweighs(t, w', i)
    {
      if i < |ents| {
        assert t[i] == ents[i] && Outweighs(ents, w, i);
        OldEntityKeepsWeight(ents, w, e, i);
      }
    }
  }

  // ---------------------------------------------------------------- exactness

  /** Some '&' of the text is followed by the name. */
  predicate Uses(u: string, name: string) {
    exists p :: 0 <= p < |u| && u[p] == '&' && name <= u[p + 1..]
  }

  /** The text leads, over the values of declared entities or directly, to a use of the name. */
  ghost predicate Reaches(ents: Table, u: string, name: string) {
    Uses(u, name) || exists path :: LeadsToUse(ents, u, name, path)
  }

  ghost predicate LeadsToUse(ents: Table, u: string, name: string, path: seq<nat>) {
    IsPath(ents, path) && Mentions(ents, u, path[0]) && Uses(ents[path[|path| - 1]].value, name)
  }

  lemma MentionsTail(ents: Table, u: string, j: nat)
    requires u != "" && Mentions(ents, u[1..], j)
    ensures Mentions(ents, u, j)
  {
    var p :| 0 <= p < |u[1..]| && u[1..][p] == '&' && Match(ents, u[1..][p + 1..]) == j;
    assert u[p + 1] == '&' && u[p + 1 + 1..] == u[1..][p + 1..];
  }

  lemma MentionsHead(ents: Table, u: string)
    requires u != "" && u[0] == '&'
    ensures Mentions(ents, u, Match(ents, u[1..]))
  {
    assert u[0] == '&' && Match(ents, u[0 + 1..]) == Match(ents, u[1..]);
  }

  lemma UsesTail(u: string, name: string)
    requires u != ""
    ensures Uses(u, name) <==> (u[0] == '&' && name <= u[1..]) || Uses(u[1..], name)
  {
    if Uses(u[1..], name) {
      var p :| 0 <= p < |u[1..]| && u[1..][p] == '&' && name <= u[1..][p + 1..];
      assert u[p + 1] == '&' && u[p + 1 + 1..] == u[1..][p + 1..];
    }
    if Uses(u, name) {
      var p :| 0 <= p < |u| && u[p] == '&' && name <= u[p + 1..];
      assert p > 0 ==> u[1..][p - 1] == '&' && u[1..][p - 1 + 1..] == u[p + 1..];
    }
  }

  lemma PrependPath(ents: Table, i: nat, path: seq<nat>)
    requires i < |ents| && IsPath(ents, path) && Refers(ents, i, path[0])
    ensures IsPath(ents, [i] + path)
  {
    var longer := [i] + path;
    forall k | 0 <= k < |longer| - 1
      ensures Refers(ents, longer[k], longer[k + 1])
    {
      if k > 0 {
        assert Refers(ents, path[k - 1], path[k - 1 + 1]);
      }
    }
  }

  lemma PathTail(ents: Table, path: seq<nat>)
    requires IsPath(ents, path) && |path| > 1
    ensures IsPath(ents, path[1..]) && Refers(ents, path[0], path[1])
  {
    var tail := path[1..];
    forall i | 0 <= i < |tail| - 1
      ensures Refers(ents, tail[i], tail[i + 1])
    {
      assert Refers(ents, path[i + 1], path[i + 1 + 1]);
    }
    assert Refers(ents, path[0], path[0 + 1]);
  }

  /** What a tail reaches, and what a mentioned entity reaches, the text reaches. */
  lemma TailReaches(ents: Table, u: string, name: string)
    requires u != "" && Reaches(ents, u[1..], name)
    ensures Reaches(ents, u, name)
  {
    UsesTail(u, name);
    if !Uses(u[1..], name) {
      var path :| LeadsToUse(ents, u[1..], name, path);
      MentionsTail(ents, u, path[0]);
      assert LeadsToUse(ents, u, name, path);
    }
  }

  lemma MentionReaches(ents: Table, u: string, name: string, j: nat)
    requires j < |ents| && Mentions(ents, u, j) && Reaches(ents, ents[j].value, name)
    ensures Reaches(ents, u, name)
  {
    if Uses(ents[j].value, name) {
      assert LeadsToUse(ents, u, name, [j]);
    } else {
      var path :| LeadsToUse(ents, ents[j].value, name, path);
      PrependPath(ents, j, path);
      assert LeadsToUse(ents, u, name, [j] + path);
    }
  }

  lemma {:induction false} RejectedReaches(u: string, ents: Table, w: seq<nat>, name: string)
    requires Weighted(ents, w) && !EntOk(name, u, ents, w)
    ensures Reaches(ents, u, name)
    decreases Cost(u, ents, w)
  {
    hide Reaches, Match;
    CostHead(u, ents, w);
    var j := Match(ents, u[1..]);
    if u[0] == '&' && name <= u[1..] {
      UseReaches(ents, u, name);
    } else if u[0] == '&' && j < |ents| && !EntOk(name, ents[j].value, ents, w) {
      assert Outweighs(ents, w, j);
      RejectedReaches(ents[j].value, ents, w, name);
      MentionsHead(ents, u);
      MentionReaches(ents, u, name, j);
    } else {
      RejectedReaches(u[1..], ents, w, name);
      TailReaches(ents, u, name);
    }
  }

  lemma UseReaches(ents: Table, u: string, name: string)
    requires u != "" && u[0] == '&' && name <= u[1..]
    ensures Reaches(ents, u, name)
  {
    UsesTail(u, name);
  }

  lemma {:induction false} AcceptedUsesNot(u: string, ents: Table, w: seq<nat>, name: string)
    requires Weighted(ents, w) && EntOk(name, u, ents, w)
    ensures !Uses(u, name)
  {
    if u != "" {
      AcceptedUsesNot(u[1..], ents, w, name);
      UsesTail(u, name);
    }
  }

  lemma {:induction false} AcceptedMentions(u: string, ents: Table, w: seq<nat>, name: string, p: nat)
    requires Weighted(ents, w) && EntOk(name, u, ents, w) && p < |u| && u[p] == '&'
    ensures var j := Match(ents, u[p + 1..]); j < |ents| ==> EntOk(name, ents[j].value, ents, w)
  {
    if p > 0 {
      assert u[1..][p - 1 + 1..] == u[p + 1..];
      AcceptedMentions(u[1..], ents, w, name, p - 1);
    }
  }

  lemma {:induction false} AcceptedReachesNot(u: string, ents: Table, w: seq<nat>, name: string, path: seq<nat>)
    requires Weighted(ents, w) && EntOk(name, u, ents, w)
    ensures !LeadsToUse(ents, u, name, path)
    decreases |path|
  {
    if LeadsToUse(ents, u, name, path) {
      var p :| 0 <= p < |u| && u[p] == '&' && Match(ents, u[p + 1..]) == path[0];
      AcceptedMentions(u, ents, w, name, p);
      var v := ents[path[0]].value;
      if |path| == 1 {
        AcceptedUsesNot(v, ents, w, name);
      } else {
        PathTail(ents, path);
        AcceptedReachesNot(v, ents, w, name, path[1..]);
      }
    }
  }

  /** The check is exact, for every name: a value is accepted if and only if it leads to no
      use of the name, neither itself nor over the values of declared entities. */
  lemma CheckFinds(name: string, u: string, ents: Table, w: seq<nat>)
    requires Weighted(ents, w)
    ensures EntOk(name, u, ents, w) <==> !Reaches(ents, u, name)
  {
    if EntOk(name, u, ents, w) {
      AcceptedUsesNot(u, ents, w, name);
      forall path
        ensures !LeadsToUse(ents, u, name, path)
      {
        AcceptedReachesNot(u, ents, w, name, path);
      }
    } else {
      RejectedReaches(u, ents, w, name);
    }
  }

  /** No declared name starts with this one or the other way round. */
  predicate Fresh(ents: Table, name: string) {
    forall i :: 0 <= i < |ents| ==> !(ents[i].name <= name) && !(name <= ents[i].name)
  }

  /** Some declared name is found wherever this one is written. */
  predicate Shadowed(ents: Table, name: string) {
    exists i :: 0 <= i < |ents| && ents[i].name <= name
  }

  /** A simple name is fresh or declared already, and in the latter case shadowed. */
  lemma FreshOrShadowed(ents: Table, name: string)
    requires SimpleNames(ents) && SimpleName(name)
    ensures Fresh(ents, name) <==> !Shadowed(ents, name)
    ensures Shadowed(ents, name) <==> exists i :: 0 <= i < |ents| && ents[i].name == name
  {
    forall i | 0 <= i < |ents|
      ensures ents[i].name <= name <==> ents[i].name == name
      ensures name <= ents[i].name <==> ents[i].name == name
    {
      if ents[i].name <= name {
        PrefixNames(ents[i].name, name, name);
      } else if name <= ents[i].name {
        PrefixNames(ents[i].name, name, ents[i].name);
      }
    }
  }

  /** Two simple names that start the same text are equal. */
  lemma PrefixNames(a: string, b: string, text: string)
    requires SimpleName(a) && SimpleName(b) && a <= text && b <= text
    ensures a == b
  {
    assert forall i :: 0 <= i < |a| ==> a[i] == text[i];
    assert forall i :: 0 <= i < |b| ==> b[i] == text[i];
    assert text[|a| - 1] == ';' && text[|b| - 1] == ';';
    assert a == text[..|a|] && b == text[..|b|];
  }

  lemma PrefixesCompare(a: string, b: string, text: string)
    requires a <= text && b <= text
    ensures a <= b || b <= a
  {
    assert a == text[..|a|] && b == text[..|b|];
    assert |a| <= |b| ==> b[..|a|] == a;
    assert |b| <= |a| ==> a[..|b|] == b;
  }

  lemma FreshMatch(ents: Table, name: string, text: string)
    requires name <= text && Fresh(ents, name)
    ensures Match(ents, text) == |ents|
  {
    var j := Match(ents, text);
    if j < |ents| {
      PrefixesCompare(ents[j].name, name, text);
      assert false;
    }
  }

  /** In the extended table a use of a fresh name is a mention of the new entity. */
  lemma UseIsMention(ents: Table, e: Entity, u: string)
    requires Fresh(ents, e.name) && Uses(u, e.name)
    ensures Mentions(ents + [e], u, |ents|)
  {
    var p :| 0 <= p < |u| && u[p] == '&' && e.name <= u[p + 1..];
    FreshMatch(ents, e.name, u[p + 1..]);
    MatchExtended(ents, e, u[p + 1..]);
  }

  lemma MentionStays(ents: Table, e: Entity, u: string, j: nat)
    requires j < |ents| && Mentions(ents, u, j)
    ensures Mentions(ents + [e], u, j)
  {
    var p :| 0 <= p < |u| && u[p] == '&' && Match(ents, u[p + 1..]) == j;
    MatchExtended(ents, e, u[p + 1..]);
    assert Match(ents + [e], u[p + 1..]) == j;
  }

  lemma PathStays(ents: Table, e: Entity, path: seq<nat>)
    requires IsPath(ents, path)
    ensures IsPath(ents + [e], path)
  {
    forall i | 0 <= i < |path| - 1
      ensures Refers(ents + [e], path[i], path[i + 1])
    {
      assert Refers(ents, path[i], path[i + 1]);
      MentionStays(ents, e, ents[path[i]].value, path[i + 1]);
    }
  }

  lemma AppendPath(ents: Table, path: seq<nat>, j: nat)
    requires IsPath(ents, path) && j < |ents| && Refers(ents, path[|path| - 1], j)
    ensures IsPath(ents, path + [j])
  {
    var longer := path + [j];
    forall k | 0 <= k < |longer| - 1
      ensures Refers(ents, longer[k], longer[k + 1])
    {
      if k < |path| - 1 {
        assert Refers(ents, path[k], path[k + 1]);
      }
    }
  }

  lemma CycleFound(ents: Table, cycle: seq<nat>)
    requires IsPath(ents, cycle) && |cycle| > 1 && cycle[0] == cycle[|cycle| - 1]
    ensures !Acyclic(ents)
  {
  }

  /** A value that leads to a use of the new, fresh name closes a cycle. */
  lemma ReachesCycle(ents: Table, e: Entity)
    requires Fresh(ents, e.name) && Reaches(ents, e.value, e.name)
    ensures !Acyclic(ents + [e])
  {
    hide IsPath, Mentions, Uses, Acyclic;
    if Uses(e.value, e.name) {
      UsedAtOnce(ents, e);
    } else {
      var path :| LeadsToUse(ents, e.value, e.name, path);
      UsedAfter(ents, e, path);
    }
  }

  lemma UsedAtOnce(ents: Table, e: Entity)
    requires Fresh(ents, e.name) && Uses(e.value, e.name)
    ensures !Acyclic(ents + [e])
  {
    hide Mentions, Uses, Acyclic;
    UseIsMention(ents, e, e.value);
    CycleFound(ents + [e], [|ents|, |ents|]);
  }

  lemma UsedAfter(ents: Table, e: Entity, path: seq<nat>)
    requires Fresh(ents, e.name) && LeadsToUse(ents, e.value, e.name, path)
    ensures !Acyclic(ents + [e])
  {
    hide Mentions, Uses, Acyclic;
    var t, n, last := ents + [e], |ents|, path[|path| - 1];
    PathStays(ents, e, path);
    UseIsMention(ents, e, ents[last].value);
    assert t[last] == ents[last] && t[n] == e;
    AppendPath(t, path, n);
    MentionStays(ents, e, e.value, path[0]);
    hide IsPath;
    PrependPath(t, n, path + [n]);
    CycleFound(t, [n] + (path + [n]));
  }

  /** For a fresh name, a declaration is accepted if and only if the table stays free of
      cycles. */
  lemma CheckIsExact(ents: Table, w: seq<nat>, e: Entity)
    requires Weighted(ents, w) && Fresh(ents, e.name)
    ensures EntOk(e.name, e.value, ents, w) <==> Acyclic(ents + [e])
  {
    if EntOk(e.name, e.value, ents, w) {
      AcceptedKeepsWeights(ents, w, e);
      WeightsMakeAcyclic(ents + [e], Reweigh(ents, w, e));
    } else {
      RejectedReaches(e.value, ents, w, e.name);
      ReachesCycle(ents, e);
    }
  }

  /** Among simple names: the table stays free of cycles if and only if the check accepts the
      declaration or the name was declared before. */
  lemma CheckDecides(ents: Table, w: seq<nat>, e: Entity)
    requires Weighted(ents, w) && SimpleNames(ents) && SimpleName(e.name)
    ensures Acyclic(ents + [e]) <==>
      EntOk(e.name, e.value, ents, w) || exists i :: 0 <= i < |ents| && ents[i].name == e.name
  {
    FreshOrShadowed(ents, e.name);
    if Shadowed(ents, e.name) {
      ShadowedIsHarmless(ents, w, e);
    } else {
      CheckIsExact(ents, w, e);
    }
  }

  lemma ShadowedMatch(ents: Table, e: Entity, text: string)
    requires Shadowed(ents, e.name)
    ensures Match(ents + [e], text) != |ents|
    ensures Match(ents, text) < |ents| ==> Match(ents + [e], text) == Match(ents, text)
  {
    MatchExtended(ents, e, text);
    var i :| 0 <= i < |ents| && ents[i].name <= e.name;
    if e.name <= text {
      assert e.name == text[..|e.name|] && ents[i].name == e.name[..|ents[i].name|];
      assert ents[i].name == text[..|ents[i].name|];
    }
  }

  /** Declared in vain: with the new entity in the table, weights remain. */
  lemma ShadowedKeepsWeights(ents: Table, w: seq<nat>, e: Entity) returns (w': seq<nat>)
    requires Weighted(ents, w) && Shadowed(ents, e.name)
    ensures Weighted(ents + [e], w')
  {
    var t := ents + [e];
    w' := w + [Cost(e.value, ents, w) + 1];
    forall i | 0 <= i < |t|
      ensures Outweighs(t, w', i)
    {
      ShadowedCost(ents, w, e, w', t[i].value);
      assert i < |ents| ==> Outweighs(ents, w, i);
    }
  }

  lemma {:induction false} ShadowedCost(ents: Table, w: seq<nat>, e: Entity, w': seq<nat>, u: string)
    requires |w| == |ents| && w <= w' && |w'| == |ents| + 1 && Shadowed(ents, e.name)
    ensures Cost(u, ents + [e], w') == Cost(u, ents, w)
  {
    if u != "" {
      ShadowedMatch(ents, e, u[1..]);
      MatchExtended(ents, e, u[1..]);
      ShadowedCost(ents, w, e, w', u[1..]);
    }
  }

  /** A name declared again is never looked up as the new entity, so the table stays free of
      cycles whether the check accepts it or not. */
  lemma ShadowedIsHarmless(ents: Table, w: seq<nat>, e: Entity)
    requires Weighted(ents, w) && Shadowed(ents, e.name)
    ensures Acyclic(ents + [e])
  {
    var w' := ShadowedKeepsWeights(ents, w, e);
    WeightsMakeAcyclic(ents + [e], w');
  }

  // ---------------------------------------------------------------- the predefined table

  /** The five entities ezxml_new starts from. */
  const PREDEFINED: Table :=
    [Entity("lt;", "&#60;"), Entity("gt;", "&#62;"), Entity("quot;", "&#34;"),
     Entity("apos;", "&#39;"), Entity("amp;", "&#38;")]

  const PREDEFINED_WEIGHTS: seq<nat> := [7, 7, 7, 7, 7]

  lemma HashIsNoName(text: string)
    requires text != "" && text[0] == '#'
    ensures Match(PREDEFINED, text) == 5
  {
    forall i | 0 <= i < 5
      ensures !(PREDEFINED[i].name <= text)
    {
      assert PREDEFINED[i].name[0] != '#';
    }
  }

  /** A value such as "&#60;" weighs its length and is whole. */
  lemma CharacterReferenceValue(v: string)
    requires |v| == 5 && v[0] == '&' && v[1] == '#' && v[4] == ';' && '&' !in v[1..]
    ensures Cost(v, PREDEFINED, PREDEFINED_WEIGHTS) == 5 && Whole(v)
  {
    HashIsNoName(v[1..]);
    hide Match;
    CostPlain(v[1..], PREDEFINED, PREDEFINED_WEIGHTS);
    forall i | 0 <= i < |v| && v[i] == '&'
      ensures ';' in v[i..]
    {
      assert v[i..][4 - i] == ';';
    }
  }

  lemma PredefinedNames()
    ensures SimpleNames(PREDEFINED)
  {
    assert SimpleName("lt;") && SimpleName("gt;") && SimpleName("quot;") && SimpleName("apos;") && SimpleName("amp;");
  }

  lemma PredefinedEntity(i: nat)
    requires i < 5
    ensures Whole(PREDEFINED[i].value) && Outweighs(PREDEFINED, PREDEFINED_WEIGHTS, i)
  {
    CharacterReferenceValue(PREDEFINED[i].value);
  }

  lemma PredefinedWeighted()
    ensures Weighted(PREDEFINED, PREDEFINED_WEIGHTS) && SimpleNames(PREDEFINED) && WholeTable(PREDEFINED)
  {
    PredefinedNames();
    forall i | 0 <= i < 5
      ensures Whole(PREDEFINED[i].value) && Outweighs(PREDEFINED, PREDEFINED_WEIGHTS, i)
    {
      PredefinedEntity(i);
    }
  }

  /** Run of the declarations of an internal subset: each is kept when accepted, and the
      first rejected one ends the run. */
  ghost predicate Declared(decls: seq<Entity>, ents: Table, w: seq<nat>)
    requires Weighted(ents, w)
    decreases |decls|
  {
    decls == [] ||
    (NameOk(decls[0].name) && EntOk(decls[0].name, decls[0].value, ents, w) &&
     (AcceptedKeepsWeights(ents, w, decls[0]);
      Declared(decls[1..], ents + [decls[0]], Reweigh(ents, w, decls[0]))))
  }

  lemma {:induction false} RunKeepsWeights(decls: seq<Entity>, ents: Table, w: seq<nat>) returns (w': seq<nat>)
    requires Weighted(ents, w) && Declared(decls, ents, w)
    ensures Weighted(ents + decls, w')
    decreases |decls|
  {
    if decls == [] {
      w' := w;
      assert ents + decls == ents;
    } else {
      AcceptedKeepsWeights(ents, w, decls[0]);
      w' := RunKeepsWeights(decls[1..], ents + [decls[0]], Reweigh(ents, w, decls[0]));
      assert ents + [decls[0]] + decls[1..] == ents + decls;
    }
  }

  /** A whole internal subset, declared on top of the predefined table. */
  ghost predicate Accepted(decls: seq<Entity>) {
    PredefinedWeighted();
    Declared(decls, PREDEFINED, PREDEFINED_WEIGHTS)
  }

  /** Over a whole run of accepted declarations, starting from the predefined table, the
      reference graph stays acyclic and expansion weights exist. */
  lemma DeclarationsStayAcyclic(decls: seq<Entity>)
    requires Accepted(decls)
    ensures Acyclic(PREDEFINED + decls) && exists w :: Weighted(PREDEFINED + decls, w)
  {
    PredefinedWeighted();
    var w := RunKeepsWeights(decls, PREDEFINED, PREDEFINED_WEIGHTS);
    WeightsMakeAcyclic(PREDEFINED + decls, w);
  }
}

/** When the replace-and-rescan loop of ezxml_decode comes to an end: on every text exactly
    when it does on the value of every entity. */
module DecodeTermination {
  import opened CString
  import opened Entities
  import opened XmlText

  // ---------------------------------------------------------------- references read the same

  /** Texts that agree up to and including index m. */
  predicate Agree(u: string, v: string, m: nat) {
    m < |u| && m < |v| && u[..m + 1] == v[..m + 1]
  }

  lemma AgreeAt(u: string, v: string, m: nat, i: nat)
    requires Agree(u, v, m) && i <= m
    ensures u[i] == v[i] && At(u, i) == At(v, i) == u[i]
  {
    assert u[..m + 1][i] == v[..m + 1][i];
  }

  lemma AgreeFrom(u: string, v: string, m: nat, k: nat)
    requires Agree(u, v, m) && k <= m
    ensures Agree(u[k..], v[k..], m - k)
  {
    assert u[k..][..m - k + 1] == u[..m + 1][k..] == v[..m + 1][k..] == v[k..][..m - k + 1];
  }

  lemma SpaceSame(u: string, v: string, m: nat)
    requires Agree(u, v, m) && SkipSpace(u) <= m
    ensures SkipSpace(v) == SkipSpace(u)
  {
    var i, j := SkipSpace(u), SkipSpace(v);
    AgreeAt(u, v, m, i);
    if j < i {
      AgreeAt(u, v, m, j);
    }
  }

  lemma RunSame(u: string, v: string, m: nat, base: nat)
    requires Agree(u, v, m) && DigitRun(u, base) <= m
    ensures DigitRun(v, base) == DigitRun(u, base)
  {
    var i, j := DigitRun(u, base), DigitRun(v, base);
    AgreeAt(u, v, m, i);
    if j < i {
      AgreeAt(u, v, m, j);
    }
  }

  /** A number read up to a byte before index m is read the same from a text that agrees. */
  lemma NumberSame(u: string, v: string, m: nat, k: nat, base: nat, neg: bool)
    requires Agree(u, v, m) && k <= m && Number(u, k, base, neg).0 != 0 && Number(u, k, base, neg).1 <= m
    ensures Number(v, k, base, neg) == Number(u, k, base, neg)
  {
    hide DigitRun, DigitsValue, Clamped;
    AgreeFrom(u, v, m, k);
    var n := DigitRun(u[k..], base);
    RunSame(u[k..], v[k..], m - k, base);
    assert u[k..k + n] == u[..m + 1][k..k + n] == v[..m + 1][k..k + n] == v[k..k + n];
  }

  lemma HexSame(u: string, v: string, m: nat, j: nat)
    requires Agree(u, v, m) && u[m] == ';' && j < m
    ensures HexPrefix(v, j) == HexPrefix(u, j)
  {
    AgreeAt(u, v, m, j);
    AgreeAt(u, v, m, j + 1);
    if j + 2 <= m {
      AgreeAt(u, v, m, j + 2);
    }
  }

  lemma NumberBehind(u: string, k: nat, base: nat, neg: bool)
    requires k <= |u| && Number(u, k, base, neg).0 != 0
    ensures k < Number(u, k, base, neg).1
  {
    hide DigitRun, DigitsValue, Clamped;
  }

  lemma StrToLSame(u: string, v: string, m: nat, base: nat)
    requires Agree(u, v, m) && u[m] == ';' && StrToL(u, base).0 != 0 && StrToL(u, base).1 == m
    ensures StrToL(v, base) == StrToL(u, base)
  {
    hide Number, SkipSpace;
    var i := SkipSpace(u);
    var neg := At(u, i) == '-';
    var j := if neg || At(u, i) == '+' then i + 1 else i;
    var k := if base == 16 && HexPrefix(u, j) then j + 2 else j;
    NumberBehind(u, k, base, neg);
    SpaceSame(u, v, m);
    AgreeAt(u, v, m, i);
    HexSame(u, v, m, j);
    NumberSame(u, v, m, k, base, neg);
  }

  /** A character reference that ends at index m is read the same from a text that agrees. */
  lemma ReadSame(u: string, v: string, m: nat)
    requires "&#" <= u && ReadCharRef(u).Ref? && ReadCharRef(u).end == m && Agree(u, v, m)
    ensures "&#" <= v && ReadCharRef(v) == ReadCharRef(u)
  {
    hide StrToL;
    assert "&#" <= v by {
      AgreeAt(u, v, m, 0);
      AgreeAt(u, v, m, 1);
    }
    AgreeAt(u, v, m, 2);
    AgreeAt(u, v, m, m);
    var k := if At(u, 2) == 'x' then 3 else 2;
    AgreeFrom(u, v, m, k);
    StrToLSame(u[k..], v[k..], m - k, if k == 3 then 16 else 10);
  }

  // ---------------------------------------------------------------- a pass is local

  /** What a pass over w + r may leave: what a pass over w leaves and r after it, or a suffix
      of r, or a value and a proper suffix of r. */
  predicate Local(w: string, r: string, ents: Table, t: Mode, rest: string)
    requires w != ""
  {
    rest == DecodeStep(w, ents, t).rest + r ||
    (exists k {:trigger r[k..]} :: 0 <= k <= |r| && rest == r[k..]) ||
    exists j, k {:trigger ents[j], r[k..]} :: 0 <= j < |ents| && 0 < k <= |r| && rest == ents[j].value + r[k..]
  }

  lemma CharRefLocal(w: string, r: string, ents: Table, t: Mode)
    requires t != Cdata && w != "" && "&#" <= w + r
    ensures Local(w, r, ents, t, CharRefStep(w + r).rest)
  {
    hide ReadCharRef, EntityStep;
    var u := w + r;
    var ref := ReadCharRef(u);
    if |w| == 1 {
      assert CharRefStep(u).rest == r[if ref.Ref? then ref.end else 0..];
    } else {
      assert "&#" <= w by { assert w[..2] == u[..2]; }
      if ref.Ref? && ref.end >= |w| {
        assert CharRefStep(u).rest == r[ref.end + 1 - |w|..];
      } else if ref.Ref? {
        assert Agree(u, w, ref.end);
        ReadSame(u, w, ref.end);
        assert CharRefStep(u).rest == CharRefStep(w).rest + r;
      } else {
        if ReadCharRef(w).Ref? {
          assert Agree(w, u, ReadCharRef(w).end);
          ReadSame(w, u, ReadCharRef(w).end);
        }
        assert CharRefStep(u).rest == CharRefStep(w).rest + r;
      }
    }
  }

  /** The entity found for w + r is the one found for w, unless its name reaches into r. */
  lemma MatchLocal(w: string, r: string, ents: Table)
    requires w != ""
    ensures var j := Match(ents, (w + r)[1..]);
      (j < |ents| && |ents[j].name| >= |w|) || j == Match(ents, w[1..])
  {
    hide Match;
    var u := w + r;
    var i, j := Match(ents, w[1..]), Match(ents, u[1..]);
    assert u[1..] == w[1..] + r;
    if i < |ents| {
      assert ents[i].name <= u[1..];
    }
    if j < |ents| && |ents[j].name| < |w| {
      assert ents[j].name == u[1..][..|ents[j].name|] == w[1..][..|ents[j].name|];
    }
  }

  lemma EntityLocal(w: string, r: string, ents: Table, t: Mode)
    requires t != Cdata && w != "" && w[0] == '&' && SimpleNames(ents) && !("&#" <= w + r)
    ensures Local(w, r, ents, t, EntityStep(w + r, ents).rest)
  {
    hide Match, StrCspn, CharRefStep, ReadCharRef;
    var u := w + r;
    var j := Match(ents, u[1..]);
    assert !("&#" <= w) by { assert |w| >= 2 ==> w[..2] == u[..2]; }
    MatchLocal(w, r, ents);
    if j < |ents| {
      ReplacedLocal(w, r, ents[j]);
    } else {
      assert u[1..] == w[1..] + r;
    }
  }

  /** What replacing a reference leaves, for a text w and what follows it. */
  lemma ReplacedLocal(w: string, r: string, e: Entity)
    requires w != "" && w[0] == '&' && SimpleName(e.name) && e.name <= (w + r)[1..]
    ensures var u, n := w + r, |e.name|;
      StrCspn(u, ";") == n < |u| &&
      if n >= |w| then u[n + 1..] == r[n + 1 - |w|..]
      else e.value + u[n + 1..] == (e.value + w[n + 1..]) + r && (e.name <= w[1..] ==> StrCspn(w, ";") == n)
  {
    hide StrCspn;
    var u, n := w + r, |e.name|;
    FirstSemicolon(u, e.name);
    if n < |w| && e.name <= w[1..] {
      FirstSemicolon(w, e.name);
    }
  }

  lemma StepLocal(w: string, r: string, ents: Table, t: Mode)
    requires w != "" && SimpleNames(ents)
    ensures Local(w, r, ents, t, DecodeStep(w + r, ents, t).rest)
  {
    hide CharRefStep, EntityStep;
    var u := w + r;
    if t != Cdata && "&#" <= u {
      CharRefLocal(w, r, ents, t);
    } else if t != Cdata && w[0] == '&' {
      EntityLocal(w, r, ents, t);
    } else {
      assert !("&#" <= w) || t == Cdata by { assert |w| >= 2 ==> w[..2] == u[..2]; }
      assert u[1..] == w[1..] + r;
    }
  }

  // ---------------------------------------------------------------- where the loop ends

  predicate Suffix(r: string, q: string) {
    |q| <= |r| && q == r[|r| - |q|..]
  }

  /** The loop ends on r and on every suffix of it. */
  ghost predicate EndsBehind(r: string, ents: Table, t: Mode) {
    forall q :: Suffix(r, q) ==> Terminates(q, ents, t)
  }

  /** It ends on every value followed by a proper suffix of r. */
  ghost predicate EndsInside(r: string, ents: Table, t: Mode) {
    forall j, q :: 0 <= j < |ents| && Suffix(r, q) && |q| < |r| ==> Terminates(ents[j].value + q, ents, t)
  }

  lemma OnePassLess(u: string, ents: Table, t: Mode)
    requires u != "" && Terminates(DecodeStep(u, ents, t).rest, ents, t)
    ensures Terminates(u, ents, t)
  {
    hide DecodeStep;
    var k: nat :| After(DecodeStep(u, ents, t).rest, ents, t, k) == "";
    assert After(u, ents, t, k + 1) == "";
  }

  /** A text on which the loop ends may be followed by another such text. */
  lemma {:induction false} EndsOnBoth(w: string, r: string, ents: Table, t: Mode, k: nat)
    requires SimpleNames(ents) && After(w, ents, t, k) == "" && EndsBehind(r, ents, t) && EndsInside(r, ents, t)
    ensures Terminates(w + r, ents, t)
    decreases k
  {
    hide DecodeStep, Terminates, SimpleNames;
    if w == "" {
      assert w + r == r && Suffix(r, r);
    } else {
      var rest := DecodeStep(w + r, ents, t).rest;
      StepLocal(w, r, ents, t);
      if rest == DecodeStep(w, ents, t).rest + r {
        EndsOnBoth(DecodeStep(w, ents, t).rest, r, ents, t, k - 1);
      } else if i :| 0 <= i <= |r| && rest == r[i..] {
        assert Suffix(r, r[i..]);
      } else {
        var j, i :| 0 <= j < |ents| && 0 < i <= |r| && rest == ents[j].value + r[i..];
        assert Suffix(r, r[i..]);
      }
      OnePassLess(w + r, ents, t);
    }
  }

  lemma OneByteEnds(c: char, ents: Table, t: Mode)
    requires SimpleNames(ents)
    ensures After([c], ents, t, 1) == ""
  {
    var u := [c];
    assert u[1..] == "" && !("&#" <= u);
    assert forall i :: 0 <= i < |ents| ==> SimpleName(ents[i].name);
    assert Match(ents, "") == |ents|;
    assert DecodeStep(u, ents, t).rest == "";
    assert After("", ents, t, 0) == "";
  }

  predicate ValuesTerminate(ents: Table, t: Mode, ends: seq<nat>) {
    |ends| == |ents| && forall i :: 0 <= i < |ents| ==> After(ents[i].value, ents, t, ends[i]) == ""
  }

  /** The loop ends on every value followed by a suffix of r. */
  ghost predicate ValuesEndBehind(r: string, ents: Table, t: Mode) {
    forall j, q :: 0 <= j < |ents| && Suffix(r, q) ==> Terminates(ents[j].value + q, ents, t)
  }

  /** One byte more in front. */
  lemma EndsOneFurther(r: string, ents: Table, t: Mode)
    requires SimpleNames(ents) && r != "" && EndsBehind(r[1..], ents, t) && ValuesEndBehind(r[1..], ents, t)
    ensures EndsBehind(r, ents, t) && EndsInside(r, ents, t)
  {
    hide Terminates, After, SimpleNames, Suffix;
    SuffixesOfTail(r);
    OneByteEnds(r[0], ents, t);
    assert EndsInside(r[1..], ents, t);
    EndsOnBoth([r[0]], r[1..], ents, t, 1);
    assert r == [r[0]] + r[1..];
  }

  lemma ValuesEndToo(r: string, ents: Table, t: Mode, ends: seq<nat>)
    requires SimpleNames(ents) && ValuesTerminate(ents, t, ends) && EndsBehind(r, ents, t) && EndsInside(r, ents, t)
    ensures ValuesEndBehind(r, ents, t)
  {
    hide Terminates, After, SimpleNames;
    forall j, q | 0 <= j < |ents| && Suffix(r, q)
      ensures Terminates(ents[j].value + q, ents, t)
    {
      if |q| == |r| {
        assert q == r;
        EndsOnBoth(ents[j].value, r, ents, t, ends[j]);
      }
    }
  }

  /** If the loop ends on every value, it ends on every text, also behind a value. */
  lemma {:induction false} EndsEverywhere(r: string, ents: Table, t: Mode, ends: seq<nat>)
    requires SimpleNames(ents) && ValuesTerminate(ents, t, ends)
    ensures EndsBehind(r, ents, t) && ValuesEndBehind(r, ents, t)
    decreases |r|
  {
    hide Terminates, After, SimpleNames;
    if r != "" {
      EndsEverywhere(r[1..], ents, t, ends);
      EndsOneFurther(r, ents, t);
    } else {
      EmptyEnds(ents, t);
      assert forall q :: Suffix("", q) ==> q == "";
    }
    ValuesEndToo(r, ents, t, ends);
  }

  lemma EmptyEnds(ents: Table, t: Mode)
    ensures Terminates("", ents, t)
  {
    assert After("", ents, t, 0) == "";
  }

  lemma SuffixesOfTail(r: string)
    requires r != ""
    ensures forall q :: Suffix(r, q) <==> q == r || Suffix(r[1..], q)
  {
    forall q
      ensures Suffix(r, q) <==> q == r || Suffix(r[1..], q)
    {
      if |q| < |r| {
        assert r[1..][|r| - 1 - |q|..] == r[|r| - |q|..];
      }
    }
  }

  lemma EndsOf(ents: Table, t: Mode, n: nat) returns (ends: seq<nat>)
    requires n <= |ents| && forall i :: 0 <= i < |ents| ==> Terminates(ents[i].value, ents, t)
    ensures |ends| == n && forall i :: 0 <= i < n ==> After(ents[i].value, ents, t, ends[i]) == ""
  {
    hide After;
    if n == 0 {
      ends := [];
    } else {
      ends := EndsOf(ents, t, n - 1);
      assert Terminates(ents[n - 1].value, ents, t);
      var k: nat :| After(ents[n - 1].value, ents, t, k) == "";
      ends := ends + [k];
    }
  }

  /** The decoding loop ends on every text if and only if it ends on the value of every
      entity taken alone: finitely many texts decide about all of them. */
  lemma TerminatesExactly(ents: Table, t: Mode)
    requires SimpleNames(ents)
    ensures (forall u :: Terminates(u, ents, t)) <==> forall i :: 0 <= i < |ents| ==> Terminates(ents[i].value, ents, t)
  {
    hide Terminates, After, SimpleNames;
    if forall i :: 0 <= i < |ents| ==> Terminates(ents[i].value, ents, t) {
      var ends := EndsOf(ents, t, |ents|);
      forall u
        ensures Terminates(u, ents, t)
      {
        EndsEverywhere(u, ents, t, ends);
        assert Suffix(u, u);
      }
    }
  }

  /** Whole values and expansion weights are enough for it to end on every text. */
  lemma WholeTableTerminates(u: string, ents: Table, w: seq<nat>, t: Mode)
    requires Weighted(ents, w) && SimpleNames(ents) && WholeTable(ents)
    ensures Terminates(u, ents, t)
  {
    var k := DecodedInPasses(u, ents, w, t);
  }

  /** Whatever the parser has declared: where names are simple and values whole, decoding ends on
      every text. */
  lemma AcceptedTerminates(decls: seq<Entity>, u: string, t: Mode)
    requires Accepted(decls) && SimpleNames(decls) && WholeTable(decls)
    ensures Terminates(u, PREDEFINED + decls, t)
  {
    hide Accepted, SimpleName, Whole, Weighted, Terminates;
    DeclarationsStayAcyclic(decls);
    PredefinedWeighted();
    var ents := PREDEFINED + decls;
    var w :| Weighted(ents, w);
    forall i | 0 <= i < |ents|
      ensures SimpleName(ents[i].name) && Whole(ents[i].value)
    {
      assert ents[i] == if i < |PREDEFINED| then PREDEFINED[i] else decls[i - |PREDEFINED|];
    }
    WholeTableTerminates(u, ents, w, t);
  }

  // ---------------------------------------------------------------- a table on which it does not

  const OPEN_A: Entity := Entity("a;", "&b;;")
  const OPEN_B: Entity := Entity("b;", "&a")

  lemma UnknownReferenceOk(name: string, u: string, ents: Table, w: seq<nat>)
    requires Weighted(ents, w) && u != "" && u[0] == '&' && '&' !in u[1..]
    requires !(name <= u[1..]) && Match(ents, u[1..]) == |ents|
    ensures EntOk(name, u, ents, w)
  {
    PlainIsOk(name, u[1..], ents, w);
  }

  lemma PredefinedMisses(text: string)
    requires text == "a" || text == "a;" || text == "b;;" || text == "a;b;"
    ensures forall i :: 0 <= i < |PREDEFINED| ==> !(PREDEFINED[i].name <= text)
  {
    assert PREDEFINED[0].name[0] == 'l' && PREDEFINED[1].name[0] == 'g' && PREDEFINED[2].name[0] == 'q';
    assert PREDEFINED[3].name[1] == 'p' && PREDEFINED[4].name[1] == 'm' && (|text| > 1 ==> text[1] == ';');
  }

  lemma FirstOpenAccepted()
    ensures Weighted(PREDEFINED, PREDEFINED_WEIGHTS) && NameOk(OPEN_A.name)
    ensures EntOk(OPEN_A.name, OPEN_A.value, PREDEFINED, PREDEFINED_WEIGHTS)
  {
    hide Cost, EntOk;
    PredefinedWeighted();
    assert OPEN_A.value[1..] == "b;;" && OPEN_A.name[0] != "b;;"[0];
    PredefinedMisses("b;;");
    UnknownReferenceOk(OPEN_A.name, OPEN_A.value, PREDEFINED, PREDEFINED_WEIGHTS);
  }

  lemma SecondOpenAccepted(ents: Table, w: seq<nat>)
    requires ents == PREDEFINED + [OPEN_A] && Weighted(ents, w)
    ensures NameOk(OPEN_B.name) && EntOk(OPEN_B.name, OPEN_B.value, ents, w) && !Whole(OPEN_B.value)
  {
    hide Cost, EntOk;
    assert OPEN_B.value[1..] == "a" && OPEN_B.value[0..] == "&a";
    PredefinedMisses("a");
    assert ents[5] == OPEN_A && Match(ents, "a") == |ents|;
    UnknownReferenceOk(OPEN_B.name, OPEN_B.value, ents, w);
  }

  /** The parser accepts both declarations, in this order, on top of the predefined entities;
      the value of the second leaves a reference open. */
  lemma OpenValuesAccepted()
    ensures Accepted([OPEN_A, OPEN_B]) && !Whole(OPEN_B.value)
  {
    hide Cost, EntOk, Match, Weighted, Reweigh;
    var decls, ents := [OPEN_A, OPEN_B], PREDEFINED + [OPEN_A];
    PredefinedWeighted();
    FirstOpenAccepted();
    AcceptedKeepsWeights(PREDEFINED, PREDEFINED_WEIGHTS, OPEN_A);
    var w := Reweigh(PREDEFINED, PREDEFINED_WEIGHTS, OPEN_A);
    SecondOpenAccepted(ents, w);
    AcceptedKeepsWeights(ents, w, OPEN_B);
    assert decls[1..] == [OPEN_B] && decls[1..][1..] == [];
    assert Declared(decls[1..][1..], ents + [OPEN_B], Reweigh(ents, w, OPEN_B));
    assert Declared(decls[1..], ents, w);
  }

  lemma OpenStep(r: string, i: nat, t: Mode)
    requires t != Cdata && ((i == 0 && r == "&a;") || (i == 1 && r == "&b;;"))
    ensures DecodeStep(r, PREDEFINED + [OPEN_A, OPEN_B], t).rest == [OPEN_A, OPEN_B][i].value + r[3..]
  {
    var ents := PREDEFINED + [OPEN_A, OPEN_B];
    hide ReadCharRef;
    assert r[0] == '&' && r[1] != '#';
    PredefinedMisses(r[1..]);
    assert ents[5] == OPEN_A && ents[6] == OPEN_B;
    assert i == 0 ==> r[1..] == "a;";
    assert i == 1 ==> r[1..] == "b;;" && "b;;"[..2] == "b;" && OPEN_A.name[0] != "b;;"[0];
    assert Match(ents, r[1..]) == 5 + i;
    FirstSemicolon(r, ents[5 + i].name);
  }

  /** Two passes give "&a;" back. */
  lemma {:induction false} OpenPasses(t: Mode, k: nat)
    requires t != Cdata
    ensures After("&a;", PREDEFINED + [OPEN_A, OPEN_B], t, k) != "" && After("&b;;", PREDEFINED + [OPEN_A, OPEN_B], t, k) != ""
  {
    hide DecodeStep;
    if k > 0 {
      OpenPasses(t, k - 1);
      OpenStep("&a;", 0, t);
      OpenStep("&b;;", 1, t);
      assert "&b;;" + "&a;"[3..] == "&b;;" && "&a" + "&b;;"[3..] == "&a;";
    }
  }

  /** So the decoder never ends on "&a;", whatever number of passes it makes, although the
      parser has accepted the table. */
  lemma OpenValuesLoop(t: Mode)
    requires t != Cdata
    ensures Accepted([OPEN_A, OPEN_B]) && !Terminates("&a;", PREDEFINED + [OPEN_A, OPEN_B], t)
  {
    OpenValuesAccepted();
    forall k: nat
      ensures After("&a;", PREDEFINED + [OPEN_A, OPEN_B], t, k) != ""
    {
      OpenPasses(t, k);
    }
  }

  const INNER: Entity := Entity("a;b;", "&a;")

  /** With a second ';' in a name the values alone do not decide: the decoder ends on the value
      of this accepted entity, but replaces only a part of a reference to it and never ends on
      the reference. */
  lemma InnerSemicolonLoops(t: Mode)
    requires t != Cdata
    ensures Accepted([INNER]) && Terminates(INNER.value, PREDEFINED + [INNER], t)
    ensures !Terminates("&a;b;", PREDEFINED + [INNER], t)
  {
    var ents := PREDEFINED + [INNER];
    InnerAccepted();
    InnerSteps(t);
    assert After("&a;", ents, t, 3) == After("a;", ents, t, 2);
    forall k: nat
      ensures After("&a;b;", ents, t, k) != ""
    {
      InnerPasses(t, k);
    }
  }

  lemma InnerAccepted()
    ensures Accepted([INNER])
  {
    hide Cost, EntOk;
    PredefinedWeighted();
    assert INNER.value[1..] == "a;" && INNER.name[2] == 'b';
    PredefinedMisses("a;");
    UnknownReferenceOk(INNER.name, INNER.value, PREDEFINED, PREDEFINED_WEIGHTS);
    assert [INNER][1..] == [];
    AcceptedKeepsWeights(PREDEFINED, PREDEFINED_WEIGHTS, INNER);
    assert Declared([], PREDEFINED + [INNER], Reweigh(PREDEFINED, PREDEFINED_WEIGHTS, INNER));
  }

  lemma InnerSteps(t: Mode)
    requires t != Cdata
    ensures DecodeStep("&a;b;", PREDEFINED + [INNER], t).rest == "&a;b;"
    ensures DecodeStep("&a;", PREDEFINED + [INNER], t).rest == "a;" && After("a;", PREDEFINED + [INNER], t, 2) == ""
  {
    hide ReadCharRef, Match, StrCspn;
    var ents := PREDEFINED + [INNER];
    var u, v := "&a;b;", "&a;";
    assert u[1..] == "a;b;" && v[1..] == "a;" && u[3..] == "b;" && "&a;" + "b;" == u;
    InnerMatches(ents);
    PlainBytes(ents, t);
  }

  lemma InnerMatches(ents: Table)
    requires ents == PREDEFINED + [INNER]
    ensures |ents| == 6 && ents[5] == INNER && Match(ents, "a;b;") == 5 && Match(ents, "a;") == 6 && StrCspn("&a;b;", ";") == 2
  {
    PredefinedMisses("a;b;");
    PredefinedMisses("a;");
  }

  lemma PlainBytes(ents: Table, t: Mode)
    ensures After("a;", ents, t, 2) == ""
  {
    assert "a;"[1..] == ";" && ";"[1..] == "";
    assert DecodeStep("a;", ents, t).rest == ";" && DecodeStep(";", ents, t).rest == "";
    assert After(";", ents, t, 1) == "";
  }

  lemma {:induction false} InnerPasses(t: Mode, k: nat)
    requires t != Cdata
    ensures After("&a;b;", PREDEFINED + [INNER], t, k) != ""
  {
    hide DecodeStep;
    if k > 0 {
      InnerSteps(t);
      InnerPasses(t, k - 1);
    }
  }

  /** Open values alone do no harm: this table is not whole, and the loop ends on every text. */
  lemma OpenValueTerminates(u: string, t: Mode)
    ensures !WholeTable([Entity("a;", "&")]) && Terminates(u, [Entity("a;", "&")], t)
  {
    var ents := [Entity("a;", "&")];
    assert "&"[0..] == "&";
    OneByteEnds('&', ents, t);
    assert Terminates(ents[0].value, ents, t);
    TerminatesExactly(ents, t);
  }
}

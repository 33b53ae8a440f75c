/** Parsing the printed form of a well-formed tree returns the same tree. */
module XmlRoundTrip {
  import opened CString
  import opened XmlText
  import opened XmlTree

  predicate Avoids(s: string, bytes: string) {
    forall i :: 0 <= i < |s| ==> s[i] !in bytes && s[i] != '\0'
  }

  predicate TagNameOk(name: string) {
    name != "" && NameStart(name[0]) && Avoids(name, WS + "/>")
  }

  predicate AttrOk(a: Attribute) {
    Avoids(a.name, WS + "=/>") && (a.name != "" ==> !IsSpace(a.name[0])) && TextOk(a.value, true)
  }

  predicate TextOk(s: string, attr: bool) {
    forall i :: 0 <= i < |s| ==> Encodable(s[i], attr)
  }

  predicate AttrsOk(attrs: seq<Attribute>) {
    forall i :: 0 <= i < |attrs| ==> AttrOkAt(attrs, i)
  }

  predicate AttrOkAt(attrs: seq<Attribute>, i: nat)
    requires i < |attrs|
  {
    AttrOk(attrs[i]) && FirstOfName(attrs, i)
  }

  /** Valid names, distinct attributes, encodable text, sub tag offsets sorted and within
      the text, at every level. */
  predicate WellFormed(x: Xml)
    decreases x, 1
  {
    TagNameOk(x.name) && AttrsOk(x.attrs) && TextOk(x.txt, false) && KidsOk(x.kids, |x.txt|, 0)
  }

  predicate KidsOk(kids: seq<Kid>, len: nat, start: nat)
    decreases kids, 0
  {
    kids == [] ||
    (start <= kids[0].off <= len && KidOk(kids[0]) && KidsOk(kids[1..], len, kids[0].off))
  }

  predicate KidOk(kid: Kid)
    decreases kid, 2
  {
    WellFormed(kid.tag)
  }

  // ---------------------------------------------------------------- one attribute, one tag

  lemma QuotedValue(v: string, more: string)
    requires '"' !in v
    ensures ReadValue("=\"" + v + "\"" + more) == Value(v, more)
  {
    var q := v + "\"" + more;
    var r, r2 := "=\"" + v + "\"" + more, "\"" + v + "\"" + more;
    assert r[1..] == r2 && r2[1..] == q;
    hide StrSpn, StrCspn;
    NothingSkipped(r2);
    assert r2[0..] == r2 && [r2[0]] == "\"";
    QuoteEnds(v, more);
  }

  lemma NothingSkipped(r: string)
    requires r != "" && r[0] == '"'
    ensures StrSpn(r, WS + "=") == 0
  {
  }

  lemma QuoteEnds(v: string, more: string)
    requires '"' !in v
    ensures var q := v + "\"" + more; StrCspn(q, "\"") == |v| && q[..|v|] == v && q[|v| + 1..] == more
  {
    var q := v + "\"" + more;
    assert q[|v|] == '"' && forall i :: 0 <= i < |v| ==> q[i] == v[i];
  }

  /** Where the attribute loop finds the name and the value. */
  lemma AttrSplit(a: Attribute, more: string)
    requires AttrOk(a)
    ensures var r := AttrText(a) + more; var s := r[1..]; var n := |a.name|;
      SkipSpace(r) == 1 && s != "" && s[0] != '/' && s[0] != '>' && StrCspn(s, WS + "=/>") == n &&
      s[..n] == a.name && s[n..] == "=\"" + Encoded(a.value, true) + "\"" + more
  {
    hide Encoded, TextOk, StrCspn, SkipSpace, IsSpace;
    var v := Encoded(a.value, true);
    var t := "=\"" + v + "\"" + more;
    AttrLayout(a.name, v, more);
    NameStops(a.name, t);
    OneSpace(a.name + t);
  }

  lemma AttrLayout(name: string, v: string, more: string)
    ensures " " + name + "=\"" + v + "\"" + more == " " + (name + ("=\"" + v + "\"" + more))
  {
    Assoc(" " + name + "=\"", v, "\"");
    Assoc(" " + name + "=\"", v + "\"", more);
    Assoc(" " + name, "=\"", v + "\"" + more);
    Assoc(" ", name, "=\"" + (v + "\"" + more));
    Assoc("=\"", v, "\"");
    Assoc("=\"", v + "\"", more);
  }

  lemma OneSpace(s: string)
    requires s != "" && !IsSpace(s[0])
    ensures SkipSpace(" " + s) == 1 && (" " + s)[1..] == s
  {
  }

  /** A name in front of a '='. */
  lemma NameStops(name: string, t: string)
    requires Avoids(name, WS + "=/>") && (name != "" ==> !IsSpace(name[0])) && t != "" && t[0] == '='
    ensures var s := name + t;
      s != "" && s[0] != '/' && s[0] != '>' && !IsSpace(s[0]) && StrCspn(s, WS + "=/>") == |name| &&
      s[..|name|] == name && s[|name|..] == t
  {
    var s, n := name + t, |name|;
    assert s[0] == if name == "" then '=' else name[0];
    assert s[n] == '=' && forall i :: 0 <= i < n ==> s[i] == name[i];
  }

  lemma AttrRead(a: Attribute, more: string)
    requires AttrOk(a)
    ensures ReadAttrs(AttrText(a) + more) == Prepend(a, ReadAttrs(more))
  {
    AttrSplit(a, more);
    EncodedHasNoMarkup(a.value, true);
    QuotedValue(Encoded(a.value, true), more);
    DecodeUndoesEncode(a.value, true);
  }

  lemma NextAttr(attrs: seq<Attribute>, i: nat, rest: string)
    requires i < |attrs| && AttrsOk(attrs)
    ensures AttrsText(attrs, i) + rest == AttrText(attrs[i]) + (AttrsText(attrs, i + 1) + rest)
    ensures AttrOk(attrs[i]) && attrs[i..] == [attrs[i]] + attrs[i + 1..]
  {
    hide AttrText, AttrOk;
    assert AttrOkAt(attrs, i);
    Assoc(AttrText(attrs[i]), AttrsText(attrs, i + 1), rest);
  }

  lemma NoMoreAttrs(rest: string)
    requires rest != "" && rest[0] == '>'
    ensures ReadAttrs(rest) == Attrs([], rest)
  {
    assert SkipSpace(rest) == 0 && rest[0..] == rest;
  }

  lemma {:induction false} AttrsRead(attrs: seq<Attribute>, i: nat, rest: string, text: string)
    requires i <= |attrs| && AttrsOk(attrs) && rest != "" && rest[0] == '>'
    requires text == AttrsText(attrs, i) + rest
    ensures ReadAttrs(text) == Attrs(attrs[i..], rest)
    decreases |attrs| - i
  {
    if i == |attrs| {
      assert text == rest;
      NoMoreAttrs(rest);
    } else {
      var more := AttrsText(attrs, i + 1) + rest;
      NextAttr(attrs, i, rest);
      AttrRead(attrs[i], more);
      AttrsRead(attrs, i + 1, rest, more);
    }
  }

  lemma AttrsTextStart(attrs: seq<Attribute>, i: nat)
    requires i <= |attrs|
    ensures AttrsText(attrs, i) == "" || AttrsText(attrs, i)[0] == ' '
    decreases |attrs| - i
  {
    if i < |attrs| {
      AttrsTextStart(attrs, i + 1);
    }
  }

  lemma OpenTagRead(name: string, attrs: seq<Attribute>, body: string, e: char, st: State)
    requires TagNameOk(name) && AttrsOk(attrs) && Valid(st) && !st.Closed?
    ensures var r := name + AttrsText(attrs, 0) + (">" + body);
      ReadMarkup(r, e, st) == Go(OpenTag(st, name, attrs), ">" + body)
  {
    var tail := AttrsText(attrs, 0) + (">" + body);
    var r := name + AttrsText(attrs, 0) + (">" + body);
    assert r == name + tail;
    AttrsTextStart(attrs, 0);
    assert tail[0] == ' ' || tail[0] == '>';
    assert r[|name|] == tail[0] && forall i :: 0 <= i < |name| ==> r[i] == name[i];
    assert StrCspn(r, WS + "/>") == |name|;
    assert r[..|name|] == name && r[|name|..] == tail;
    AttrsRead(attrs, 0, ">" + body, tail);
    assert attrs[0..] == attrs;
  }

  lemma EndTagRead(name: string, rest: string, e: char, st: State)
    requires TagNameOk(name) && Valid(st) && (rest == "" ==> e == '>') && (rest != "" ==> rest[0] == '>')
    requires CloseTag(st, name).Some?
    ensures ReadMarkup("/" + name + rest, e, st) == Go(CloseTag(st, name).value, rest)
  {
    var r := "/" + name + rest;
    var d := name + rest;
    assert r[1..] == d && !NameStart(r[0]);
    assert forall i :: 0 <= i < |name| ==> d[i] == name[i];
    assert rest != "" ==> d[|name|] == '>';
    assert StrCspn(d, WS + ">") == |name|;
    assert d[..|name|] == name && d[|name|..] == rest;
    assert StrSpn(rest, WS) == 0 && rest[0..] == rest;
  }

  lemma UpToLess(a: string, more: string)
    requires '<' !in a
    ensures var t := a + ("<" + more); StrCspn(t, "<") == |a| && t[..|a|] == a && t[|a| + 1..] == more
  {
    var t := a + ("<" + more);
    assert t[|a|] == '<' && forall i :: 0 <= i < |a| ==> t[i] == a[i] && a[i] in a;
  }

  lemma AddNothing(st: State)
    requires Valid(st) && st.Open?
    ensures AddText(st, "") == st
  {
    var top := st.stack[|st.stack| - 1];
    assert top.tag.txt + "" == top.tag.txt && st.stack[..|st.stack| - 1] + [top] == st.stack;
  }

  lemma EncodedContent(piece: string, st: State)
    requires TextOk(piece, false) && Valid(st) && st.Open?
    ensures CharContent(st, Encoded(piece, false), Text) == AddText(st, piece)
  {
    DecodeUndoesEncode(piece, false);
    AddNothing(st);
    if piece != "" {
      assert Encodable(piece[0], false);
    }
  }

  /** Encoded content between two pieces of markup is appended decoded. */
  lemma ContentRead(piece: string, more: string, e: char, st: State)
    requires TextOk(piece, false) && Valid(st) && st.Open?
    ensures AfterMarkup(">" + Encoded(piece, false) + ("<" + more), e, st) == Run(more, e, AddText(st, piece))
  {
    var enc := Encoded(piece, false);
    var rest := ">" + enc + ("<" + more);
    assert rest[1..] == enc + ("<" + more);
    EncodedHasNoMarkup(piece, false);
    UpToLess(enc, more);
    EncodedContent(piece, st);
    if enc == "" {
      AddNothing(st);
    }
  }

  // ---------------------------------------------------------------- the tree

  /** Content from one sub tag to the next, or to the end. */
  function Gap(kids: seq<Kid>, txt: string, start: nat): string
    requires KidsOk(kids, |txt|, start) && start <= |txt|
  {
    if kids == [] then txt[start..] else txt[start..kids[0].off]
  }

  /** The printed sub tags without their first '<', each followed by content and a '<'. */
  function Tail(kids: seq<Kid>, txt: string, start: nat): string
    requires KidsOk(kids, |txt|, start)
    decreases kids
  {
    if kids == [] then ""
    else TagText(kids[0].tag)[1..] + Encoded(Gap(kids[1..], txt, kids[0].off), false) + "<" + Tail(kids[1..], txt, kids[0].off)
  }

  lemma {:induction false} KidsTextSplits(kids: seq<Kid>, txt: string, start: nat)
    requires KidsOk(kids, |txt|, start) && start <= |txt|
    ensures KidsText(kids, txt, start) + "<" == Encoded(Gap(kids, txt, start), false) + "<" + Tail(kids, txt, start)
    decreases kids
  {
    hide Encoded;
    if kids != [] {
      KidsTextSplits(kids[1..], txt, kids[0].off);
      var tag := TagText(kids[0].tag);
      assert tag == "<" + tag[1..] && KidText(kids[0]) == tag;
      var enc, rest := Encoded(Gap(kids, txt, start), false), KidsText(kids[1..], txt, kids[0].off);
      assert KidsText(kids, txt, start) == enc + tag + rest;
      Assoc(enc + tag, rest, "<");
      Regroup(enc, tag[1..], Encoded(Gap(kids[1..], txt, kids[0].off), false), Tail(kids[1..], txt, kids[0].off));
    }
  }

  lemma Regroup(enc: string, tag: string, gap: string, tail: string)
    ensures enc + ("<" + tag) + (gap + "<" + tail) == enc + "<" + (tag + gap + "<" + tail)
  {}

  /** The tag x in progress on top of `base`: content up to `pos` and i sub tags read. */
  function Partial(base: seq<Kid>, off: nat, x: Xml, i: nat, pos: nat): State
    requires i <= |x.kids| && pos <= |x.txt|
  {
    Open(base + [Kid(off, Xml(x.name, x.attrs, x.txt[..pos], x.kids[..i]))])
  }

  function GapEnd(x: Xml, i: nat): nat
    requires i <= |x.kids|
  {
    if i < |x.kids| then x.kids[i].off else |x.txt|
  }

  lemma TextOkSlice(txt: string, from: nat, to: nat)
    requires TextOk(txt, false) && from <= to <= |txt|
    ensures TextOk(txt[from..to], false)
  {
    assert forall i :: 0 <= i < to - from ==> txt[from..to][i] == txt[from + i];
  }

  lemma KidsOkAt(kids: seq<Kid>, len: nat, start: nat, i: nat)
    requires KidsOk(kids, len, start) && i < |kids|
    ensures start <= kids[i].off <= len && WellFormed(kids[i].tag) && KidsOk(kids[i + 1..], len, kids[i].off)
    decreases i
  {
    if i > 0 {
      KidsOkAt(kids[1..], len, kids[0].off, i - 1);
      assert kids[1..][i - 1 + 1..] == kids[i + 1..];
    }
  }

  /** The printed tag without its outer angle brackets. */
  function BodyText(x: Xml): string {
    x.name + AttrsText(x.attrs, 0) + ">" + KidsText(x.kids, x.txt, 0) + "</" + x.name
  }

  /** The innermost open tag with x added at the end of its content. */
  function AddKid(st: State, x: Xml): State
    requires st.Open? && Valid(st)
  {
    var top := st.stack[|st.stack| - 1];
    Open(st.stack[..|st.stack| - 1] + [top.(tag := top.tag.(kids := top.tag.kids + [Kid(|top.tag.txt|, x)]))])
  }

  /** x complete but still open, on top of the state before it. */
  function Whole(st: State, x: Xml): State
    requires !st.Closed? && Valid(st)
  {
    Partial(if st.Open? then st.stack else [], EntryOffset(st), x, |x.kids|, |x.txt|)
  }

  function EntryOffset(st: State): nat
    requires Valid(st)
  {
    if st.Open? then |st.stack[|st.stack| - 1].tag.txt| else 0
  }

  /** Printed tag, then content, then another '<': the main loop ends up with the tag added
      to the innermost open tag and the content appended. */
  lemma {:induction false} TagRuns(x: Xml, st: State, piece: string, more: string, e: char)
    requires WellFormed(x) && TextOk(piece, false) && st.Open? && Valid(st)
    ensures Run(TagText(x)[1..] + Encoded(piece, false) + "<" + more, e, st)
         == Run(more, e, AddText(AddKid(st, x), piece))
    decreases x, 3
  {
    hide *;
    var enc := Encoded(piece, false);
    var close := ">" + enc + ("<" + more);
    TagIsBody(x);
    AfterBody(BodyText(x), enc, more);
    StaysOpen(st, x);
    BodyRuns(x, st, close, e);
    EndRuns(x, st, close, e);
    ContentRead(piece, more, e, AddKid(st, x));
  }

  lemma TagIsBody(x: Xml)
    ensures TagText(x)[1..] == BodyText(x) + ">"
  {
    hide AttrsText, KidsText;
  }

  lemma StaysOpen(st: State, x: Xml)
    requires st.Open? && Valid(st)
    ensures AddKid(st, x).Open? && Valid(AddKid(st, x))
  {
  }

  /** The end tag of x, complete but still open. */
  lemma EndRuns(x: Xml, st: State, close: string, e: char)
    requires WellFormed(x) && !st.Closed? && Valid(st) && close != "" && close[0] == '>'
    ensures Valid(Whole(st, x))
    ensures Run("/" + x.name + close, e, Whole(st, x))
         == AfterMarkup(close, e, if st.Open? then AddKid(st, x) else Closed(x))
  {
    hide ReadMarkup, AfterMarkup, CloseTag;
    CloseWhole(st, x);
    EndTagRead(x.name, close, e, Whole(st, x));
  }

  lemma AfterBody(body: string, enc: string, more: string)
    ensures body + ">" + enc + "<" + more == body + (">" + enc + ("<" + more))
  {
    Assoc(body + ">" + enc, "<", more);
    Assoc(body, ">", enc);
    Assoc(body, ">" + enc, "<" + more);
  }

  lemma CloseWhole(st: State, x: Xml)
    requires !st.Closed? && Valid(st)
    ensures CloseTag(Whole(st, x), x.name) == Some(if st.Open? then AddKid(st, x) else Closed(x))
  {
    assert x.txt[..|x.txt|] == x.txt && x.kids[..|x.kids|] == x.kids;
    if st.Open? {
      var stack := Whole(st, x).stack;
      assert stack[..|stack| - 2] == st.stack[..|st.stack| - 1];
    }
  }

  /** x just opened, with its first piece of content. */
  lemma FirstPartial(st: State, x: Xml)
    requires !st.Closed? && Valid(st) && GapEnd(x, 0) <= |x.txt|
    ensures AddText(OpenTag(st, x.name, x.attrs), x.txt[0..GapEnd(x, 0)])
         == Partial(if st.Open? then st.stack else [], EntryOffset(st), x, 0, GapEnd(x, 0))
  {
    var base := if st.Open? then st.stack else [];
    var stack := OpenTag(st, x.name, x.attrs).stack;
    assert "" + x.txt[0..GapEnd(x, 0)] == x.txt[..GapEnd(x, 0)] && x.kids[..0] == [];
    assert stack[..|base|] == base;
  }

  /** From the start of the printed tag to its end tag. */
  lemma {:induction false} BodyRuns(x: Xml, st: State, close: string, e: char)
    requires WellFormed(x) && !st.Closed? && Valid(st)
    ensures Run(BodyText(x) + close, e, st) == Run("/" + x.name + close, e, Whole(st, x))
    decreases x, 2
  {
    var end := "/" + x.name + close;
    var kids := KidsText(x.kids, x.txt, 0);
    var gap, tail := x.txt[0..GapEnd(x, 0)], Tail(x.kids, x.txt, 0);
    assert Gap(x.kids, x.txt, 0) == gap;
    KidsTextSplits(x.kids, x.txt, 0);
    Layout(x.name, AttrsText(x.attrs, 0), kids, close);
    OpenTagRead(x.name, x.attrs, kids + ("<" + end), e, st);
    Regrouped(kids, Encoded(gap, false), tail, end);
    TextOkSlice(x.txt, 0, GapEnd(x, 0));
    ContentRead(gap, tail + end, e, OpenTag(st, x.name, x.attrs));
    FirstPartial(st, x);
    assert x.kids[0..] == x.kids;
    KidsRun(if st.Open? then st.stack else [], EntryOffset(st), x, 0, 0, end, e);
  }

  lemma Layout(name: string, attrs: string, kids: string, close: string)
    ensures name + attrs + ">" + kids + "</" + name + close
         == name + attrs + (">" + (kids + ("<" + ("/" + name + close))))
  {
    assert "</" + name + close == "<" + ("/" + name + close);
    Assoc(kids, "</" + name, close);
    Assoc(name + attrs, ">", kids + ("</" + name + close));
  }

  lemma Regrouped(kids: string, enc: string, tail: string, end: string)
    requires kids + "<" == enc + "<" + tail
    ensures ">" + (kids + ("<" + end)) == ">" + enc + ("<" + (tail + end))
  {
    Assoc(kids, "<", end);
    Assoc(enc + "<", tail, end);
    Assoc(enc, "<", tail + end);
    Assoc(">", enc, "<" + (tail + end));
  }

  /** The sub tags of x from the i-th on. */
  lemma {:induction false} KidsRun(base: seq<Kid>, off: nat, x: Xml, i: nat, start: nat, end: string, e: char)
    requires WellFormed(x) && i <= |x.kids| && KidsOk(x.kids[i..], |x.txt|, start) && GapEnd(x, i) <= |x.txt|
    ensures Run(Tail(x.kids[i..], x.txt, start) + end, e, Partial(base, off, x, i, GapEnd(x, i)))
         == Run(end, e, Partial(base, off, x, |x.kids|, |x.txt|))
    decreases x, 1, |x.kids| - i
  {
    var rest := x.kids[i..];
    if i == |x.kids| {
      assert Tail(rest, x.txt, start) + end == end;
    } else {
      hide Run, Partial, Tail, Encoded;
      NextKid(x, i);
      KidRuns(base, off, x, i, start, end, e);
      KidsRun(base, off, x, i + 1, x.kids[i].off, end, e);
    }
  }

  lemma NextKid(x: Xml, i: nat)
    requires WellFormed(x) && i < |x.kids|
    ensures WellFormed(x.kids[i].tag) && x.kids[i].off <= GapEnd(x, i + 1) <= |x.txt|
    ensures KidsOk(x.kids[i + 1..], |x.txt|, x.kids[i].off)
    ensures x.kids[i..][0] == x.kids[i] && x.kids[i..][1..] == x.kids[i + 1..]
    ensures Gap(x.kids[i + 1..], x.txt, x.kids[i].off) == x.txt[x.kids[i].off..GapEnd(x, i + 1)]
    ensures TextOk(x.txt[x.kids[i].off..GapEnd(x, i + 1)], false)
  {
    var rest, off := x.kids[i + 1..], x.kids[i].off;
    KidsOkAt(x.kids, |x.txt|, 0, i);
    if i + 1 < |x.kids| {
      KidsOkAt(rest, |x.txt|, off, 0);
    }
    TextOkSlice(x.txt, off, GapEnd(x, i + 1));
  }

  /** One sub tag and the content after it. */
  lemma KidRuns(base: seq<Kid>, off: nat, x: Xml, i: nat, start: nat, end: string, e: char)
    requires WellFormed(x) && i < |x.kids| && KidsOk(x.kids[i..], |x.txt|, start) && GapEnd(x, i) <= |x.txt|
    requires KidsOk(x.kids[i + 1..], |x.txt|, x.kids[i].off) && GapEnd(x, i + 1) <= |x.txt|
    ensures Run(Tail(x.kids[i..], x.txt, start) + end, e, Partial(base, off, x, i, GapEnd(x, i)))
         == Run(Tail(x.kids[i + 1..], x.txt, x.kids[i].off) + end, e, Partial(base, off, x, i + 1, GapEnd(x, i + 1)))
    decreases x, 0
  {
    hide Run, Encoded, WellFormed, AttrsText, KidsText, Gap, AddText, AddKid;
    var kid, next := x.kids[i], GapEnd(x, i + 1);
    NextKid(x, i);
    var gap, rest := x.txt[kid.off..next], Tail(x.kids[i + 1..], x.txt, kid.off);
    Assoc(TagText(kid.tag)[1..] + Encoded(gap, false) + "<", rest, end);
    TagRuns(kid.tag, Partial(base, off, x, i, kid.off), gap, rest + end, e);
    NextPartial(base, off, x, i);
  }

  lemma NextPartial(base: seq<Kid>, off: nat, x: Xml, i: nat)
    requires i < |x.kids| && x.kids[i].off <= GapEnd(x, i + 1) <= |x.txt|
    ensures AddText(AddKid(Partial(base, off, x, i, x.kids[i].off), x.kids[i].tag), x.txt[x.kids[i].off..GapEnd(x, i + 1)])
         == Partial(base, off, x, i + 1, GapEnd(x, i + 1))
  {
    var kid, next := x.kids[i], GapEnd(x, i + 1);
    assert x.txt[..kid.off] + x.txt[kid.off..next] == x.txt[..next];
    assert x.kids[..i] + [kid] == x.kids[..i + 1];
  }

  // ---------------------------------------------------------------- the document

  lemma {:induction false} AttrsNulFree(attrs: seq<Attribute>, i: nat)
    requires i <= |attrs| && AttrsOk(attrs)
    ensures NulFree(AttrsText(attrs, i))
    decreases |attrs| - i
  {
    if i < |attrs| {
      AttrsNulFree(attrs, i + 1);
      EncodedNulFree(attrs[i].value, true);
      assert AttrOkAt(attrs, i);
    }
  }

  lemma EncodedNulFree(s: string, attr: bool)
    ensures NulFree(Encoded(s, attr))
  {
    EncodedHasNoMarkup(s, attr);
    assert forall i :: 0 <= i < |Encoded(s, attr)| ==> Encoded(s, attr)[i] in Encoded(s, attr);
  }

  lemma {:induction false} TagNulFree(x: Xml)
    requires WellFormed(x)
    ensures NulFree(TagText(x))
    decreases x, 1
  {
    hide Encoded, AttrsText, KidsText, AttrsOk, KidsOk, TextOk;
    AttrsNulFree(x.attrs, 0);
    KidsNulFree(x, 0, 0);
    assert x.kids[0..] == x.kids;
    NameNulFree(x.name);
  }

  lemma NameNulFree(name: string)
    requires TagNameOk(name)
    ensures NulFree(name)
  {
  }

  lemma {:induction false} KidsNulFree(x: Xml, i: nat, start: nat)
    requires i <= |x.kids| && KidsOk(x.kids[i..], |x.txt|, start) && start <= |x.txt|
    ensures NulFree(KidsText(x.kids[i..], x.txt, start))
    decreases x, 0, |x.kids| - i
  {
    var rest := x.kids[i..];
    if i == |x.kids| {
      EncodedNulFree(x.txt[start..], false);
    } else {
      var kid := x.kids[i];
      assert rest[0] == kid && rest[1..] == x.kids[i + 1..];
      EncodedNulFree(Piece(x.txt, start, kid.off), false);
      TagNulFree(kid.tag);
      KidsNulFree(x, i + 1, kid.off);
    }
  }

  /** Parsing the printed form of any well-formed tree returns the same tree: names,
      attribute order and values, text, sub tag order and offsets. */
  lemma ParsePrint(x: Xml)
    requires WellFormed(x)
    ensures Parse(TagText(x)) == Ok(x)
  {
    hide *;
    TagNulFree(x);
    WholeTag(x);
    ParseStarts(BodyText(x));
    RootRuns(x);
  }

  lemma WholeTag(x: Xml)
    ensures TagText(x) == "<" + BodyText(x) + ">"
    ensures NulFree(TagText(x)) ==> NulFree("<" + BodyText(x))
  {
    hide AttrsText, KidsText;
    var body := "<" + BodyText(x);
    assert TagText(x) == body + ">";
    assert forall i :: 0 <= i < |body| ==> body[i] == TagText(x)[i];
  }

  lemma ParseStarts(text: string)
    requires NulFree("<" + text)
    ensures Parse("<" + text + ">") == Run(text, '>', Fresh)
  {
    hide Run;
    var doc := "<" + text + ">";
    assert doc[..|doc| - 1] == "<" + text && doc[|doc| - 1] == '>';
    assert ("<" + text)[1..] == text;
  }

  lemma RootRuns(x: Xml)
    requires WellFormed(x)
    ensures Run(BodyText(x), '>', Fresh) == Ok(x)
  {
    assert BodyText(x) + "" == BodyText(x) && "/" + x.name + "" == "/" + x.name;
    BodyRuns(x, Fresh, "", '>');
    CloseWhole(Fresh, x);
    EndTagRead(x.name, "", '>', Whole(Fresh, x));
  }
}

/** ezxml_parse_str: the scanning pointer and the tree under construction move along the
    document in loops; the tree module says what each document parses to. */
module XmlParser {
  import opened CString
  import opened XmlText
  import opened XmlTree
  import opened XmlRoundTrip

  function After(read: seq<Attribute>, l: AttrList): AttrList {
    match l
    case NoQuote => NoQuote
    case Attrs(attrs, rest) => Attrs(read + attrs, rest)
  }

  /** The loop over the attributes of a new tag. */
  method ReadAttributes(r: string) returns (l: AttrList)
    ensures l == ReadAttrs(r)
  {
    hide StrCspn, NameLength, ReadValue, PlainText, SkipSpace, Prepend;
    var attrs: seq<Attribute> := [];
    var s := r[SkipSpace(r)..];
    SkipTwice(r);
    EmptyPrefix(ReadAttrs(r));
    while s != "" && s[0] != '/' && s[0] != '>'
      invariant SkipSpace(s) == 0
      invariant After(attrs, ReadAttrs(s)) == ReadAttrs(r)
      decreases |s|
    {
      ghost var attrs0 := attrs;
      assert s[0..] == s && !IsSpace(s[0]);
      var n := NameLength(s);
      var name := s[..n];
      match ReadValue(s[n..]) {
        case BadQuote =>
          return NoQuote;
        case Unquoted(after) =>
          attrs := attrs + [Attribute(name, "")];
          s := after;
        case Value(v, rest) =>
          var value := DecodePlain(v, Attr);
          attrs := attrs + [Attribute(name, value)];
          s := rest;
      }
      PrefixStep(attrs0, attrs[|attrs| - 1], ReadAttrs(s));
      SkipTwice(s);
      s := s[SkipSpace(s)..];
    }
    assert s[0..] == s;
    assert attrs + [] == attrs;
    l := Attrs(attrs, s);
  }

  lemma SkipTwice(r: string)
    ensures SkipSpace(r[SkipSpace(r)..]) == 0
    ensures ReadAttrs(r[SkipSpace(r)..]) == ReadAttrs(r)
  {
    var s := r[SkipSpace(r)..];
    assert SkipSpace(s) == 0 && s[0..] == s;
  }

  lemma EmptyPrefix(l: AttrList)
    ensures After([], l) == l
  {
    if l.Attrs? {
      assert [] + l.attrs == l.attrs;
    }
  }

  lemma PrefixStep(read: seq<Attribute>, a: Attribute, l: AttrList)
    ensures After(read, Prepend(a, l)) == After(read + [a], l)
  {
    if l.Attrs? {
      assert read + ([a] + l.attrs) == read + [a] + l.attrs;
    }
  }

  method ReadNewTag(r: string, e: char, st: State) returns (m: Markup)
    requires Valid(st)
    ensures m == NewTag(r, e, st)
  {
    if st.Closed? {
      return Fail(MarkupOutsideRoot);
    }
    var n := StrCspn(r, WS + "/>");
    var name := r[..n];
    var l := ReadAttributes(r[n..]);
    if l.NoQuote? {
      return Fail(MissingQuote);
    }
    var rest := l.rest;
    if rest != "" && rest[0] == '/' {
      rest := rest[1..];
      if (rest != "" && rest[0] != '>') || (rest == "" && e != '>') {
        return Fail(MissingGt);
      }
      m := Go(CloseTag(OpenTag(st, name, l.attrs), name).value, rest);
    } else if rest != "" || e == '>' {
      m := Go(OpenTag(st, name, l.attrs), rest);
    } else {
      m := Fail(MissingGt);
    }
  }

  method AddContent(st: State, piece: string, t: Mode) returns (st': State)
    requires Valid(st)
    ensures st' == CharContent(st, piece, t)
  {
    if piece == "" {
      return st;
    }
    var text := DecodePlain(piece, t);
    st' := AddText(st, text);
  }

  method ParseMarkup(r: string, e: char, st: State) returns (m: Markup)
    requires Valid(st)
    ensures m == ReadMarkup(r, e, st)
  {
    if r != "" && NameStart(r[0]) {
      m := ReadNewTag(r, e, st);
    } else if r != "" && r[0] == '/' {
      m := EndTag(r, e, st);
    } else if "!--" <= r {
      m := Comment(r, e, st);
    } else if "![CDATA[" <= r {
      var k := StrStr(r, "]]>");
      if k > |r| {
        m := Fail(UnclosedCdata);
      } else {
        assert "]]>" <= r[k..];
        var st' := AddContent(st, if k < 8 then "" else r[8..k], Cdata);
        m := Go(st', r[k + 2..]);
      }
    } else if "!DOCTYPE" <= r || "?" <= r {
      m := Fail(NotModelled);
    } else {
      m := Fail(UnexpectedLt);
    }
  }

  lemma ParsesPrinted(doc: string)
    ensures forall x :: WellFormed(x) && doc == TagText(x) ==> Parse(doc) == Ok(x)
  {
    hide *;
    forall x | WellFormed(x) && doc == TagText(x)
      ensures Parse(doc) == Ok(x)
    {
      ParsePrint(x);
    }
  }

  /** The main loop of ezxml_parse_str, from the byte after a '<' on. */
  method ParseFrom(start: string, e: char) returns (result: Parsed)
    ensures result == Run(start, e, Fresh)
  {
    var cur, s := Fresh, start;
    while true
      invariant Valid(cur) && Run(s, e, cur) == Run(start, e, Fresh)
      decreases |s|
    {
      var m := ParseMarkup(s, e, cur);
      if m.Fail? {
        return Err(m.error);
      }
      cur := m.st;
      if |m.rest| < 2 {
        break;
      }
      var t := m.rest[1..];
      var i := StrCspn(t, "<");
      if i == |t| {
        break;
      }
      cur := AddContent(cur, t[..i], Text);
      s := t[i + 1..];
    }
    result := Finish(cur);
  }

  /** ezxml_parse_str: returns what the document parses to, and therefore every well-formed
      tree from its printed form. */
  method ParseStr(doc: string) returns (result: Parsed)
    ensures result == Parse(doc)
    ensures forall x :: WellFormed(x) && doc == TagText(x) ==> result == Ok(x)
  {
    hide Run, WellFormed, TagText, StrCspn;
    ParsesPrinted(doc);
    if doc == "" {
      return Err(RootTagMissing);
    }
    var s := CStr(doc[..|doc| - 1]);
    var first := StrCspn(s, "<");
    if first == |s| {
      return Err(RootTagMissing);
    }
    result := ParseFrom(s[first + 1..], doc[|doc| - 1]);
  }
}

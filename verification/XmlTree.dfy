/** The XML tree, its printed form (ezxml_toxml_r) and the parser (ezxml_parse_str). */
module XmlTree {
  import opened CString
  import opened XmlText

  datatype Attribute = Attribute(name: string, value: string)

  /** A tag: attributes in order, character content, and sub tags in order, each with its
      offset into the character content. */
  datatype Xml = Xml(name: string, attrs: seq<Attribute>, txt: string, kids: seq<Kid>)
  datatype Kid = Kid(off: nat, tag: Xml)

  // ---------------------------------------------------------------- printing

  /** ezxml_attr() finds the first attribute of a name, and only that one is printed. */
  predicate FirstOfName(attrs: seq<Attribute>, i: nat)
    requires i < |attrs|
  {
    forall j :: 0 <= j < i ==> attrs[j].name != attrs[i].name
  }

  function AttrText(a: Attribute): string {
    " " + a.name + "=\"" + Encoded(a.value, true) + "\""
  }

  function AttrsText(attrs: seq<Attribute>, i: nat): string
    requires i <= |attrs|
    decreases |attrs| - i
  {
    if i == |attrs| then ""
    else (if FirstOfName(attrs, i) then AttrText(attrs[i]) else "") + AttrsText(attrs, i + 1)
  }

  function Clip(off: nat, txt: string): (n: nat)
    ensures n <= |txt|
  {
    if off < |txt| then off else |txt|
  }

  /** ezxml_ampencode(txt + start, off - start): a negative length is a huge size_t. */
  function Piece(txt: string, start: nat, off: nat): string
    requires start <= |txt|
  {
    if off < start then txt[start..] else txt[start..Clip(off, txt)]
  }

  function TagText(x: Xml): string
    decreases x, 1
  {
    "<" + x.name + AttrsText(x.attrs, 0) + ">" + KidsText(x.kids, x.txt, 0) + "</" + x.name + ">"
  }

  /** The sub tags with the character content around them, from offset `start` on. */
  function KidsText(kids: seq<Kid>, txt: string, start: nat): string
    requires start <= |txt|
    decreases kids, 0
  {
    if kids == [] then Encoded(txt[start..], false)
    else
      Encoded(Piece(txt, start, kids[0].off), false) + KidText(kids[0])
      + KidsText(kids[1..], txt, Clip(kids[0].off, txt))
  }

  function KidText(kid: Kid): string
    decreases kid, 2
  {
    TagText(kid.tag)
  }

  // ---------------------------------------------------------------- parsing

  datatype ParseError =
    | RootTagMissing | MarkupOutsideRoot | MissingQuote | MissingGt | UnexpectedClosingTag
    | UnclosedComment | UnclosedCdata | UnexpectedLt | UnclosedTag | NotModelled

  datatype Parsed = Ok(root: Xml) | Err(error: ParseError)

  /** The tree under construction: before the root tag, inside the open tags (outermost
      first, each with its offset in its parent's text), or after the root tag. */
  datatype State = Fresh | Open(stack: seq<Kid>) | Closed(root: Xml)

  /** bool(isalpha(c) || c == '_' || c == ':' || c < '\0') for a signed char */
  predicate NameStart(c: char) {
    'a' <= c <= 'z' || 'A' <= c <= 'Z' || c == '_' || c == ':' || c as int >= 0x80
  }

  function OpenTag(st: State, name: string, attrs: seq<Attribute>): State
    requires st.Open? ==> st.stack != []
  {
    var tag := Xml(name, attrs, "", []);
    match st
    case Fresh => Open([Kid(0, tag)])
    case Open(stack) => Open(stack + [Kid(|stack[|stack| - 1].tag.txt|, tag)])
    case Closed(_) => st
  }

  function AddText(st: State, text: string): State
    requires st.Open? ==> st.stack != []
  {
    match st
    case Open(stack) =>
      var top := stack[|stack| - 1];
      Open(stack[..|stack| - 1] + [top.(tag := top.tag.(txt := top.tag.txt + text))])
    case _ => st
  }

  /** ezxml_close_tag: None is "unexpected closing tag". */
  datatype Option<T> = None | Some(value: T)

  function CloseTag(st: State, name: string): Option<State>
    requires st.Open? ==> st.stack != []
  {
    match st
    case Open(stack) =>
      var top := stack[|stack| - 1];
      if top.tag.name != name then None
      else if |stack| == 1 then Some(Closed(top.tag))
      else
        var up := stack[|stack| - 2];
        Some(Open(stack[..|stack| - 2] + [up.(tag := up.tag.(kids := up.tag.kids + [top]))]))
    case _ => None
  }

  predicate Valid(st: State) {
    st.Open? ==> st.stack != []
  }

  ghost function CharContent(st: State, piece: string, t: Mode): (st': State)
    requires Valid(st)
    ensures Valid(st')
  {
    if piece == "" then st else AddText(st, PlainText(piece, t))
  }

  /** Attributes read, and the text from the delimiter on. */
  datatype AttrList = Attrs(attrs: seq<Attribute>, rest: string) | NoQuote

  /** Value part of one attribute: r starts at the byte after the name. */
  datatype AttrValue = Value(value: string, rest: string) | Unquoted(after: string) | BadQuote

  function ReadValue(r: string): (v: AttrValue)
    ensures v.Value? ==> |v.rest| < |r|
    ensures v.Unquoted? ==> |v.after| <= |r| && (r != "" && (r[0] == '=' || IsSpace(r[0])) ==> |v.after| < |r|)
  {
    if r == "" || !(r[0] == '=' || IsSpace(r[0])) then Unquoted(r)
    else
      var r1 := r[1..];
      var r2 := r1[StrSpn(r1, WS + "=")..];
      if r2 == "" || !(r2[0] == '"' || r2[0] == '\'') then Unquoted(r2)
      else
        var n := StrCspn(r2[1..], [r2[0]]);
        if n == |r2[1..]| then BadQuote else Value(r2[1..][..n], r2[1..][n + 1..])
  }

  /** Length of the attribute name at the start of s. */
  function NameLength(s: string): (n: nat)
    requires s != "" && s[0] != '/' && s[0] != '>' && !IsSpace(s[0])
    ensures n <= |s| && (n == 0 ==> s[0] == '=')
  {
    hide StrCspn;
    DelimiterByte(s[0]);
    StrCspn(s, WS + "=/>")
  }

  /** The bytes that end an attribute name. */
  lemma DelimiterByte(c: char)
    ensures c in WS + "=/>" ==> c == '=' || c == '/' || c == '>' || IsSpace(c)
  {
  }

  /** The attribute loop of a new tag. */
  ghost function ReadAttrs(r: string): (l: AttrList)
    ensures l.Attrs? ==> |l.rest| <= |r|
    decreases |r|
  {
    hide *;
    var s := r[SkipSpace(r)..];
    if s == "" || s[0] == '/' || s[0] == '>' then Attrs([], s)
    else
      var n := NameLength(s);
      match ReadValue(s[n..])
      case BadQuote => NoQuote
      case Unquoted(after) => Prepend(Attribute(s[..n], ""), ReadAttrs(after))
      case Value(v, rest) =>
        Prepend(Attribute(s[..n], PlainText(v, Attr)), ReadAttrs(rest))
  }

  function Prepend(a: Attribute, l: AttrList): (p: AttrList)
    ensures p.Attrs? ==> l.Attrs? && p.rest == l.rest
  {
    match l
    case NoQuote => NoQuote
    case Attrs(attrs, rest) => Attrs([a] + attrs, rest)
  }

  /** One piece of markup: the new state and the text from the closing delimiter on. */
  datatype Markup = Fail(error: ParseError) | Go(st: State, rest: string)

  ghost function NewTag(r: string, e: char, st: State): (m: Markup)
    requires Valid(st)
    ensures m.Go? ==> |m.rest| <= |r| && Valid(m.st)
  {
    if st.Closed? then Fail(MarkupOutsideRoot)
    else
      var n := StrCspn(r, WS + "/>");
      match ReadAttrs(r[n..])
      case NoQuote => Fail(MissingQuote)
      case Attrs(attrs, rest) =>
        var inner := OpenTag(st, r[..n], attrs);
        if rest != "" && rest[0] == '/' then
          if (rest[1..] != "" && rest[1] != '>') || (rest[1..] == "" && e != '>') then Fail(MissingGt)
          else
            assert CloseTag(inner, r[..n]).Some?;
            Go(CloseTag(inner, r[..n]).value, rest[1..])
        else if rest != "" || e == '>' then Go(inner, rest)
        else Fail(MissingGt)
  }

  function EndTag(r: string, e: char, st: State): (m: Markup)
    requires Valid(st) && r != "" && r[0] == '/'
    ensures m.Go? ==> |m.rest| <= |r| && Valid(m.st)
  {
    var d := r[1..];
    var n := StrCspn(d, WS + ">");
    if n == |d| && e != '>' then Fail(MissingGt)
    else
      match CloseTag(st, d[..n])
      case None => Fail(UnexpectedClosingTag)
      case Some(closed) => Go(closed, d[n..][StrSpn(d[n..], WS)..])
  }

  function Comment(r: string, e: char, st: State): (m: Markup)
    requires Valid(st) && "!--" <= r
    ensures m.Go? ==> |m.rest| <= |r| && Valid(m.st)
  {
    var k := StrStr(r[3..], "--");
    if k > |r| - 3 then Fail(UnclosedComment)
    else
      assert "--" <= r[3..][k..];
      var rest := r[3 + k + 2..];
      if (rest != "" && rest[0] != '>') || (rest == "" && e != '>') then Fail(UnclosedComment) else Go(st, rest)
  }

  ghost function CdataSection(r: string, st: State): (m: Markup)
    requires Valid(st) && "![CDATA[" <= r
    ensures m.Go? ==> |m.rest| <= |r| && Valid(m.st)
  {
    var k := StrStr(r, "]]>");
    if k > |r| then Fail(UnclosedCdata)
    else
      assert "]]>" <= r[k..];
      Go(CharContent(st, if k < 8 then "" else r[8..k], Cdata), r[k + 2..])
  }

  /** r is the text after a '<'; e is the last byte of the document, which the parser
      replaced by a terminator. */
  ghost function ReadMarkup(r: string, e: char, st: State): (m: Markup)
    requires Valid(st)
    ensures m.Go? ==> |m.rest| <= |r| && Valid(m.st)
  {
    if r != "" && NameStart(r[0]) then NewTag(r, e, st)
    else if r != "" && r[0] == '/' then EndTag(r, e, st)
    else if "!--" <= r then Comment(r, e, st)
    else if "![CDATA[" <= r then CdataSection(r, st)
    else if "!DOCTYPE" <= r || "?" <= r then Fail(NotModelled)
    else Fail(UnexpectedLt)
  }

  function Finish(st: State): Parsed {
    match st
    case Closed(root) => Ok(root)
    case Fresh => Err(RootTagMissing)
    case Open(_) => Err(UnclosedTag)
  }

  /** Character content after the delimiter, up to the next '<'. */
  ghost function AfterMarkup(rest: string, e: char, st: State): Parsed
    requires Valid(st)
    decreases |rest|, 0
  {
    if |rest| < 2 then Finish(st)
    else
      var t := rest[1..];
      var i := StrCspn(t, "<");
      if i == |t| then Finish(st) else Run(t[i + 1..], e, CharContent(st, t[..i], Text))
  }

  /** The main loop, from the byte after a '<' on. */
  ghost function Run(r: string, e: char, st: State): Parsed
    requires Valid(st)
    decreases |r|, 1
  {
    match ReadMarkup(r, e, st)
    case Fail(error) => Err(error)
    case Go(st', rest) => AfterMarkup(rest, e, st')
  }

  /** ezxml_parse_str on a document that needs no UTF-16 conversion. */
  ghost function Parse(doc: string): Parsed {
    if doc == "" then Err(RootTagMissing)
    else
      var body := CStr(doc[..|doc| - 1]);
      var i := StrCspn(body, "<");
      if i == |body| then Err(RootTagMissing) else Run(body[i + 1..], doc[|doc| - 1], Fresh)
  }
}

/** Character data of the XML engine: ezxml_ampencode and ezxml_decode. */
module XmlText {
  import opened CString
  import opened Entities
  import Utf8

  /** The selector character of ezxml_decode: '&' for text, 'c' for CDATA sections, ' '
      for attribute values. */
  datatype Mode = Text | Cdata | Attr

  // ---------------------------------------------------------------- character references

  function DigitOf(c: char): nat {
    if '0' <= c <= '9' then c as nat - '0' as nat
    else if 'a' <= c <= 'z' then c as nat - 'a' as nat + 10
    else if 'A' <= c <= 'Z' then c as nat - 'A' as nat + 10
    else 99
  }

  function DigitRun(s: string, base: nat): (n: nat)
    ensures n <= |s|
    ensures forall i :: 0 <= i < n ==> DigitOf(s[i]) < base
    ensures n < |s| ==> DigitOf(s[n]) >= base
  {
    if s == "" || DigitOf(s[0]) >= base then 0 else 1 + DigitRun(s[1..], base)
  }

  function DigitsValue(s: string, base: nat): nat {
    if s == "" then 0 else DigitsValue(s[..|s| - 1], base) * base + DigitOf(s[|s| - 1])
  }

  const LONG_MAX: int := 0x7FFF_FFFF_FFFF_FFFF

  /** strtol() for base 10 or 16: value, clamped to a 64-bit long, and end index (0 when
      no digits were found). */
  function StrToL(s: string, base: nat): (r: (int, nat))
    ensures r.1 <= |s|
  {
    var i := SkipSpace(s);
    var neg := At(s, i) == '-';
    var j := if neg || At(s, i) == '+' then i + 1 else i;
    var k := if base == 16 && HexPrefix(s, j) then j + 2 else j;
    Number(s, k, base, neg)
  }

  function Number(s: string, k: nat, base: nat, neg: bool): (r: (int, nat))
    requires k <= |s|
    ensures r.1 <= |s|
  {
    var n := DigitRun(s[k..], base);
    if n == 0 then (0, 0) else (Clamped(DigitsValue(s[k..k + n], base), neg), k + n)
  }

  predicate HexPrefix(s: string, j: nat) {
    At(s, j) == '0' && At(s, j + 1) in "xX" && DigitOf(At(s, j + 2)) < 16
  }

  function Clamped(v: int, neg: bool): int {
    var signed := if neg then -v else v;
    if signed > LONG_MAX then LONG_MAX else if signed < -LONG_MAX - 1 then -LONG_MAX - 1 else signed
  }

  datatype CharRef = NotARef | Ref(value: int, end: nat)

  /** Reads the reference at the start of u, which begins with "&#": its value and the
      index of its ';'. */
  function ReadCharRef(u: string): (r: CharRef)
    requires "&#" <= u
    ensures r.Ref? ==> 2 <= r.end < |u| && u[r.end] == ';' && r.value != 0
  {
    hide StrToL;
    var from := if At(u, 2) == 'x' then 3 else 2;
    var (c, n) := StrToL(u[from..], if from == 3 then 16 else 10);
    if c == 0 || At(u, from + n) != ';' then NotARef else Ref(c, from + n)
  }

  function ToChars(bytes: seq<nat>): (s: string)
    requires forall i :: 0 <= i < |bytes| ==> bytes[i] < 256
    ensures |s| == |bytes| && forall i :: 0 <= i < |s| ==> s[i] as nat == bytes[i]
  {
    seq(|bytes|, i requires 0 <= i < |bytes| => bytes[i] as char)
  }

  /** The bytes stored for a reference value; a value below 0x80 is stored as one byte. */
  function CharBytes(c: int): string {
    if c < 0x80 then [(c % 256) as char] else ToChars(Utf8.Emit(c))
  }

  // ---------------------------------------------------------------- decoding

  /** Line ends: "\r\n" and "\r" become "\n". */
  function Normalized(s: string): string {
    if s == "" then ""
    else if s[0] != '\r' then [s[0]] + Normalized(s[1..])
    else if |s| > 1 && s[1] == '\n' then "\n" + Normalized(s[2..])
    else "\n" + Normalized(s[1..])
  }

  /** What one pass of the decoding loop emits, and the text it leaves to be scanned. */
  datatype Pass = Pass(out: string, rest: string)

  function DecodeStep(u: string, ents: Table, t: Mode): Pass
    requires u != ""
  {
    if t != Cdata && "&#" <= u then CharRefStep(u)
    else if t != Cdata && u[0] == '&' then EntityStep(u, ents)
    else if t == Attr && IsSpace(u[0]) then Pass(" ", u[1..])
    else Pass([u[0]], u[1..])
  }

  function CharRefStep(u: string): Pass
    requires "&#" <= u
  {
    var ref := ReadCharRef(u);
    Pass(if ref.NotARef? then "&" else CharBytes(ref.value), u[AfterCharRef(ref)..])
  }

  function AfterCharRef(ref: CharRef): nat {
    match ref
    case NotARef => 1
    case Ref(c, e) => e + 1
  }

  function EntityStep(u: string, ents: Table): Pass
    requires u != ""
  {
    var j := Match(ents, u[1..]);
    var e := StrCspn(u, ";");
    if j < |ents| && e < |u| then Pass("", ents[j].value + u[e + 1..]) else Pass("&", u[1..])
  }

  lemma FirstSemicolon(u: string, name: string)
    requires SimpleName(name) && |u| > 0 && u[0] == '&' && name <= u[1..]
    ensures StrCspn(u, ";") == |name|
  {
    assert u[|name|] == u[1..][|name| - 1] == name[|name| - 1] == ';';
    forall i | 0 <= i < |name|
      ensures u[i] != ';'
    {
      if i > 0 {
        assert u[i] == u[1..][i - 1] == name[i - 1] == name[..|name| - 1][i - 1];
      }
    }
  }

  /** A name at the start of the text brings a ';' with it. */
  lemma NameEndsIn(u: string, name: string)
    requires NameOk(name) && |u| > 0 && name <= u[1..]
    ensures StrCspn(u, ";") < |u|
  {
    assert u[|name|] == u[1..][|name| - 1] == name[|name| - 1] == ';';
  }

  lemma EntityStepIsLighter(u: string, ents: Table, w: seq<nat>)
    requires Weighted(ents, w) && SimpleNames(ents) && WholeTable(ents) && u != "" && u[0] == '&'
    ensures Cost(EntityStep(u, ents).rest, ents, w) < Cost(u, ents, w)
  {
    CostTail(u, ents, w);
    var j := Match(ents, u[1..]);
    if j < |ents| {
      FirstSemicolon(u, ents[j].name);
      assert Outweighs(ents, w, j);
      var rest := u[1 + |ents[j].name|..];
      CostConcat(ents[j].value, rest, ents, w);
      CostHead(u, ents, w);
      CostSuffix(u[1..], |ents[j].name|, ents, w);
      assert u[1..][|ents[j].name|..] == rest;
    }
  }

  lemma CharRefStepIsLighter(u: string, ents: Table, w: seq<nat>)
    requires Weighted(ents, w) && "&#" <= u
    ensures Cost(CharRefStep(u).rest, ents, w) < Cost(u, ents, w)
  {
    CostSuffix(u, AfterCharRef(ReadCharRef(u)), ents, w);
  }

  /** Each pass makes the remaining text lighter, although a reference may be replaced by
      a longer text that is scanned again. */
  lemma StepIsLighter(u: string, ents: Table, w: seq<nat>, t: Mode)
    requires Weighted(ents, w) && SimpleNames(ents) && WholeTable(ents) && u != ""
    ensures Cost(DecodeStep(u, ents, t).rest, ents, w) < Cost(u, ents, w)
  {
    CostTail(u, ents, w);
    if t != Cdata && "&#" <= u {
      CharRefStepIsLighter(u, ents, w);
    } else if t != Cdata && u[0] == '&' {
      EntityStepIsLighter(u, ents, w);
    }
  }

  /** The text that the decoding loop leaves behind. */
  ghost function Decoded(u: string, ents: Table, w: seq<nat>, t: Mode): string
    requires Weighted(ents, w) && SimpleNames(ents) && WholeTable(ents)
    decreases Cost(u, ents, w)
  {
    if u == "" then ""
    else
      StepIsLighter(u, ents, w, t);
      DecodeStep(u, ents, t).out + Decoded(DecodeStep(u, ents, t).rest, ents, w, t)
  }

  /** The whole of ezxml_decode, as a later reader of the C string sees it. */
  ghost function DecodedText(s: string, ents: Table, w: seq<nat>, t: Mode): string
    requires Weighted(ents, w) && SimpleNames(ents) && WholeTable(ents)
  {
    CStr(Decoded(Normalized(s), ents, w, t))
  }

  lemma CrStep(before: string, rest: string, goal: string)
    requires before + Normalized(rest) == goal && rest != "" && rest[0] == '\r'
    ensures (before + "\n") + Normalized(if |rest| > 1 && rest[1] == '\n' then rest[2..] else rest[1..]) == goal
  {
    var tail := if |rest| > 1 && rest[1] == '\n' then rest[2..] else rest[1..];
    assert Normalized(rest) == "\n" + Normalized(tail);
  }

  lemma OtherStep(before: string, rest: string, goal: string)
    requires before + Normalized(rest) == goal && rest != "" && rest[0] != '\r'
    ensures (before + [rest[0]]) + Normalized(rest[1..]) == goal
  {
    assert Normalized(rest) == [rest[0]] + Normalized(rest[1..]);
  }

  /** First loop of ezxml_decode: rewrites the buffer in place. */
  method NormalizeLines(text: string) returns (r: string)
    ensures r == Normalized(text)
  {
    r := text;
    var s: nat := 0;
    ghost var goal := Normalized(text);
    while s < |r|
      invariant s <= |r| && r[..s] + Normalized(r[s..]) == goal
      decreases |r| - s
    {
      r, s := NormalizeAt(r, s, goal);
    }
    assert r[..s] == r && r[s..] == "" && r + "" == r;
  }

  /** Its body: one byte, or a CR with the LF after it. */
  method NormalizeAt(text: string, at: nat, ghost goal: string) returns (r: string, s: nat)
    requires at < |text| && text[..at] + Normalized(text[at..]) == goal
    ensures s == at + 1 <= |r| <= |text| && r[..s] + Normalized(r[s..]) == goal
  {
    hide Normalized;
    r, s := text, at;
    ghost var before, rest := r[..s], r[s..];
    if r[s] == '\r' {
      CrStep(before, rest, goal);
      r := r[s := '\n'];
      s := s + 1;
      if s < |r| && r[s] == '\n' {
        assert rest[1] == '\n' && rest[2..] == r[s + 1..];
        r := r[..s] + r[s + 1..];
      }
      assert r[..s] == before + "\n";
      assert r[s..] == (if |rest| > 1 && rest[1] == '\n' then rest[2..] else rest[1..]);
    } else {
      OtherStep(before, rest, goal);
      s := s + 1;
      assert r[s..] == rest[1..] && r[..s] == before + [rest[0]];
    }
  }

  lemma SpliceAt(pre: string, out: string, rest: string, d: string)
    ensures var r, s := pre + out + rest, |pre| + |out|;
      r[..s] == pre + out && r[s..] == rest && pre + (out + d) == (pre + out) + d
  {}

  // ---------------------------------------------------------------- the passes of the loop

  /** The text still to be scanned after k passes, or after fewer when nothing is left. */
  function After(u: string, ents: Table, t: Mode, k: nat): string
    decreases k
  {
    if k == 0 || u == "" then u else After(DecodeStep(u, ents, t).rest, ents, t, k - 1)
  }

  /** What those passes have emitted. */
  function Emitted(u: string, ents: Table, t: Mode, k: nat): string
    decreases k
  {
    if k == 0 || u == "" then ""
    else DecodeStep(u, ents, t).out + Emitted(DecodeStep(u, ents, t).rest, ents, t, k - 1)
  }

  /** The loop comes to an end on u. */
  ghost predicate Terminates(u: string, ents: Table, t: Mode) {
    exists k: nat :: After(u, ents, t, k) == ""
  }

  /** With expansion weights and whole values it always does, and emits Decoded. */
  lemma DecodedInPasses(u: string, ents: Table, w: seq<nat>, t: Mode) returns (k: nat)
    requires Weighted(ents, w) && SimpleNames(ents) && WholeTable(ents)
    ensures After(u, ents, t, k) == "" && Emitted(u, ents, t, k) == Decoded(u, ents, w, t)
    decreases Cost(u, ents, w)
  {
    hide DecodeStep, Cost;
    if u == "" {
      k := 0;
    } else {
      StepIsLighter(u, ents, w, t);
      k := DecodedInPasses(DecodeStep(u, ents, t).rest, ents, w, t);
      k := k + 1;
    }
  }

  /** k passes away from the end, with `goal` as the text in the buffer then. */
  ghost predicate Means(r: string, s: nat, goal: string, ents: Table, t: Mode, k: nat) {
    s <= |r| && After(r[s..], ents, t, k) == "" && r[..s] + Emitted(r[s..], ents, t, k) == goal
  }

  /** One pass at index s: the emitted bytes stay behind the new index. */
  lemma PassKeepsMeaning(r: string, s: nat, goal: string, ents: Table, t: Mode, k: nat) returns (j: nat)
    requires s < |r| && Means(r, s, goal, ents, t, k)
    ensures var p := DecodeStep(r[s..], ents, t); Means(r[..s] + p.out + p.rest, s + |p.out|, goal, ents, t, j)
    ensures j < k
  {
    hide DecodeStep;
    j := k - 1;
    var p := DecodeStep(r[s..], ents, t);
    SpliceAt(r[..s], p.out, p.rest, Emitted(p.rest, ents, t, j));
  }

  /** ezxml_decode: scans with s, replaces references in place and rescans the replacement
      of an entity. All it needs is that the passes over this text come to an end. */
  method Decode(text: string, ents: Table, t: Mode, ghost passes: nat) returns (result: string)
    requires NamesOk(ents) && After(Normalized(text), ents, t, passes) == ""
    ensures result == CStr(Emitted(Normalized(text), ents, t, passes))
  {
    var r := NormalizeLines(text);
    ghost var goal, k := Emitted(r, ents, t, passes), passes;
    var s: nat := 0;
    assert r[0..] == r && r[..0] + goal == goal;
    while s < |r|
      invariant Means(r, s, goal, ents, t, k)
      decreases k
    {
      k := PassKeepsMeaning(r, s, goal, ents, t, k);
      r, s := RewriteAt(r, s, ents, t);
    }
    assert r[s..] == "" && r[..s] == r && r + "" == r;
    result := CStr(r);
  }

  /** Body of the decoding loop at a byte of the buffer: rewrites r[s..] and moves s. */
  method RewriteAt(r: string, s: nat, ents: Table, t: Mode) returns (r': string, s': nat)
    requires s < |r| && NamesOk(ents)
    ensures var p := DecodeStep(r[s..], ents, t); r' == r[..s] + p.out + p.rest && s' == s + |p.out|
  {
    if t != Cdata && r[s] == '&' && s + 1 < |r| && r[s + 1] == '#' {
      assert r[s..][..2] == "&#";
      r', s' := RewriteCharRef(r, s);
    } else if t != Cdata && r[s] == '&' {
      assert !("&#" <= r[s..]) by { assert |r[s..]| > 1 ==> r[s..][1] != '#'; }
      r', s' := RewriteEntity(r, s, ents);
    } else {
      r', s' := (if t == Attr && IsSpace(r[s]) then r[s := ' '] else r), s + 1;
      assert r' == r[..s] + [r'[s]] + r[s..][1..];
    }
  }

  method RewriteCharRef(r: string, s: nat) returns (r': string, s': nat)
    requires s < |r| && "&#" <= r[s..]
    ensures var p := CharRefStep(r[s..]); r' == r[..s] + p.out + p.rest && s' == s + |p.out|
  {
    hide ReadCharRef, CharBytes;
    match ReadCharRef(r[s..])
    case NotARef =>
      r', s' := r, s + 1;
      assert r[s..][0] == '&' && r == r[..s] + "&" + r[s..][1..];
    case Ref(c, e) =>
      r', s' := r[..s] + CharBytes(c) + r[s + e + 1..], s + |CharBytes(c)|;
      assert r[s + e + 1..] == r[s..][e + 1..];
  }

  method RewriteEntity(r: string, s: nat, ents: Table) returns (r': string, s': nat)
    requires s < |r| && r[s] == '&' && NamesOk(ents)
    ensures var p := EntityStep(r[s..], ents); r' == r[..s] + p.out + p.rest && s' == s + |p.out|
  {
    var b := FindEntity(ents, r[s..][1..]);
    if b < |ents| {
      NameEndsIn(r[s..], ents[b].name);
      var e := StrCspn(r[s..], ";");
      r', s' := r[..s] + ents[b].value + r[s + e + 1..], s;
      assert r[s + e + 1..] == r[s..][e + 1..];
    } else {
      r', s' := r, s + 1;
      assert r == r[..s] + "&" + r[s..][1..];
    }
  }

  // ---------------------------------------------------------------- encoding

  /** One byte of ezxml_ampencode; attr is its flag `a`. */
  function EncodeChar(c: char, attr: bool): string {
    if c == '&' then "&amp;"
    else if c == '<' then "&lt;"
    else if c == '>' then "&gt;"
    else if c == '"' then (if attr then "&quot;" else "\"")
    else if c == '\n' then (if attr then "&#xA;" else "\n")
    else if c == '\t' then (if attr then "&#x9;" else "\t")
    else if c == '\r' then "&#xD;"
    else [c]
  }

  /** Encoded text; a NUL ends it. */
  function Encoded(s: string, attr: bool): string {
    if s == "" || s[0] == '\0' then "" else EncodeChar(s[0], attr) + Encoded(s[1..], attr)
  }

  lemma EncodeCharHasNoMarkup(c: char, attr: bool)
    requires c != '\0'
    ensures forall d :: d in EncodeChar(c, attr) ==> d != '<' && d != '>' && d != '\r' && d != '\0' && (attr ==> d != '"')
  {
  }

  /** Encoded text holds no markup delimiter: no '<' or '>', in attributes no '"', and no
      raw carriage return. */
  lemma {:induction false} EncodedHasNoMarkup(s: string, attr: bool)
    ensures forall c :: c in Encoded(s, attr) ==> c != '<' && c != '>' && c != '\r' && c != '\0' && (attr ==> c != '"')
  {
    hide EncodeChar;
    if s != "" && s[0] != '\0' {
      EncodeCharHasNoMarkup(s[0], attr);
      EncodedHasNoMarkup(s[1..], attr);
    }
  }

  lemma {:induction false} NormalizedIdentity(s: string)
    requires '\r' !in s
    ensures Normalized(s) == s
  {
    if s != "" {
      NormalizedIdentity(s[1..]);
    }
  }

  // ---------------------------------------------------------------- decoding what was encoded

  function ModeOf(attr: bool): Mode {
    if attr then Attr else Text
  }

  /** Decoding with the predefined entities only. */
  ghost function Plain(u: string, attr: bool): string {
    PredefinedWeighted();
    Decoded(u, PREDEFINED, PREDEFINED_WEIGHTS, ModeOf(attr))
  }

  lemma PlainPass(u: string, attr: bool, p: Pass)
    requires u != "" && p == DecodeStep(u, PREDEFINED, ModeOf(attr))
    ensures Plain(u, attr) == p.out + Plain(p.rest, attr)
  {
    hide DecodeStep, Weighted, SimpleNames, WholeTable, Cost;
    PredefinedWeighted();
    StepIsLighter(u, PREDEFINED, PREDEFINED_WEIGHTS, ModeOf(attr));
  }

  predicate DigitsAt(s: string, k: nat, n: nat, base: nat) {
    k + n < |s| && n > 0 && s[k + n] == ';' && forall i :: k <= i < k + n ==> DigitOf(s[i]) < base
  }

  /** strtol() on digits that end at a ';'. */
  lemma NumberRead(s: string, n: nat, base: nat)
    requires base == 10 || base == 16
    requires DigitsAt(s, 0, n, base) && DigitsValue(s[..n], base) <= LONG_MAX
    ensures StrToL(s, base) == (DigitsValue(s[..n], base), n)
  {
    assert DigitOf(s[0]) < base;
    assert SkipSpace(s) == 0 && s[0] != '-' && s[0] != '+';
    assert s[1] == ';' || DigitOf(s[1]) < base;
    assert !HexPrefix(s, 0);
    assert s[0..] == s && DigitRun(s, base) == n;
    assert Number(s, 0, base, false) == (DigitsValue(s[..n], base), n);
  }

  /** A reference made of decimal digits, or of 'x' and hexadecimal digits. */
  lemma NumericReferenceRead(u: string, k: nat, n: nat)
    requires "&#" <= u && (k == 2 || (k == 3 && At(u, 2) == 'x'))
    requires var base := if k == 2 then 10 else 16;
      DigitsAt(u, k, n, base) && 0 < DigitsValue(u[k..k + n], base) <= LONG_MAX
    ensures ReadCharRef(u) == Ref(DigitsValue(u[k..k + n], if k == 2 then 10 else 16), k + n)
  {
    hide StrToL, DigitsValue;
    var s := u[k..];
    assert k == 2 ==> u[2] != 'x' by { assert k == 2 ==> DigitOf(u[2]) < 10; }
    hide DigitOf;
    assert s[..n] == u[k..k + n];
    NumberRead(s, n, if k == 2 then 10 else 16);
  }

  /** A numeric reference to an ASCII character decodes to it, in one pass. */
  lemma NumericReference(u: string, k: nat, n: nat, c: char, rest: string, attr: bool)
    requires "&#" <= u && (k == 2 || (k == 3 && At(u, 2) == 'x'))
    requires var base := if k == 2 then 10 else 16;
      DigitsAt(u, k, n, base) && DigitsValue(u[k..k + n], base) == c as int
    requires '\0' < c && c as int < 0x80 && u[k + n + 1..] == rest
    ensures Plain(u, attr) == [c] + Plain(rest, attr)
  {
    NumericReferenceStep(u, k, n, c);
    PlainPass(u, attr, Pass([c], rest));
  }

  lemma NumericReferenceStep(u: string, k: nat, n: nat, c: char)
    requires "&#" <= u && (k == 2 || (k == 3 && At(u, 2) == 'x'))
    requires var base := if k == 2 then 10 else 16;
      DigitsAt(u, k, n, base) && DigitsValue(u[k..k + n], base) == c as int
    requires '\0' < c && c as int < 0x80
    ensures CharRefStep(u) == Pass([c], u[k + n + 1..])
  {
    hide ReadCharRef, DigitsValue, DigitOf;
    NumericReferenceRead(u, k, n);
    assert CharBytes(c as int) == [c];
  }

  lemma PredefinedMatch(i: nat, rest: string)
    requires i < 5
    ensures Match(PREDEFINED, PREDEFINED[i].name + rest) == i
  {
    PredefinedNames();
    var text := PREDEFINED[i].name + rest;
    assert PREDEFINED[i].name <= text;
    var j := Match(PREDEFINED, text);
    PrefixNames(PREDEFINED[i].name, PREDEFINED[j].name, text);
    assert PREDEFINED[j].name[1] == PREDEFINED[i].name[1] && PREDEFINED[j].name[0] == PREDEFINED[i].name[0];
  }

  /** A reference to a predefined entity is replaced by its value, which is scanned again. */
  lemma PredefinedReference(i: nat, rest: string, attr: bool)
    requires i < 5
    ensures Plain("&" + PREDEFINED[i].name + rest, attr) == Plain(PREDEFINED[i].value + rest, attr)
  {
    var name := PREDEFINED[i].name;
    var u := "&" + name + rest;
    assert u[1..] == name + rest;
    PredefinedMatch(i, rest);
    PredefinedNames();
    FirstSemicolon(u, name);
    assert u[|name| + 1..] == rest;
    assert u[1] == name[0] != '#';
    assert EntityStep(u, PREDEFINED) == Pass("", PREDEFINED[i].value + rest);
    PlainPass(u, attr, Pass("", PREDEFINED[i].value + rest));
  }

  /** Bytes that survive encoding and decoding. */
  predicate Encodable(c: char, attr: bool) {
    c != '\0' && (attr ==> c != '\U{0B}' && c != '\U{0C}')
  }

  function Kept(c: char, attr: bool): char {
    if Encodable(c, attr) then c else ' '
  }

  lemma OneHexDigit(u: string, d: char, c: char, rest: string, attr: bool)
    requires u == ['&', '#', 'x', d, ';'] + rest && DigitOf(d) < 16 && '\0' < c && c as nat == DigitOf(d)
    ensures Plain(u, attr) == [c] + Plain(rest, attr)
  {
    assert u[..2] == "&#";
    assert u[3..4] == [d] && [d][..0] == "";
    NumericReference(u, 3, 1, c, rest, attr);
  }

  lemma TwoDigits(u: string, a: char, b: char, c: char, rest: string, attr: bool)
    requires u == ['&', '#', a, b, ';'] + rest && DigitOf(a) < 10 && DigitOf(b) < 10
    requires '\0' < c && c as nat == DigitOf(a) * 10 + DigitOf(b)
    ensures Plain(u, attr) == [c] + Plain(rest, attr)
  {
    assert u[..2] == "&#";
    assert u[2..4] == [a, b] && [a, b][..1] == [a] && [a][..0] == "";
    assert DigitsValue([a], 10) == DigitOf(a);
    NumericReference(u, 2, 2, c, rest, attr);
  }

  lemma DecodedChar(c: char, rest: string, attr: bool)
    requires c != '\0'
    ensures Plain(EncodeChar(c, attr) + rest, attr) == [Kept(c, attr)] + Plain(rest, attr)
  {
    var u := EncodeChar(c, attr) + rest;
    if c in "&<>" || (c == '"' && attr) {
      DecodedEntity(c, rest, attr);
    } else if c == '\n' && attr {
      OneHexDigit(u, 'A', c, rest, attr);
    } else if c == '\t' && attr {
      OneHexDigit(u, '9', c, rest, attr);
    } else if c == '\r' {
      OneHexDigit(u, 'D', c, rest, attr);
    } else {
      assert u[0] == c && u[1..] == rest;
      PlainPass(u, attr, Pass([Kept(c, attr)], rest));
    }
  }

  lemma DecodedEntity(c: char, rest: string, attr: bool)
    requires c in "&<>" || (c == '"' && attr)
    ensures Plain(EncodeChar(c, attr) + rest, attr) == [c] + Plain(rest, attr)
  {
    var i := if c == '<' then 0 else if c == '>' then 1 else if c == '"' then 2 else 4;
    var a := if c == '"' || c == '&' then '3' else '6';
    var b := if c == '<' then '0' else if c == '>' then '2' else if c == '"' then '4' else '8';
    assert EncodeChar(c, attr) == "&" + PREDEFINED[i].name;
    PredefinedReference(i, rest, attr);
    assert PREDEFINED[i].value == ['&', '#', a, b, ';'];
    TwoDigits(PREDEFINED[i].value + rest, a, b, c, rest, attr);
  }

  /** What is left of a text: the bytes before a NUL, with VT and FF of attributes as spaces. */
  function Survives(s: string, attr: bool): string {
    if s == "" || s[0] == '\0' then "" else [Kept(s[0], attr)] + Survives(s[1..], attr)
  }

  lemma {:induction false} SurvivesExactly(s: string, attr: bool)
    ensures Survives(s, attr) == s <==> forall i :: 0 <= i < |s| ==> Encodable(s[i], attr)
    ensures NulFree(Survives(s, attr))
  {
    if s != "" {
      SurvivesExactly(s[1..], attr);
      assert s == [s[0]] + s[1..];
      assert (forall i :: 0 <= i < |s| ==> Encodable(s[i], attr)) <==>
             Encodable(s[0], attr) && forall i :: 0 <= i < |s[1..]| ==> Encodable(s[1..][i], attr);
    }
  }

  lemma {:induction false} DecodeEncode(s: string, attr: bool)
    ensures Plain(Encoded(s, attr), attr) == Survives(s, attr)
  {
    if s != "" && s[0] != '\0' {
      DecodedChar(s[0], Encoded(s[1..], attr), attr);
      DecodeEncode(s[1..], attr);
    }
  }

  /** ezxml_decode with the predefined entities only. */
  ghost function PlainText(s: string, t: Mode): string {
    PredefinedWeighted();
    DecodedText(s, PREDEFINED, PREDEFINED_WEIGHTS, t)
  }

  /** ezxml_decode undoes ezxml_ampencode, line-end normalisation and terminator included,
      exactly on the NUL-free texts, in attributes those also free of VT and FF. */
  lemma DecodeUndoesEncode(s: string, attr: bool)
    ensures PlainText(Encoded(s, attr), ModeOf(attr)) == s <==>
            forall i :: 0 <= i < |s| ==> Encodable(s[i], attr)
  {
    EncodedHasNoMarkup(s, attr);
    NormalizedIdentity(Encoded(s, attr));
    DecodeEncode(s, attr);
    SurvivesExactly(s, attr);
  }

  method DecodePlain(s: string, t: Mode) returns (r: string)
    ensures r == PlainText(s, t)
  {
    PredefinedWeighted();
    ghost var k := DecodedInPasses(Normalized(s), PREDEFINED, PREDEFINED_WEIGHTS, t);
    r := Decode(s, PREDEFINED, t, k);
  }
}

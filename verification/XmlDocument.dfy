/** ezxml_parse_str on the bytes of a document: conversion from UTF-16 where a byte order mark
    asks for it, and parsing of what that leaves. */
module XmlDocument {
  import opened CString
  import opened Utf16
  import opened XmlText
  import opened XmlTree
  import opened XmlRoundTrip
  import XmlParser

  /** The first byte is taken for a byte order mark. */
  predicate Marked(s: seq<nat>) {
    s != [] && (s[0] == 0xFE || s[0] == 0xFF)
  }

  /** The text that is parsed. */
  function WorkText(s: seq<nat>): string
    requires Bytes(s)
  {
    ToChars(if Marked(s) then Converted(s, s[0] == 0xFE, 2) else s)
  }

  /** The conversion leaves no text exactly if not a single 16-bit unit follows the mark. The
      parser then goes on to the byte before the work area, since it has checked the length
      before the conversion. */
  lemma NothingConverted(s: seq<nat>)
    requires Bytes(s) && Marked(s)
    ensures WorkText(s) == "" <==> |s| < 4
  {
    hide Utf8.Emit, CharAt;
    if |s| >= 4 {
      var be := s[0] == 0xFE;
      assert Converted(s, be, 2) == Utf8.Emit(CharAt(s, be, 2).0) + Converted(s, be, CharAt(s, be, 2).1);
    }
  }

  /** A document that is just a byte order mark passes the length check. */
  lemma MarkAlone(be: bool)
    ensures Bytes(Mark(be)) && Marked(Mark(be)) && |Mark(be)| > 0 && WorkText(Mark(be)) == ""
  {
    NothingConverted(Mark(be));
  }

  /** ezxml_parse_str: the length check, the conversion, the parser. */
  method ParseBytes(s: seq<nat>) returns (result: Parsed)
    requires Bytes(s) && (Marked(s) ==> |s| >= 4)
    ensures result == Parse(WorkText(s)) && (s != [] ==> WorkText(s) != "")
  {
    if s == [] {
      return Err(RootTagMissing);
    }
    var u := Str2Utf8(s);
    if Marked(s) {
      NothingConverted(s);
    }
    result := XmlParser.ParseStr(ToChars(if u.Utf8Text? then u.text else s));
  }

  lemma Followed(be: bool, text: seq<nat>)
    requires Scalars(text)
    ensures var s := Mark(be) + Utf16Text(be, text); Bytes(s) && Marked(s) && (s[0] == 0xFE <==> be)
  {
    assert (Mark(be) + Utf16Text(be, text))[0] == Mark(be)[0];
  }

  /** In UTF-16, with either byte order and its mark, the printed form of a well-formed tree
      parses to that tree. */
  lemma Utf16RoundTrip(x: Xml, be: bool, text: seq<nat>)
    requires WellFormed(x) && Scalars(text) && ToChars(Utf8Bytes(text)) == TagText(x)
    ensures var s := Mark(be) + Utf16Text(be, text); Bytes(s) && Parse(WorkText(s)) == Ok(x)
  {
    hide Parse, WellFormed, TagText, Converted, Utf8Bytes, Utf16Text, Mark;
    Followed(be, text);
    ConvertsText(be, text);
    ParsePrint(x);
  }

  /** In UTF-8 it is parsed as it stands. */
  lemma Utf8RoundTrip(x: Xml, s: seq<nat>)
    requires WellFormed(x) && Bytes(s) && ToChars(s) == TagText(x)
    ensures !Marked(s) && Parse(WorkText(s)) == Ok(x)
  {
    hide Parse, WellFormed, AttrsText, KidsText;
    ParsePrint(x);
    assert TagText(x)[0] == '<' && ToChars(s)[0] as nat == s[0];
  }
}

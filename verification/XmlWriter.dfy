/** ezxml_toxml and ezxml_ampencode over their growing output buffer. */
module XmlWriter {
  import opened XmlText
  import opened XmlTree
  import opened CString

  lemma EncodedStep(s: string, i: nat, attr: bool)
    requires i < |s| && s[i] != '\0'
    ensures Encoded(s[i..], attr) == EncodeChar(s[i], attr) + Encoded(s[i + 1..], attr)
    ensures |EncodeChar(s[i], attr)| <= 6
  {
    assert s[i..][1..] == s[i + 1..];
  }

  lemma EncodedEnd(s: string, i: nat, attr: bool)
    requires i <= |s| && (i < |s| ==> s[i] == '\0')
    ensures Encoded(s[i..], attr) == ""
  {
  }

  /** The output string *s with its length *len; the buffer size *max is dst.Length. One
      byte is always left for the terminator. */
  class Writer {
    var dst: array<char>
    var len: nat

    ghost predicate Valid()
      reads this
    {
      len < dst.Length
    }

    ghost function Text(): string
      requires Valid()
      reads this, dst
    {
      dst[..len]
    }

    ghost function Room(): nat
      requires Valid()
      reads this
    {
      dst.Length - len
    }

    constructor ()
      ensures Valid() && fresh(dst) && Text() == "" && Room() == BUFSIZE
    {
      dst := new char[BUFSIZE];
      len := 0;
    }

    /** while (*len + need > *max) *s = realloc(*s, *max += EZXML_BUFSIZE) */
    method Reserve(need: nat)
      requires Valid()
      modifies this
      ensures Valid() && Text() == old(Text()) && len == old(len)
      ensures Room() >= need && Room() >= old(Room())
      ensures dst == old(dst) || fresh(dst)
    {
      while len + need > dst.Length
        invariant Valid() && Text() == old(Text()) && len == old(len) && Room() >= old(Room())
        invariant dst == old(dst) || fresh(dst)
        decreases len + need - dst.Length
      {
        var old_ := dst;
        var bigger := new char[dst.Length + BUFSIZE];
        forall i | 0 <= i < len {
          bigger[i] := old_[i];
        }
        dst := bigger;
      }
    }

    /** *len += sprintf(*s + *len, ...): the bytes of t and a terminator. */
    method Put(t: string)
      requires Valid() && |t| < Room()
      modifies this`len, dst
      ensures Valid() && Text() == old(Text()) + t && Room() == old(Room()) - |t|
    {
      forall i | 0 <= i < |t| {
        dst[len + i] := t[i];
      }
      dst[len + |t|] := '\0';
      len := len + |t|;
    }

    /** ezxml_ampencode(s, n, ...); a negative n means up to the terminator. */
    method AmpEncode(s: string, n: int, attr: bool)
      requires Valid()
      modifies this, dst
      ensures Valid() && Text() == old(Text()) + Encoded(if 0 <= n < |s| then s[..n] else s, attr)
      ensures Room() >= 4 || Room() >= old(Room())
      ensures dst == old(dst) || fresh(dst)
    {
      hide Encoded, EncodeChar;
      ghost var src := if 0 <= n < |s| then s[..n] else s;
      ghost var goal := Text() + Encoded(src, attr);
      var i := 0;
      while i != n && i < |s| && s[i] != '\0'
        invariant 0 <= i <= |src| && Valid()
        invariant Text() + Encoded(src[i..], attr) == goal
        invariant Room() >= 4 || Room() >= old(Room())
        invariant dst == old(dst) || fresh(dst)
        decreases |s| - i
      {
        EncodedStep(src, i, attr);
        Reserve(10);
        ghost var before := Text();
        Put(EncodeChar(s[i], attr));
        Assoc(before, EncodeChar(src[i], attr), Encoded(src[i + 1..], attr));
        i := i + 1;
      }
      EncodedEnd(src, i, attr);
      assert Text() + "" == Text();
    }
  
    /** Recursive ezxml_toxml_r: content, a sub tag, and then the tags `ordered` after it or
        the rest of the content. */
    method ToXmlR(kids: seq<Kid>, txt: string, start: nat)
      requires Valid() && kids != [] && start <= |txt|
      modifies this, dst
      ensures Valid() && Text() == old(Text()) + KidsText(kids, txt, start)
      ensures dst == old(dst) || fresh(dst)
      decreases kids, 0
    {
      ghost var t0 := Text();
      AmpEncode(txt[start..], kids[0].off - start, false);
      PieceIs(txt, start, kids[0].off);
      ghost var t1 := Text();
      PutKid(kids[0]);
      var off := Clip(kids[0].off, txt);
      if |kids| > 1 {
        ToXmlR(kids[1..], txt, off);
      } else {
        AmpEncode(txt[off..], -1, false);
      }
      ghost var piece := Encoded(Piece(txt, start, kids[0].off), false);
      Assoc(t0, piece, KidText(kids[0]));
      Assoc(t0, piece + KidText(kids[0]), KidsText(kids[1..], txt, off));
    }

    method PutKid(kid: Kid)
      requires Valid()
      modifies this, dst
      ensures Valid() && Text() == old(Text()) + KidText(kid)
      ensures dst == old(dst) || fresh(dst)
      decreases kid, 2
    {
      PutTag(kid.tag);
    }

    method PutTag(x: Xml)
      requires Valid()
      modifies this, dst
      ensures Valid() && Text() == old(Text()) + TagText(x)
      ensures dst == old(dst) || fresh(dst)
      decreases x, 1
    {
      hide AttrsText, KidsText, Encoded, Valid;
      ghost var t0 := Text();
      Reserve(|x.name| + 4);
      Put("<" + x.name);
      PutAttrs(x.attrs);
      Put(">");
      ghost var t1 := Text();
      if x.kids != [] {
        ToXmlR(x.kids, x.txt, 0);
      } else {
        NoKids(x.txt);
        AmpEncode(x.txt, -1, false);
      }
      Reserve(|x.name| + 4);
      Put("</" + x.name + ">");
      TagParts(t0, x.name, AttrsText(x.attrs, 0), KidsText(x.kids, x.txt, 0));
    }

    method PutAttrs(attrs: seq<Attribute>)
      requires Valid() && Room() >= 3
      modifies this, dst
      ensures Valid() && Text() == old(Text()) + AttrsText(attrs, 0) && Room() >= 3
      ensures dst == old(dst) || fresh(dst)
    {
      hide AttrsText, AttrText, Encoded, Valid, Room;
      ghost var goal := Text() + AttrsText(attrs, 0);
      var i := 0;
      while i < |attrs|
        invariant 0 <= i <= |attrs| && Valid() && Room() >= 3
        invariant Text() + AttrsText(attrs, i) == goal
        invariant dst == old(dst) || fresh(dst)
      {
        var j := 0;
        while attrs[j].name != attrs[i].name
          invariant 0 <= j <= i
          invariant forall k :: 0 <= k < j ==> attrs[k].name != attrs[i].name
          decreases i - j
        {
          j := j + 1;
        }
        AttrsStep(attrs, i);
        if j == i {
          ghost var before := Text();
          PutAttr(attrs[i]);
          Assoc(before, AttrText(attrs[i]), AttrsText(attrs, i + 1));
        } else {
          assert !FirstOfName(attrs, i);
        }
        i := i + 1;
      }
      AttrsEnd(attrs);
      assert Text() + "" == Text();
    }

    method PutAttr(a: Attribute)
      requires Valid()
      modifies this, dst
      ensures Valid() && Text() == old(Text()) + AttrText(a) && Room() >= 3
      ensures dst == old(dst) || fresh(dst)
    {
      ghost var t0 := Text();
      Reserve(|a.name| + 7);
      Put(" " + a.name + "=\"");
      AmpEncode(a.value, -1, true);
      Put("\"");
      AttrParts(t0, " " + a.name + "=\"", Encoded(a.value, true));
    }
  }

  lemma PieceIs(txt: string, start: nat, off: nat)
    requires start <= |txt|
    ensures var s, n := txt[start..], off - start;
      (if 0 <= n < |s| then s[..n] else s) == Piece(txt, start, off)
  {
  }

  lemma AttrsStep(attrs: seq<Attribute>, i: nat)
    requires i < |attrs|
    ensures AttrsText(attrs, i) ==
      if FirstOfName(attrs, i) then AttrText(attrs[i]) + AttrsText(attrs, i + 1) else AttrsText(attrs, i + 1)
  {
    hide AttrText;
    assert "" + AttrsText(attrs, i + 1) == AttrsText(attrs, i + 1);
  }

  lemma AttrsEnd(attrs: seq<Attribute>)
    ensures AttrsText(attrs, |attrs|) == ""
  {
  }

  lemma NoKids(txt: string)
    ensures KidsText([], txt, 0) == Encoded(txt, false)
  {
    assert txt[0..] == txt;
  }

  lemma AttrParts(t0: string, head: string, value: string)
    ensures t0 + head + value + "\"" == t0 + (head + value + "\"")
  {
  }

  lemma TagParts(t0: string, name: string, attrs: string, kids: string)
    ensures t0 + ("<" + name) + attrs + ">" + kids + ("</" + name + ">")
         == t0 + ("<" + name + attrs + ">" + kids + "</" + name + ">")
  {
    assert "<" + name + attrs + ">" + kids + "</" + name + ">" == "<" + name + attrs + ">" + kids + ("</" + name + ">");
    Assoc(t0, "<" + name, attrs);
    Assoc(t0, "<" + name + attrs, ">");
    Assoc(t0, "<" + name + attrs + ">", kids);
    Assoc(t0, "<" + name + attrs + ">" + kids, "</" + name + ">");
  }

  /** ezxml_toxml on a tree without processing instructions. */
  method ToXml(x: Xml) returns (s: string)
    ensures s == TagText(x)
  {
    var w := new Writer();
    w.ToXmlR([Kid(0, x)], "", 0);
    assert [Kid(0, x)][1..] == [] && KidsText([Kid(0, x)], "", 0) == TagText(x);
    s := w.dst[..w.len];
  }
}

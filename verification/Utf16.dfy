/** ezxml_str2utf8: UTF-16 input with a byte order mark becomes UTF-8. */
module Utf16 {
  import opened Arithmetic
  import opened Bits
  import opened Utf8
  import opened CString

  predicate Bytes(s: seq<nat>) {
    forall i :: 0 <= i < |s| ==> s[i] < 256
  }

  // ---------------------------------------------------------------- bit counts

  /** Bounds for the number of payload bytes. */
  lemma PayloadBits(c: nat)
    ensures BitCount(c) <= 7 <==> c < 0x80
    ensures BitCount(c) <= 11 <==> c < 0x800
    ensures BitCount(c) <= 16 <==> c < 0x1_0000
    ensures BitCount(c) <= 21 <==> c < 0x20_0000
  {
    BitsAtMost(c, 7);
    BitsAtMost(c, 11);
    BitsAtMost(c, 16);
    BitsAtMost(c, 21);
    assert Pow2(7) == 0x80 && Pow2(11) == 0x800;
    assert Pow2(16) == 0x1_0000;
    assert Pow2(21) == 0x20_0000;
  }

  // ---------------------------------------------------------------- the reference encoding

  /** Section 3 of RFC 3629. */
  function Rfc3629(c: nat): (s: seq<nat>)
    requires c < 0x11_0000
    ensures 1 <= |s| <= 4 && Bytes(s)
  {
    if c < 0x80 then [c]
    else if c < 0x800 then [0xC0 + c / 0x40, 0x80 + c % 0x40]
    else if c < 0x1_0000 then [0xE0 + c / 0x1000, 0x80 + c / 0x40 % 0x40, 0x80 + c % 0x40]
    else [0xF0 + c / 0x4_0000, 0x80 + c / 0x1000 % 0x40, 0x80 + c / 0x40 % 0x40, 0x80 + c % 0x40]
  }

  lemma Powers64()
    ensures Pow64(0) == 1 && Pow64(1) == 0x40 && Pow64(2) == 0x1000 && Pow64(3) == 0x4_0000
  {
    assert Pow64(3) == 64 * Pow64(2);
  }

  /** (bits - 2) / 5 is the right number of payload bytes for every code point, and the bytes
      written are those of the standard. */
  lemma EmitIsUtf8(c: nat)
    requires c < 0x11_0000
    ensures Emit(c) == Rfc3629(c)
  {
    if c >= 0x80 {
      hide HeadByte, Payload, PayloadLength;
      LengthOf(c);
      PayloadBytes(c);
      HeadBytes(c);
    }
  }

  lemma LengthOf(c: nat)
    requires 0x80 <= c < 0x11_0000
    ensures PayloadLength(c) == if c < 0x800 then 1 else if c < 0x1_0000 then 2 else 3
  {
    PayloadBits(c);
  }

  lemma PayloadBytes(c: nat)
    ensures Payload(c, 1) == [0x80 + c % 0x40]
    ensures Payload(c, 2) == [0x80 + c / 0x40 % 0x40, 0x80 + c % 0x40]
    ensures Payload(c, 3) == [0x80 + c / 0x1000 % 0x40, 0x80 + c / 0x40 % 0x40, 0x80 + c % 0x40]
  {
    hide PayloadByte;
    Powers64();
    assert Payload(c, 0) == [];
    assert Payload(c, 1) == [PayloadByte(Shifted(c, 0))] + Payload(c, 0);
    assert Payload(c, 2) == [PayloadByte(Shifted(c, 1))] + Payload(c, 1);
    assert Payload(c, 3) == [PayloadByte(Shifted(c, 2))] + Payload(c, 2);
  }

  lemma HeadBytes(c: nat)
    requires 0x80 <= c < 0x11_0000
    ensures HeadByte(c, PayloadLength(c)) ==
      if c < 0x800 then 0xC0 + c / 0x40 else if c < 0x1_0000 then 0xE0 + c / 0x1000 else 0xF0 + c / 0x4_0000
  {
    hide HeadByte, PayloadLength;
    LengthOf(c);
    Powers64();
    HeadBitsFit(c);
    assert Pow2(4) == 16 && Pow2(5) == 32 && Pow2(6) == 64;
  }

  // ---------------------------------------------------------------- the conversion

  /** ((high & 0xFF) << 8) | (low & 0xFF) */
  function Unit(high: nat, low: nat): (c: nat)
    requires high < 256 && low < 256
    ensures c == high * 256 + low && c < 0x1_0000
  {
    assert Pow2(8) == 256;
    OrAdds(high, 8, low);
    BitOr(high * 256, low)
  }

  /** The 16-bit unit at index i. */
  function UnitAt(s: seq<nat>, be: bool, i: nat): (c: nat)
    requires i + 1 < |s| && Bytes(s)
    ensures c < 0x1_0000
  {
    if be then Unit(s[i], s[i + 1]) else Unit(s[i + 1], s[i])
  }

  /** (((c & 0x3FF) << 10) | (d & 0x3FF)) + 0x10000 */
  function Pair(c: nat, d: nat): (r: nat)
    ensures r == c % 0x400 * 0x400 + d % 0x400 + 0x1_0000
  {
    hide BitOr, BitAnd;
    assert Pow2(10) == 0x400;
    AndMask(c, 10);
    AndMask(d, 10);
    OrAdds(c % 0x400, 10, d % 0x400);
    BitOr(BitAnd(c, 0x3FF) * 0x400, BitAnd(d, 0x3FF)) + 0x1_0000
  }

  predicate Surrogate(c: nat) {
    0xD800 <= c <= 0xDFFF
  }

  /** The character read at index i and the index after it. A surrogate takes the next unit
      with it, whatever that is; at the end of the input it stands alone. */
  function CharAt(s: seq<nat>, be: bool, i: nat): (r: (nat, nat))
    requires i + 1 < |s| && Bytes(s)
    ensures r.0 < 0x11_0000 && r.1 > i
  {
    var c := UnitAt(s, be, i);
    if !Surrogate(c) then (c, i + 2)
    else if i + 3 < |s| then (Pair(c, UnitAt(s, be, i + 2)), i + 4)
    else (c, i + 4)
  }

  /** The UTF-8 bytes for the input from index i on. */
  function Converted(s: seq<nat>, be: bool, i: nat): (r: seq<nat>)
    requires Bytes(s)
    ensures Bytes(r)
    decreases |s| - i
  {
    if i + 1 >= |s| then []
    else Emit(CharAt(s, be, i).0) + Converted(s, be, CharAt(s, be, i).1)
  }

  /** for (b = 0, d = c; d; d /= 2) b++ */
  method CountBits(c: nat) returns (b: nat)
    ensures b == BitCount(c)
  {
    b := 0;
    var d := c;
    while d > 0
      invariant b + BitCount(d) == BitCount(c)
    {
      d := d / 2;
      b := b + 1;
    }
  }

  /** while (b) u[l++] = 0x80 | ((c >> (6 * --b)) & 0x3F) */
  method PutPayload(u: array<nat>, l: nat, c: nat, count: nat) returns (end: nat)
    requires l + count <= u.Length
    modifies u
    ensures end == l + count && u[..end] == old(u[..l]) + Payload(c, count)
  {
    ghost var start, done := u[..l], [];
    var b: nat := count;
    end := l;
    while b > 0
      invariant b <= count && end == l + count - b && u[..end] == start + done && done + Payload(c, b) == Payload(c, count)
    {
      b := b - 1;
      ghost var byte := PayloadByte(Shifted(c, b));
      assert (done + [byte]) + Payload(c, b) == done + ([byte] + Payload(c, b));
      u[end] := PayloadByte(Shifted(c, b));
      done := done + [byte];
      end := end + 1;
    }
    assert done + [] == done;
  }

  /** Writes one character at u[l..], which has room for six bytes. */
  method PutChar(u: array<nat>, l: nat, c: nat) returns (end: nat)
    requires l + 6 <= u.Length && c < 0x11_0000
    modifies u
    ensures l <= end <= u.Length && u[..end] == old(u[..l]) + Emit(c)
  {
    ghost var start := u[..l];
    if c < 0x80 {
      u[l] := c;
      return l + 1;
    }
    var b := CountBits(c);
    PayloadBits(c);
    b := (b - 2) / 5;
    assert Emit(c) == [HeadByte(c, b)] + Payload(c, b);
    u[l] := HeadByte(c, b);
    assert u[..l + 1] == start + [HeadByte(c, b)];
    end := PutPayload(u, l + 1, c, b);
  }

  /** while (l + 6 > max) u = realloc(u, max += EZXML_BUFSIZE) */
  method MakeRoom(u: array<nat>, l: nat) returns (v: array<nat>)
    requires l <= u.Length
    ensures l + 6 <= v.Length && v[..l] == u[..l] && (v == u || fresh(v))
  {
    v := u;
    while l + 6 > v.Length
      invariant l <= v.Length && v[..l] == u[..l] && (v == u || fresh(v))
      decreases l + 6 - v.Length
    {
      var w := new nat[v.Length + BUFSIZE];
      for i := 0 to l
        invariant w[..i] == v[..i] && v[..l] == u[..l]
      {
        w[i] := v[i];
      }
      v := w;
    }
  }

  datatype Outcome = NotUtf16 | Utf8Text(text: seq<nat>)

  lemma ConvertStep(s: seq<nat>, be: bool, i: nat, done: seq<nat>, goal: seq<nat>)
    requires Bytes(s) && i + 1 < |s| && done + Converted(s, be, i) == goal
    ensures (done + Emit(CharAt(s, be, i).0)) + Converted(s, be, CharAt(s, be, i).1) == goal
  {
    hide Emit, CharAt;
    var e, rest := Emit(CharAt(s, be, i).0), Converted(s, be, CharAt(s, be, i).1);
    assert (done + e) + rest == done + (e + rest);
  }

  /** The body of the loop of ezxml_str2utf8. */
  method ConvertOne(s: seq<nat>, be: bool, i: nat, u: array<nat>, l: nat, ghost goal: seq<nat>)
    returns (j: nat, v: array<nat>, end: nat)
    requires Bytes(s) && i + 1 < |s| && l <= u.Length && u[..l] + Converted(s, be, i) == goal
    modifies u
    ensures j > i && end <= v.Length && (v == u || fresh(v)) && v[..end] + Converted(s, be, j) == goal
  {
    ConvertStep(s, be, i, u[..l], goal);
    var c: nat;
    c, j := CharAt(s, be, i).0, CharAt(s, be, i).1;
    v := MakeRoom(u, l);
    end := PutChar(v, l, c);
  }

  /** ezxml_str2utf8 */
  method Str2Utf8(s: seq<nat>) returns (r: Outcome)
    requires Bytes(s) && |s| > 0
    ensures r == if s[0] == 0xFE || s[0] == 0xFF then Utf8Text(Converted(s, s[0] == 0xFE, 2)) else NotUtf16
  {
    if s[0] != 0xFE && s[0] != 0xFF {
      return NotUtf16;
    }
    var be := s[0] == 0xFE;
    var u := new nat[|s|];
    var l: nat, i: nat := 0, 2;
    ghost var goal := Converted(s, be, 2);
    while i + 1 < |s|
      invariant l <= u.Length && fresh(u) && u[..l] + Converted(s, be, i) == goal
      decreases |s| - i
    {
      i, u, l := ConvertOne(s, be, i, u, l, goal);
    }
    assert u[..l] + [] == u[..l];
    return Utf8Text(u[..l]);
  }

  // ---------------------------------------------------------------- well-formed input

  predicate Scalar(c: nat) {
    c < 0x11_0000 && !Surrogate(c)
  }

  predicate Scalars(text: seq<nat>) {
    forall i :: 0 <= i < |text| ==> Scalar(text[i])
  }

  function UnitBytes(be: bool, c: nat): (s: seq<nat>)
    requires c < 0x1_0000
    ensures |s| == 2 && Bytes(s)
  {
    if be then [c / 256, c % 256] else [c % 256, c / 256]
  }

  /** Section 2.1 of RFC 2781. */
  function Rfc2781(be: bool, c: nat): (s: seq<nat>)
    requires Scalar(c)
    ensures Bytes(s) && |s| == if c < 0x1_0000 then 2 else 4
  {
    if c < 0x1_0000 then UnitBytes(be, c)
    else
      var u := c - 0x1_0000;
      UnitBytes(be, 0xD800 + u / 0x400) + UnitBytes(be, 0xDC00 + u % 0x400)
  }

  function Utf16Text(be: bool, text: seq<nat>): (s: seq<nat>)
    requires Scalars(text)
    ensures Bytes(s)
  {
    if text == [] then [] else Rfc2781(be, text[0]) + Utf16Text(be, text[1..])
  }

  function Utf8Bytes(text: seq<nat>): (s: seq<nat>)
    requires Scalars(text)
    ensures Bytes(s)
  {
    if text == [] then [] else Rfc3629(text[0]) + Utf8Bytes(text[1..])
  }

  function Mark(be: bool): (s: seq<nat>)
    ensures |s| == 2 && Bytes(s)
  {
    if be then [0xFE, 0xFF] else [0xFF, 0xFE]
  }

  /** The converter reads back the character encoded at index i. */
  lemma ReadsChar(s: seq<nat>, be: bool, c: nat, before: seq<nat>, after: seq<nat>)
    requires Scalar(c) && Bytes(s) && s == before + Rfc2781(be, c) + after
    ensures CharAt(s, be, |before|) == (c, |before| + |Rfc2781(be, c)|)
  {
    var i, e := |before|, Rfc2781(be, c);
    hide UnitAt, UnitBytes;
    if c < 0x1_0000 {
      ReadsUnit(s, be, c, before, after);
    } else {
      var u := c - 0x1_0000;
      var high, low := 0xD800 + u / 0x400, 0xDC00 + u % 0x400;
      var first := UnitBytes(be, high);
      assert s == before + first + (UnitBytes(be, low) + after) && s == (before + first) + UnitBytes(be, low) + after;
      ReadsUnit(s, be, high, before, UnitBytes(be, low) + after);
      ReadsUnit(s, be, low, before + first, after);
      ReadsPair(s, be, |before|, u);
    }
  }

  lemma ReadsPair(s: seq<nat>, be: bool, i: nat, u: nat)
    requires Bytes(s) && u < 0x10_0000 && i + 3 < |s|
    requires UnitAt(s, be, i) == 0xD800 + u / 0x400 && UnitAt(s, be, i + 2) == 0xDC00 + u % 0x400
    ensures CharAt(s, be, i) == (u + 0x1_0000, i + 4)
  {
    hide UnitAt, Pair;
    SurrogateBits(u);
  }

  lemma ReadsUnit(s: seq<nat>, be: bool, unit: nat, before: seq<nat>, after: seq<nat>)
    requires Bytes(s) && unit < 0x1_0000 && s == before + UnitBytes(be, unit) + after
    ensures |before| + 1 < |s| && UnitAt(s, be, |before|) == unit
  {
    hide Unit;
    assert s[|before|] == UnitBytes(be, unit)[0] && s[|before| + 1] == UnitBytes(be, unit)[1];
  }

  lemma SurrogateBits(u: nat)
    requires u < 0x10_0000
    ensures (0xD800 + u / 0x400) % 0x400 == u / 0x400 && (0xDC00 + u % 0x400) % 0x400 == u % 0x400
    ensures u / 0x400 * 0x400 + u % 0x400 == u
  {
  }

  lemma {:induction false} ConvertsFrom(s: seq<nat>, be: bool, before: seq<nat>, text: seq<nat>)
    requires Scalars(text) && Bytes(s) && s == before + Utf16Text(be, text)
    ensures Converted(s, be, |before|) == Utf8Bytes(text)
    decreases |text|
  {
    if text != [] {
      var c, rest := text[0], Utf16Text(be, text[1..]);
      var e := Rfc2781(be, c);
      assert s == before + e + rest;
      ReadsChar(s, be, c, before, rest);
      EmitIsUtf8(c);
      ConvertsFrom(s, be, before + e, text[1..]);
    }
  }

  /** Well-formed UTF-16 with either byte order mark becomes exactly the UTF-8 encoding of its
      code points. */
  lemma ConvertsText(be: bool, text: seq<nat>)
    requires Scalars(text)
    ensures Bytes(Mark(be) + Utf16Text(be, text))
    ensures Converted(Mark(be) + Utf16Text(be, text), be, 2) == Utf8Bytes(text)
  {
    ConvertsFrom(Mark(be) + Utf16Text(be, text), be, Mark(be), text);
  }

  /** Decodes UTF-8 by the first byte of each character; stops at a truncated one. */
  function Utf8Decoded(s: seq<nat>): seq<nat>
    requires Bytes(s)
  {
    if s == [] then []
    else if s[0] < 0x80 then [s[0]] + Utf8Decoded(s[1..])
    else if s[0] < 0xE0 then
      if |s| < 2 then [] else [s[0] % 0x20 * 0x40 + s[1] % 0x40] + Utf8Decoded(s[2..])
    else if s[0] < 0xF0 then
      if |s| < 3 then []
      else [s[0] % 0x10 * 0x1000 + s[1] % 0x40 * 0x40 + s[2] % 0x40] + Utf8Decoded(s[3..])
    else
      if |s| < 4 then []
      else [s[0] % 8 * 0x4_0000 + s[1] % 0x40 * 0x1000 + s[2] % 0x40 * 0x40 + s[3] % 0x40] + Utf8Decoded(s[4..])
  }

  lemma DecodesChar(s: seq<nat>, c: nat, rest: seq<nat>)
    requires Scalar(c) && Bytes(rest) && Bytes(s) && s == Rfc3629(c) + rest
    ensures Utf8Decoded(s) == [c] + Utf8Decoded(rest)
  {
    assert s[|Rfc3629(c)|..] == rest;
    if c < 0x80 {
    } else if c < 0x800 {
      DecodesTwo(s, c, rest);
    } else if c < 0x1_0000 {
      DecodesThree(s, c, rest);
    } else {
      DecodesFour(s, c, rest);
    }
  }

  lemma DecodesTwo(s: seq<nat>, c: nat, rest: seq<nat>)
    requires 0x80 <= c < 0x800 && Bytes(rest) && Bytes(s) && s == Rfc3629(c) + rest && s[2..] == rest
    ensures Utf8Decoded(s) == [c] + Utf8Decoded(rest)
  {
    assert s[0] == 0xC0 + c / 0x40 && s[1] == 0x80 + c % 0x40;
    assert s[0] % 0x20 == c / 0x40 && s[1] % 0x40 == c % 0x40;
  }

  lemma DecodesThree(s: seq<nat>, c: nat, rest: seq<nat>)
    requires 0x800 <= c < 0x1_0000 && Bytes(rest) && Bytes(s) && s == Rfc3629(c) + rest && s[3..] == rest
    ensures Utf8Decoded(s) == [c] + Utf8Decoded(rest)
  {
    var x, y, z := c / 0x1000, c / 0x40 % 0x40, c % 0x40;
    SixBits(c);
    assert s[0] == 0xE0 + x && s[1] == 0x80 + y && s[2] == 0x80 + z;
    hide Rfc3629;
    LowBitsOfThree(x, y, z);
  }

  lemma LowBitsOfThree(x: nat, y: nat, z: nat)
    requires x < 0x10 && y < 0x40 && z < 0x40
    ensures (0xE0 + x) % 0x10 == x && (0x80 + y) % 0x40 == y && (0x80 + z) % 0x40 == z
  {
  }

  lemma DecodesFour(s: seq<nat>, c: nat, rest: seq<nat>)
    requires 0x1_0000 <= c < 0x11_0000 && Bytes(rest) && Bytes(s) && s == Rfc3629(c) + rest && s[4..] == rest
    ensures Utf8Decoded(s) == [c] + Utf8Decoded(rest)
  {
    var w, x, y, z := c / 0x4_0000, c / 0x1000 % 0x40, c / 0x40 % 0x40, c % 0x40;
    SixBits(c);
    EighteenBits(c);
    assert s[0] == 0xF0 + w && s[1] == 0x80 + x && s[2] == 0x80 + y && s[3] == 0x80 + z;
    hide Rfc3629;
    LowBits(w, x, y, z);
  }

  lemma LowBits(w: nat, x: nat, y: nat, z: nat)
    requires w < 8 && x < 0x40 && y < 0x40 && z < 0x40
    ensures (0xF0 + w) % 8 == w && (0x80 + x) % 0x40 == x && (0x80 + y) % 0x40 == y && (0x80 + z) % 0x40 == z
  {
  }

  lemma SixBits(c: nat)
    ensures c == c / 0x1000 * 0x1000 + c / 0x40 % 0x40 * 0x40 + c % 0x40
  {
    var q := c / 0x40;
    assert q / 0x40 == c / 0x1000;
    assert q == q / 0x40 * 0x40 + q % 0x40;
  }

  lemma EighteenBits(c: nat)
    ensures c / 0x1000 == c / 0x4_0000 * 0x40 + c / 0x1000 % 0x40
  {
    var q := c / 0x1000;
    assert q / 0x40 == c / 0x4_0000;
  }

  /** The encoding can be decoded, so no text is lost or confused with another. */
  lemma {:induction false} DecodesText(text: seq<nat>)
    requires Scalars(text)
    ensures Utf8Decoded(Utf8Bytes(text)) == text
    decreases |text|
  {
    if text != [] {
      DecodesText(text[1..]);
      DecodesChar(Utf8Bytes(text), text[0], Utf8Bytes(text[1..]));
    }
  }

  /** Decoding what the converter makes of a text in either byte order gives the text back. */
  lemma ConversionRoundTrip(be: bool, text: seq<nat>)
    requires Scalars(text)
    ensures Bytes(Mark(be) + Utf16Text(be, text))
    ensures Utf8Decoded(Converted(Mark(be) + Utf16Text(be, text), be, 2)) == text
  {
    ConvertsText(be, text);
    DecodesText(text);
  }
}

/** The multi-byte branch shared by ezxml_decode and ezxml_str2utf8. */
module Utf8 {
  import opened Arithmetic
  import opened Bits

  function Pow64(n: nat): (p: nat)
    ensures p > 0
  {
    if n == 0 then 1 else 64 * Pow64(n - 1)
  }

  /** c >> (6 * b) */
  function Shifted(c: nat, b: nat): nat {
    hide Pow64;
    c / Pow64(b)
  }

  /** for (b = 0, d = c; d; d /= 2) b++ */
  function BitCount(c: nat): nat {
    if c == 0 then 0 else 1 + BitCount(c / 2)
  }

  lemma {:induction false} BitsAtMost(c: nat, k: nat)
    ensures BitCount(c) <= k <==> c < Pow2(k)
  {
    if c > 0 && k > 0 {
      BitsAtMost(c / 2, k - 1);
    }
  }

  /** The number of payload bytes of a multi-byte value. */
  function PayloadLength(c: nat): nat {
    if BitCount(c) < 2 then 0 else (BitCount(c) - 2) / 5
  }

  /** (0xFF << (7 - b)) | (c >> (6 * b)), truncated to a byte. A shift by a negative count
      (b > 7) is undefined in C. */
  function HeadByte(c: nat, b: nat): nat {
    hide BitOr;
    if b <= 7 then BitOr(0xFF * Pow2(7 - b), Shifted(c, b)) % 256 else 0xFF
  }

  /** 0x80 | (x & 0x3F) */
  function PayloadByte(x: nat): (r: nat)
    ensures r == 0x80 + x % 64 && 0x80 <= r < 0xC0
  {
    assert Pow2(6) == 64;
    AndMask(x, 6);
    OrAdds(2, 6, x % 64);
    BitOr(0x80, BitAnd(x, 0x3F))
  }

  /** while (b) *(s++) = 0x80 | ((c >> (6 * --b)) & 0x3F) */
  function Payload(c: nat, b: nat): (s: seq<nat>)
    ensures |s| == b
    ensures forall i :: 0 <= i < b ==> 0x80 <= s[i] < 0xC0
  {
    hide PayloadByte, Shifted;
    if b == 0 then [] else [PayloadByte(Shifted(c, b - 1))] + Payload(c, b - 1)
  }

  /** The bytes both routines write for a value c: one byte below 0x80, otherwise a head
      byte and (bits - 2) / 5 payload bytes. */
  function Emit(c: nat): (s: seq<nat>)
    ensures |s| >= 1
    ensures forall i :: 0 <= i < |s| ==> s[i] < 256
  {
    if c < 0x80 then [c] else [HeadByte(c, PayloadLength(c))] + Payload(c, PayloadLength(c))
  }

  lemma {:induction false} Pow64Is(b: nat)
    ensures Pow64(b) == Pow2(6 * b)
  {
    if b > 0 {
      Pow64Is(b - 1);
      Pow2Sum(6, 6 * (b - 1));
      assert Pow2(6) == 64;
    }
  }

  lemma QuotientBelow(c: nat, p: nat, q: nat)
    requires p > 0 && c < p * q
    ensures c / p < q
  {
    var d := c / p;
    assert c == p * d + c % p;
    if q <= d {
      FactorGrows(p, q, d);
    }
  }

  lemma FactorGrows(p: nat, q: nat, d: nat)
    requires q <= d
    ensures p * q <= p * d
  {
    assert p * d == p * q + p * (d - q);
  }

  /** The value bits of the head byte fit in the zero bits of its marker, for every value
      whose marker shift is defined: the `|` carries nothing over. */
  lemma HeadBitsFit(c: nat)
    requires PayloadLength(c) <= 7
    ensures var b := PayloadLength(c);
      Shifted(c, b) < Pow2(7 - b) && HeadByte(c, b) == (0xFF * Pow2(7 - b) + Shifted(c, b)) % 256
  {
    hide BitOr, Pow64, Pow2, BitCount;
    var b := PayloadLength(c);
    BitsAtMost(c, 6 * b + (7 - b));
    Pow64Is(b);
    Pow2Sum(6 * b, 7 - b);
    QuotientBelow(c, Pow64(b), Pow2(7 - b));
    OrAdds(0xFF, 7 - b, Shifted(c, b));
  }
}

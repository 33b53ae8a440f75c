/** Numbers with commas between groups of three digits, in buffers of limited size. */
module Comma {
  import opened Arithmetic

  predicate IsDigit(c: char) {
    '0' <= c <= '9'
  }

  predicate AllDigits(s: string) {
    forall i :: 0 <= i < |s| ==> IsDigit(s[i])
  }

  // ---------------------------------------------------------------- grouping

  /** The digits with a comma wherever a multiple of three of them remains. */
  function Grouped(s: string): string {
    if s == "" then ""
    else [s[0]] + (if |s| > 1 && (|s| - 1) % 3 == 0 then "," else "") + Grouped(s[1..])
  }

  /** Length of the prefix without digits, which is copied as it is. */
  function Lead(s: string): (n: nat)
    ensures n <= |s| && (forall i :: 0 <= i < n ==> !IsDigit(s[i])) && (n < |s| ==> IsDigit(s[n]))
  {
    if s == "" || IsDigit(s[0]) then 0 else 1 + Lead(s[1..])
  }

  /** The text workload_comma_string writes. */
  function CommaText(s: string): string {
    s[..Lead(s)] + Grouped(s[Lead(s)..])
  }

  /** s_require_buffer_size without the terminator */
  function Needed(n: nat): nat {
    n + if n > 0 then (n - 1) / 3 else 0
  }

  lemma {:induction false} GroupedLength(s: string)
    ensures |Grouped(s)| == Needed(|s|)
  {
    if s != "" {
      GroupedLength(s[1..]);
    }
  }

  /** The room asked for is always enough, and exact for digit strings. */
  lemma CommaTextFits(s: string)
    ensures |CommaText(s)| <= Needed(|s|)
    ensures AllDigits(s) ==> |CommaText(s)| == Needed(|s|) && CommaText(s) == Grouped(s)
  {
    GroupedLength(s[Lead(s)..]);
    if AllDigits(s) {
      assert s[0..] == s && s[..0] == "";
    }
  }

  /** Counted from the right, every fourth character is a comma and no other: groups of three. */
  lemma {:induction false} GroupsOfThree(s: string, k: nat)
    requires AllDigits(s) && k < |Grouped(s)|
    ensures Grouped(s)[|Grouped(s)| - 1 - k] == ',' <==> k % 4 == 3
  {
    GroupedLength(s);
    GroupedLength(s[1..]);
    if k < |Grouped(s[1..])| {
      GroupsOfThree(s[1..], k);
      assert Grouped(s)[|Grouped(s)| - 1 - k] == Grouped(s[1..])[|Grouped(s[1..])| - 1 - k];
    }
  }

  function WithoutCommas(s: string): string {
    if s == "" then "" else (if s[0] == ',' then "" else [s[0]]) + WithoutCommas(s[1..])
  }

  lemma WithoutCommasHead(s: string, c: char, comma: bool, rest: string)
    requires s == [c] + (if comma then "," else "") + rest && c != ','
    ensures WithoutCommas(s) == [c] + WithoutCommas(rest)
  {
    if comma {
      assert s[1..] == "," + rest && s[1..][1..] == rest;
    } else {
      assert s[1..] == rest;
    }
  }

  /** Deleting the commas undoes the grouping. */
  lemma {:induction false} GroupingUndone(s: string)
    requires AllDigits(s)
    ensures WithoutCommas(Grouped(s)) == s
  {
    if s != "" {
      GroupingUndone(s[1..]);
      WithoutCommasHead(Grouped(s), s[0], |s| > 1 && (|s| - 1) % 3 == 0, Grouped(s[1..]));
    }
  }

  lemma GroupStep(s: string, from: nat, done: string, text: string)
    requires from < |s| && done + Grouped(s[from..]) == text
    ensures var comma := |s| - (from + 1) > 0 && (|s| - (from + 1)) % 3 == 0;
      (done + [s[from]] + (if comma then "," else "")) + Grouped(s[from + 1..]) == text
  {
    assert s[from..][1..] == s[from + 1..];
    var comma := |s| - (from + 1) > 0 && (|s| - (from + 1)) % 3 == 0;
    var piece := if comma then "," else "";
    assert Grouped(s[from..]) == [s[from]] + piece + Grouped(s[from + 1..]);
    assert done + ([s[from]] + piece + Grouped(s[from + 1..])) == (done + [s[from]] + piece) + Grouped(s[from + 1..]);
  }

  /** The body of the second loop of workload_comma_string_private. */
  method PutDigit(buffer: array<char>, at: nat, s: string, from: nat, ghost text: string) returns (end: nat, next: nat)
    requires from < |s| && at <= buffer.Length && buffer[..at] + Grouped(s[from..]) == text && |text| < buffer.Length
    modifies buffer
    ensures next == from + 1 && end <= buffer.Length && buffer[..end] + Grouped(s[next..]) == text
  {
    ghost var done := buffer[..at];
    GroupStep(s, from, done, text);
    buffer[at] := s[from];
    end, next := at + 1, from + 1;
    assert buffer[..end] == done + [s[from]];
    if |s| - next > 0 && (|s| - next) % 3 == 0 {
      buffer[end] := ',';
      end := end + 1;
      assert buffer[..end] == done + [s[from]] + ",";
    } else {
      assert buffer[..end] == done + [s[from]] + "";
    }
  }

  /** workload_comma_string_private on a buffer with room for the text and its terminator. */
  method CommaStringPrivate(buffer: array<char>, s: string) returns (end: nat)
    requires Needed(|s|) < buffer.Length
    modifies buffer
    ensures end == |CommaText(s)| < buffer.Length && buffer[..end] == CommaText(s) && buffer[end] == '\0'
  {
    CommaTextFits(s);
    ghost var text := CommaText(s);
    var from: nat := 0;
    end := 0;
    while from < |s| && !IsDigit(s[from])
      invariant from == end <= Lead(s) && buffer[..end] == s[..from]
    {
      LeadReached(s, from);
      buffer[end] := s[from];
      end, from := end + 1, from + 1;
    }
    LeadReached(s, from);
    while from < |s|
      invariant from <= |s| && end <= buffer.Length && buffer[..end] + Grouped(s[from..]) == text
    {
      end, from := PutDigit(buffer, end, s, from, text);
    }
    assert s[from..] == "" && buffer[..end] + "" == buffer[..end];
    buffer[end] := '\0';
  }

  lemma {:induction false} LeadReached(s: string, from: nat)
    requires from <= Lead(s)
    ensures from < |s| && !IsDigit(s[from]) ==> from < Lead(s)
    ensures from == |s| || IsDigit(s[from]) ==> from == Lead(s)
  {
  }

  /** workload_comma_string: writes nothing when the size given for the buffer is too small. */
  method CommaString(buffer: array<char>, size: nat, s: string) returns (ok: bool, end: nat)
    requires Needed(|s|) + 1 <= size ==> Needed(|s|) < buffer.Length
    modifies buffer
    ensures ok <==> Needed(|s|) + 1 <= size
    ensures ok ==> end == |CommaText(s)| < size && end < buffer.Length && buffer[..end] == CommaText(s) && buffer[end] == '\0'
    ensures !ok ==> buffer[..] == old(buffer[..])
  {
    ok, end := true, 0;
    if size < Needed(|s|) + 1 {
      return false, 0;
    }
    CommaTextFits(s);
    end := CommaStringPrivate(buffer, s);
  }

  // ---------------------------------------------------------------- units

  /** sprintf("%llu") */
  function Decimal(n: nat): (s: string)
    ensures |s| >= 1 && AllDigits(s)
  {
    if n < 10 then [('0' as int + n) as char] else Decimal(n / 10) + [('0' as int + n % 10) as char]
  }

  lemma {:induction false} DecimalLength(n: nat, k: nat)
    requires k >= 1 && n < Power(10, k)
    ensures |Decimal(n)| <= k
  {
    if n >= 10 {
      assert Power(10, k) == 10 * Power(10, k - 1);
      DecimalLength(n / 10, k - 1);
    }
  }

  /** A 64-bit number has at most 20 digits; the temporary buffer holds 64. */
  lemma DecimalFits(n: nat)
    requires n < SIZES
    ensures |Decimal(n)| <= 20
  {
    assert Power(10, 4) == 10000;
    assert Power(10, 8) == 1_0000_0000;
    assert Power(10, 12) == 1_0000_0000_0000;
    assert Power(10, 16) == 1_0000_0000_0000_0000;
    assert Power(10, 20) == 1_0000_0000_0000_0000_0000;
    DecimalLength(n, 20);
  }

  /** cg_unit_table */
  const UNITS: string := "\0KMGTP"

  function UnitText(k: nat): string
    requires k < |UNITS|
  {
    if k == 0 then "" else [UNITS[k]]
  }

  /** The k-th try: the value in units of div^k, with its unit letter. */
  function Try(value: nat, div: nat, k: nat): string
    requires k < |UNITS| && (div > 0 || k == 0)
  {
    Grouped(Decimal(Scaled(value, div, k))) + UnitText(k)
  }

  /** floor(value / div^k) */
  function Scaled(value: nat, div: nat, k: nat): nat
    requires div > 0 || k == 0
  {
    if k == 0 then value else Scaled(value, div, k - 1) / div
  }

  lemma PowerPositive(b: nat, k: nat)
    requires b > 0
    ensures Power(b, k) > 0
  {
  }

  lemma {:induction false} ScaledIsFloor(value: nat, div: nat, k: nat)
    requires div > 0
    ensures Power(div, k) > 0 && Scaled(value, div, k) == value / Power(div, k)
  {
    PowerPositive(div, k);
    if k > 0 {
      ScaledIsFloor(value, div, k - 1);
      DivideTwice(value, Power(div, k - 1), div);
    }
  }

  lemma DivideTwice(a: nat, p: nat, d: nat)
    requires p > 0 && d > 0
    ensures d * p > 0 && a / p / d == a / (d * p)
  {
    var q, r := a / p, a % p;
    var t, u := q / d, q % d;
    Below(u, d, p, r);
    assert a == t * (d * p) + (u * p + r) by {
      Scale(t, d, u, p);
      assert q == t * d + u && a == q * p + r;
    }
    ModUnique(a, d * p, t, u * p + r);
  }

  lemma Scale(t: nat, d: nat, u: nat, p: nat)
    ensures (t * d + u) * p == t * (d * p) + u * p
  {
  }

  lemma Below(u: nat, d: nat, p: nat, r: nat)
    requires u < d && r < p
    ensures 0 <= u * p + r < d * p
  {
    assert d * p == u * p + (d - u) * p;
    TimesAtLeast(d - u, p);
  }

  /** size_t arithmetic wraps at 64 bits. */
  const SIZES: nat := 0x1_0000_0000_0000_0000

  /** The room beside the unit letter, as the k-th try computes it. */
  function Room(size: nat, k: nat): nat
    requires size < SIZES
  {
    (size + SIZES - if k > 0 then 1 else 0) % SIZES
  }

  /** The room is within the buffer exactly if the buffer is not empty or no unit letter is
      wanted; otherwise it wraps around and any number passes for short enough. */
  lemma RoomIsExact(size: nat, k: nat)
    requires size < SIZES
    ensures Room(size, k) <= size <==> size > 0 || k == 0
    ensures size == 0 && k > 0 ==> forall s: string :: |s| <= 20 ==> Needed(|s|) + 1 <= Room(size, k)
    ensures size > 0 || k == 0 ==> Room(size, k) == if k > 0 then size - 1 else size
  {
    var x := if k > 0 then 1 else 0;
    if size >= x {
      ModUnique(size + SIZES - x, SIZES, 1, size - x);
    } else {
      ModUnique(SIZES - 1, SIZES, 0, SIZES - 1);
    }
  }

  /** The k-th try passes for short enough. */
  predicate Fits(size: nat, value: nat, div: nat, k: nat)
    requires size < SIZES && k < |UNITS| && (div > 0 || k == 0)
  {
    |Grouped(Decimal(Scaled(value, div, k)))| + 1 <= Room(size, k)
  }

  /** In a buffer that is not empty that is so exactly if the text with its unit letter and the
      terminator fits; for an empty one exactly from the first unit letter on. */
  lemma FitsExactly(size: nat, value: nat, div: nat, k: nat)
    requires size < SIZES && value < SIZES && k < |UNITS| && (div > 0 || k == 0)
    ensures size > 0 ==> (Fits(size, value, div, k) <==> |Try(value, div, k)| + 1 <= size)
    ensures size == 0 ==> (Fits(size, value, div, k) <==> k > 0)
  {
    hide Grouped, Decimal, Scaled, Room;
    RoomIsExact(size, k);
    ScaledBelow(value, div, k);
    DecimalFits(Scaled(value, div, k));
    GroupedLength(Decimal(Scaled(value, div, k)));
  }

  lemma {:induction false} ScaledBelow(value: nat, div: nat, k: nat)
    requires div > 0 || k == 0
    ensures Scaled(value, div, k) <= value
  {
    if k > 0 {
      ScaledBelow(value, div, k - 1);
      QuotientAtMost(Scaled(value, div, k - 1), div);
    }
  }

  lemma QuotientAtMost(a: nat, d: nat)
    requires d > 0
    ensures a / d <= a
  {
    var q := a / d;
    assert a == d * q + a % d;
    TimesAtLeast(d, q);
  }

  /** workload_printable_comma_string: the least unit that passes. With an empty buffer and units
      wanted the second try always passes, and its text is written although there is no room;
      28 bytes are then enough. */
  method PrintableCommaString(buffer: array<char>, size: nat, value: nat, div: nat) returns (ok: bool, ghost k: nat)
    requires size <= buffer.Length && size < SIZES && value < SIZES && (size == 0 && div > 0 ==> buffer.Length >= 28)
    modifies buffer
    ensures ok ==> k < |UNITS| && (div > 0 || k == 0) && Fits(size, value, div, k)
    ensures ok ==> forall j :: 0 <= j < k ==> !Fits(size, value, div, j)
    ensures ok ==> |Try(value, div, k)| < buffer.Length
    ensures ok ==> buffer[..|Try(value, div, k)|] == Try(value, div, k) && buffer[|Try(value, div, k)|] == '\0'
    ensures !ok ==> !Fits(size, value, div, 0) && (div > 0 ==> forall j :: 0 <= j < |UNITS| ==> !Fits(size, value, div, j))
    ensures !ok ==> buffer[..] == old(buffer[..])
  {
    hide Fits, Try, Grouped, Decimal, Scaled, Needed, CommaText;
    var index: nat, v := 0, value;
    k := 0;
    FirstScaled(value, div);
    while index < |UNITS|
      invariant index <= |UNITS| && (index > 0 ==> div > 0) && (index < |UNITS| ==> v == Scaled(value, div, index))
      invariant forall j :: 0 <= j < index ==> !Fits(size, value, div, j)
      invariant buffer[..] == old(buffer[..])
    {
      var text := Decimal(v);
      var end: nat;
      TryFacts(size, value, div, index, text);
      ok, end := CommaString(buffer, Room(size, index), text);
      if ok {
        k := index;
        if index > 0 {
          buffer[end] := UNITS[index];
          buffer[end + 1] := '\0';
          assert buffer[..end + 1] == Grouped(text) + [UNITS[index]];
        }
        return true, k;
      }
      index := index + 1;
      if div == 0 {
        return false, k;
      }
      NextScaled(value, div, index);
      v := v / div;
    }
    ok := false;
  }

  /** What the k-th try writes, and that it stays within the memory. */
  lemma TryFacts(size: nat, value: nat, div: nat, k: nat, text: string)
    requires size < SIZES && value < SIZES && k < |UNITS| && (div > 0 || k == 0) && text == Decimal(Scaled(value, div, k))
    ensures Fits(size, value, div, k) <==> Needed(|text|) + 1 <= Room(size, k)
    ensures CommaText(text) == Grouped(text) && |Grouped(text)| == Needed(|text|) <= 26
    ensures Try(value, div, k) == if k == 0 then Grouped(text) else Grouped(text) + [UNITS[k]]
    ensures Room(size, k) == if k == 0 then size else if size > 0 then size - 1 else SIZES - 1
  {
    hide Grouped, Scaled, CommaText;
    RoomIs(size, k);
    ScaledBelow(value, div, k);
    DecimalFits(Scaled(value, div, k));
    CommaTextFits(text);
    assert Grouped(text) + "" == Grouped(text);
  }

  lemma RoomIs(size: nat, k: nat)
    requires size < SIZES
    ensures Room(size, k) == if k == 0 then size else if size > 0 then size - 1 else SIZES - 1
  {
    RoomIsExact(size, k);
    if size == 0 && k > 0 {
      ModUnique(SIZES - 1, SIZES, 0, SIZES - 1);
    }
  }

  lemma FirstScaled(value: nat, div: nat)
    ensures Scaled(value, div, 0) == value
  {
  }

  lemma NextScaled(value: nat, div: nat, k: nat)
    requires k > 0 && div > 0
    ensures Scaled(value, div, k) == Scaled(value, div, k - 1) / div
  {
  }
}

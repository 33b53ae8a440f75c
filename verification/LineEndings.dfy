/** The first loop of ezxml_decode on the whole buffer that a piece of text lies in: the piece
    comes out normalised in every case, but after a CR at its end the loop can go on behind
    the terminator. */
module LineEndings {
  import opened CString
  import opened XmlText

  /** The buffer and the index where the loop has stopped; or it ran past the buffer. */
  datatype Sweep = Stopped(buffer: string, at: nat) | PastEnd

  /** memmove(s, s + 1, strlen(s)) at index s: the rest up to its NUL, which stays, moves up. */
  function Closed(b: string, s: nat): (r: string)
    requires s < |b| && StrCspn(b[s..], "\0") < |b| - s
    ensures |r| == |b|
  {
    var t := b[s..];
    var n := StrCspn(t, "\0");
    b[..s] + t[1..n + 1] + t[n..]
  }

  /** A CR at index s becomes LF, and an LF behind it goes. */
  function Replaced(b: string, s: nat): (r: string)
    requires s < |b|
    ensures |r| == |b|
  {
    var c := b[s := '\n'];
    if s + 1 < |b| && c[s + 1] == '\n' && StrCspn(c[s + 1..], "\0") < |b| - s - 1 then Closed(c, s + 1) else c
  }

  /** The nested loops from index s on; `inner` inside the inner one, whose end skips a byte. */
  function Swept(b: string, s: nat, inner: bool): Sweep
    decreases |b| - s
  {
    if s >= |b| then PastEnd
    else if b[s] == '\r' then Swept(Replaced(b, s), s + 1, true)
    else if inner then Swept(b, s + 1, false)
    else if b[s] == '\0' then Stopped(b, s)
    else Swept(b, s + 1, false)
  }

  function Nuls(n: nat): (s: string)
    ensures |s| == n && forall i :: 0 <= i < n ==> s[i] == '\0'
  {
    seq(n, _ => '\0')
  }

  /** The text in a buffer: what is done, a piece, its NULs, and what lies behind them. */
  function Laid(done: string, piece: string, nuls: nat, behind: string): string {
    done + (piece + (Nuls(nuls) + behind))
  }

  lemma LaidAt(done: string, piece: string, nuls: nat, behind: string)
    requires nuls > 0
    ensures |done| < |Laid(done, piece, nuls, behind)|
    ensures Laid(done, piece, nuls, behind)[|done|] == At(piece, 0)
  {
  }

  /** One byte of the piece is done. */
  lemma LaidNext(done: string, piece: string, nuls: nat, behind: string)
    requires piece != ""
    ensures Laid(done, piece, nuls, behind) == Laid(done + [piece[0]], piece[1..], nuls, behind)
    ensures Laid(done, piece, nuls, behind)[|done| := '\n'] == Laid(done + "\n", piece[1..], nuls, behind)
  {
    var x := Nuls(nuls) + behind;
    assert piece + x == [piece[0]] + (piece[1..] + x);
  }

  lemma LaidClosed(done: string, piece: string, nuls: nat, behind: string)
    requires piece != "" && NulFree(piece) && nuls > 0
    ensures var b := Laid(done, piece, nuls, behind);
      StrCspn(b[|done|..], "\0") == |piece| < |b| - |done| &&
      Closed(b, |done|) == Laid(done, piece[1..], nuls + 1, behind)
  {
    var tail := piece + (Nuls(nuls) + behind);
    TailSplits(piece, nuls, behind);
    ClosedTail(done, tail, |piece|);
    assert Nuls(nuls + 1) == "\0" + Nuls(nuls);
    Assoc(done, piece[1..] + "\0", Nuls(nuls) + behind);
    Assoc(piece[1..], "\0", Nuls(nuls) + behind);
    Assoc("\0", Nuls(nuls), behind);
  }

  lemma TailSplits(piece: string, nuls: nat, behind: string)
    requires piece != "" && NulFree(piece) && nuls > 0
    ensures var tail, n := piece + (Nuls(nuls) + behind), |piece|;
      StrCspn(tail, "\0") == n < |tail| && tail[1..n + 1] == piece[1..] + "\0" && tail[n..] == Nuls(nuls) + behind
  {
    var tail, n := piece + (Nuls(nuls) + behind), |piece|;
    assert tail[n] == '\0' && forall i :: 0 <= i < n ==> tail[i] == piece[i];
  }

  lemma ClosedTail(done: string, tail: string, n: nat)
    requires tail != "" && StrCspn(tail, "\0") == n < |tail|
    ensures var b := done + tail; b[|done|..] == tail && Closed(b, |done|) == done + tail[1..n + 1] + tail[n..]
  {
    hide StrCspn;
    Parts(done, tail);
  }

  lemma Parts(done: string, tail: string)
    ensures (done + tail)[|done|..] == tail && (done + tail)[..|done|] == done
  {
  }

  /** A CR of the piece, with the LF after it if there is one. */
  function AfterCr(piece: string): string
    requires piece != ""
  {
    if |piece| > 1 && piece[1] == '\n' then piece[2..] else piece[1..]
  }

  lemma LaidReplaced(done: string, piece: string, nuls: nat, behind: string)
    requires piece != "" && NulFree(piece) && nuls > 0
    ensures Replaced(Laid(done, piece, nuls, behind), |done|) ==
      Laid(done + "\n", AfterCr(piece), nuls + |piece| - 1 - |AfterCr(piece)|, behind)
  {
    var b, d := Laid(done, piece, nuls, behind), |done|;
    var c := b[d := '\n'];
    LaidNext(done, piece, nuls, behind);
    LaidAt(done + "\n", piece[1..], nuls, behind);
    if |piece| > 1 && piece[1] == '\n' {
      LaidClosed(done + "\n", piece[1..], nuls, behind);
    }
  }

  /** Whether the inner loop is still at work behind the last byte of the piece. */
  predicate EndsInner(piece: string, inner: bool) {
    if piece == "" then inner
    else piece[|piece| - 1] == '\r' || (|piece| > 1 && piece[|piece| - 2] == '\r' && piece[|piece| - 1] == '\n')
  }

  lemma {:induction false} NormalizedShorter(piece: string)
    ensures |Normalized(piece)| <= |piece|
  {
    if piece != "" {
      if piece[0] == '\r' {
        NormalizedShorter(AfterCr(piece));
      } else {
        NormalizedShorter(piece[1..]);
      }
    }
  }

  lemma NormalizedCr(piece: string)
    requires piece != "" && piece[0] == '\r'
    ensures Normalized(piece) == "\n" + Normalized(AfterCr(piece))
  {
  }

  lemma EndsLater(piece: string)
    requires piece != ""
    ensures piece[0] == '\r' ==> EndsInner(piece, false) == EndsInner(AfterCr(piece), true)
    ensures piece[0] != '\r' ==> EndsInner(piece, false) == EndsInner(piece[1..], false)
  {
  }

  /** The buffer once the piece is done; every LF that went has left a NUL. */
  function Final(done: string, piece: string, nuls: nat, behind: string): string {
    NormalizedShorter(piece);
    Laid(done + Normalized(piece), "", nuls + |piece| - |Normalized(piece)|, behind)
  }

  /** From the start of the piece to its terminator, or one byte further from inside the inner
      loop. */
  lemma {:induction false} SweptPiece(done: string, piece: string, nuls: nat, behind: string, inner: bool)
    requires NulFree(piece) && nuls > 0
    ensures Swept(Laid(done, piece, nuls, behind), |done|, inner) ==
      Swept(Final(done, piece, nuls, behind), |done| + |Normalized(piece)|, EndsInner(piece, inner))
    decreases |piece|
  {
    hide EndsInner, Laid, Replaced, Normalized;
    var b := Laid(done, piece, nuls, behind);
    LaidAt(done, piece, nuls, behind);
    if piece == "" {
      NormalizedEnd();
      assert done + "" == done && EndsInner("", inner) == inner by { NothingEnds(inner); }
    } else {
      EndsLater(piece);
      EndsAnyway(piece, inner);
      LaidReplaced(done, piece, nuls, behind);
      LaidNext(done, piece, nuls, behind);
      assert piece[0] != '\0';
      if piece[0] == '\r' {
        NormalizedCr(piece);
        SweptPiece(done + "\n", AfterCr(piece), nuls + |piece| - 1 - |AfterCr(piece)|, behind, true);
        Assoc(done, "\n", Normalized(AfterCr(piece)));
      } else {
        NormalizedOther(piece);
        SweptPiece(done + [piece[0]], piece[1..], nuls, behind, false);
        Assoc(done, [piece[0]], Normalized(piece[1..]));
      }
    }
  }

  lemma NormalizedEnd()
    ensures Normalized("") == ""
  {
  }

  lemma NothingEnds(inner: bool)
    ensures EndsInner("", inner) == inner
  {
  }

  lemma EndsAnyway(piece: string, inner: bool)
    requires piece != ""
    ensures EndsInner(piece, inner) == EndsInner(piece, false)
  {
  }

  lemma NormalizedOther(piece: string)
    requires piece != "" && piece[0] != '\r'
    ensures Normalized(piece) == [piece[0]] + Normalized(piece[1..])
  {
  }

  /** The piece with its terminator, in front of other bytes of the same buffer. */
  function Buffer(piece: string, behind: string): string {
    piece + ("\0" + behind)
  }

  /** What the loop does to it if it stops at the end of the piece. */
  function Tidied(piece: string, behind: string): string {
    NormalizedShorter(piece);
    Normalized(piece) + (Nuls(1 + |piece| - |Normalized(piece)|) + behind)
  }

  lemma SweptBuffer(piece: string, behind: string)
    requires NulFree(piece)
    ensures Swept(Buffer(piece, behind), 0, false) ==
      Swept(Tidied(piece, behind), |Normalized(piece)|, EndsInner(piece, false))
  {
    hide Swept, Normalized, EndsInner;
    SweptPiece("", piece, 1, behind, false);
    assert Nuls(1) == "\0";
    assert Laid("", piece, 1, behind) == Buffer(piece, behind);
    assert "" + Normalized(piece) == Normalized(piece);
    assert Final("", piece, 1, behind) == Tidied(piece, behind);
  }

  predicate NoCrLf(piece: string) {
    forall i :: 0 <= i < |piece| - 1 ==> !(piece[i] == '\r' && piece[i + 1] == '\n')
  }

  /** Only a CR LF makes a piece shorter. */
  lemma {:induction false} ShrinksExactly(piece: string)
    ensures |Normalized(piece)| == |piece| <==> NoCrLf(piece)
  {
    if piece != "" {
      var rest := if piece[0] == '\r' then AfterCr(piece) else piece[1..];
      NormalizedShorter(rest);
      ShrinksExactly(rest);
      NoCrLfTail(piece);
    }
  }

  lemma NoCrLfTail(piece: string)
    requires piece != ""
    ensures NoCrLf(piece) <==> NoCrLf(piece[1..]) && !(|piece| > 1 && piece[0] == '\r' && piece[1] == '\n')
  {
    if NoCrLf(piece[1..]) && !NoCrLf(piece) {
      var i :| 0 <= i < |piece| - 1 && piece[i] == '\r' && piece[i + 1] == '\n';
      assert i > 0 ==> piece[1..][i - 1] == '\r' && piece[1..][i - 1 + 1] == '\n';
    }
    if NoCrLf(piece) {
      forall i | 0 <= i < |piece[1..]| - 1
        ensures !(piece[1..][i] == '\r' && piece[1..][i + 1] == '\n')
      {
        assert !(piece[i + 1] == '\r' && piece[i + 1 + 1] == '\n');
      }
    }
  }

  /** The loop runs on behind the terminator. */
  predicate RunsOn(piece: string) {
    piece != "" && piece[|piece| - 1] == '\r' && NoCrLf(piece)
  }

  /** The loop stops at the end of the piece, with the bytes behind it as they were, whatever
      they are, if and only if the piece does not end with a CR or holds a CR LF. */
  lemma StopsExactly(piece: string)
    requires NulFree(piece)
    ensures (forall behind :: Swept(Buffer(piece, behind), 0, false) ==
              Stopped(Tidied(piece, behind), |Normalized(piece)| + if EndsInner(piece, false) then 1 else 0))
            <==> !RunsOn(piece)
  {
    hide Normalized;
    if RunsOn(piece) {
      RunsInto(piece);
    } else {
      forall behind
        ensures Swept(Buffer(piece, behind), 0, false) ==
          Stopped(Tidied(piece, behind), |Normalized(piece)| + if EndsInner(piece, false) then 1 else 0)
      {
        SweptBuffer(piece, behind);
        Stops(piece, behind);
      }
    }
  }

  lemma Stops(piece: string, behind: string)
    requires NulFree(piece) && !RunsOn(piece)
    ensures Swept(Tidied(piece, behind), |Normalized(piece)|, EndsInner(piece, false)) ==
      Stopped(Tidied(piece, behind), |Normalized(piece)| + if EndsInner(piece, false) then 1 else 0)
  {
    hide Normalized;
    NormalizedShorter(piece);
    var b, n := Tidied(piece, behind), |Normalized(piece)|;
    var k := 1 + |piece| - n;
    assert b[n] == '\0';
    if EndsInner(piece, false) {
      ShrunkAtEnd(piece);
      assert k > 1 && b[n + 1] == '\0';
    }
  }

  /** A CR LF at the end has shrunk. */
  lemma {:induction false} ShrunkAtEnd(piece: string)
    requires EndsInner(piece, false) && !RunsOn(piece)
    ensures |Normalized(piece)| < |piece|
  {
    NormalizedShorter(piece);
    ShrinksExactly(piece);
    assert piece[|piece| - 1] == '\n' ==> piece[|piece| - 2] == '\r' && piece[|piece| - 2 + 1] == '\n';
  }

  /** Bytes that the loop reaches and changes. */
  lemma RunsInto(piece: string)
    requires NulFree(piece) && RunsOn(piece)
    ensures Swept(Buffer(piece, "\r\0\0"), 0, false) != Stopped(Tidied(piece, "\r\0\0"), |Normalized(piece)| + 1)
  {
    hide Normalized;
    ShrinksExactly(piece);
    var behind := "\r\0\0";
    SweptBuffer(piece, behind);
    var b, n := Tidied(piece, behind), |piece|;
    assert b == Normalized(piece) + ("\0" + behind);
    assert b[n] == '\0' && b[n + 1] == '\r' && b[n + 2] == '\0' && b[n + 3] == '\0' && |b| == n + 4;
    assert Swept(b, n, true) == Swept(b, n + 1, false) == Swept(Replaced(b, n + 1), n + 2, true);
    var c := Replaced(b, n + 1);
    assert c == b[n + 1 := '\n'] && c[n + 1] == '\n' != b[n + 1];
    assert Swept(c, n + 2, true) == Swept(c, n + 3, false) == Stopped(c, n + 3);
  }

  /** In every case the piece itself comes out normalised. */
  lemma PieceIsNormalized(piece: string, behind: string)
    requires NulFree(piece)
    ensures CStr(Tidied(piece, behind)) == Normalized(piece)
  {
    hide Normalized;
    NormalizedShorter(piece);
    NormalizedNulFree(piece);
    var b, n := Tidied(piece, behind), |Normalized(piece)|;
    assert b[n] == '\0' && b[..n] == Normalized(piece) && forall i :: 0 <= i < n ==> b[i] == Normalized(piece)[i];
    assert StrCspn(b, "\0") == n;
  }

  lemma {:induction false} NormalizedNulFree(piece: string)
    requires NulFree(piece)
    ensures NulFree(Normalized(piece))
  {
    if piece != "" {
      var rest := if piece[0] == '\r' then AfterCr(piece) else piece[1..];
      assert forall i :: 0 <= i < |rest| ==> rest[i] == piece[|piece| - |rest| + i];
      NormalizedNulFree(rest);
    }
  }

  // ---------------------------------------------------------------- the loop itself

  /** Without a NUL ahead the loop runs past the buffer. */
  lemma {:induction false} NoNulNoStop(b: string, s: nat, inner: bool)
    requires forall i :: s <= i < |b| ==> b[i] != '\0'
    ensures Swept(b, s, inner).PastEnd?
    decreases |b| - s
  {
    if s < |b| && b[s] == '\r' {
      var c := b[s := '\n'];
      if s + 1 < |b| {
        var n := StrCspn(c[s + 1..], "\0");
        assert n < |c[s + 1..]| ==> c[s + 1..][n] == b[s + 1 + n];
      }
      NoNulNoStop(Replaced(b, s), s + 1, true);
    } else if s < |b| {
      NoNulNoStop(b, s + 1, false);
    }
  }

  lemma HasNul(b: string, s: nat, inner: bool)
    requires Swept(b, s, inner).Stopped?
    ensures s < |b| && StrCspn(b[s..], "\0") < |b| - s
  {
    if s < |b| && StrCspn(b[s..], "\0") == |b| - s {
      forall i | s <= i < |b|
        ensures b[i] != '\0'
      {
        assert b[s..][i - s] == b[i];
      }
      NoNulNoStop(b, s, inner);
    }
  }

  method MoveDown(b: array<char>, s: nat, i: nat, ghost a: string)
    requires s + i + 1 < b.Length == |a| && b[s + i..] == a[s + i..]
    modifies b
    ensures b[..s + i] == old(b[..s + i]) && b[s + i] == a[s + i + 1] && b[s + i + 1..] == a[s + i + 1..]
  {
    assert b[s + i..][1] == a[s + i..][1] && b[s + i..][1..] == a[s + i..][1..];
    b[s + i] := b[s + i + 1];
  }

  /** memmove(s, s + 1, strlen(s)) */
  method CloseUp(b: array<char>, s: nat)
    requires s < b.Length && StrCspn(b[s..], "\0") < b.Length - s
    modifies b
    ensures b[..] == Closed(old(b[..]), s)
  {
    hide StrCspn;
    ghost var a := b[..];
    assert a[s..] == b[s..];
    var n := StrCspn(b[s..], "\0");
    for i := 0 to n
      invariant b[..s] == a[..s] && b[s..s + i] == a[s + 1..s + i + 1] && b[s + i..] == a[s + i..]
    {
      ghost var front := b[..s + i];
      assert front[s..] == b[s..s + i] && front[..s] == b[..s];
      assert b[s + i..][1] == a[s + i..][1];
      MoveDown(b, s, i, a);
      assert b[s..s + i + 1] == front[s..] + [a[s + i + 1]] && b[..s] == front[..s];
    }
    ghost var c := b[..];
    assert c[..s] == b[..s] && c[s..s + n] == b[s..s + n] && c[s + n..] == b[s + n..];
    ClosedParts(a, c, s, n);
  }

  lemma ClosedParts(a: string, c: string, s: nat, n: nat)
    requires s + n < |a| == |c| && StrCspn(a[s..], "\0") == n
    requires c[..s] == a[..s] && c[s..s + n] == a[s + 1..s + n + 1] && c[s + n..] == a[s + n..]
    ensures c == Closed(a, s)
  {
    hide StrCspn;
    assert c == c[..s] + c[s..s + n] + c[s + n..];
    assert a[s..][1..n + 1] == a[s + 1..s + n + 1] && a[s..][n..] == a[s + n..];
  }

  /** Body of the inner loop. */
  method ReplaceCr(b: array<char>, s: nat)
    requires s < b.Length && b[s] == '\r' && Swept(Replaced(b[..], s), s + 1, true).Stopped?
    modifies b
    ensures b[..] == Replaced(old(b[..]), s)
  {
    ghost var a := b[..];
    b[s] := '\n';
    assert b[..] == a[s := '\n'];
    HasNul(Replaced(a, s), s + 1, true);
    if b[s + 1] == '\n' {
      CloseUp(b, s + 1);
    }
  }

  /** for (; *s; s++) while (*s == '\r') { ... } on a buffer in which it stops. */
  method SweepLines(b: array<char>) returns (s: nat)
    requires Swept(b[..], 0, false).Stopped?
    modifies b
    ensures Swept(old(b[..]), 0, false) == Stopped(b[..], s)
  {
    hide Replaced;
    ghost var goal := Swept(b[..], 0, false);
    s := 0;
    while b[s] != '\0'
      invariant s < b.Length && Swept(b[..], s, false) == goal
      decreases b.Length - s
    {
      ghost var inner := false;
      while b[s] == '\r'
        invariant s < b.Length && Swept(b[..], s, inner) == goal
        invariant !inner ==> b[s] != '\0'
        decreases b.Length - s
      {
        ReplaceCr(b, s);
        s, inner := s + 1, true;
      }
      s := s + 1;
    }
  }
}

/** C strings as the program reads them: a `string` holds the bytes before the
    terminating NUL, one `char` (code 0..255) per byte. */
module CString {

  /** EZXML_WS */
  const WS: string := "\t\r\n "

  /** EZXML_BUFSIZE: what a full output buffer grows by. */
  const BUFSIZE: nat := 1024

  lemma Assoc(a: string, b: string, c: string)
    ensures a + b + c == a + (b + c)
  {
  }

  /** isspace() in the C locale */
  predicate IsSpace(c: char) {
    c == ' ' || '\t' <= c <= '\r'
  }

  predicate NulFree(s: string) {
    forall i :: 0 <= i < |s| ==> s[i] != '\0'
  }

  /** The byte at index i, the terminator included. */
  function At(s: string, i: nat): char {
    if i < |s| then s[i] else '\0'
  }

  /** strcspn(): length of the longest prefix free of the bytes in `reject`. */
  function StrCspn(s: string, reject: string): (n: nat)
    ensures n <= |s|
    ensures forall i :: 0 <= i < n ==> s[i] !in reject
    ensures n < |s| ==> s[n] in reject
  {
    if s == "" || s[0] in reject then 0 else 1 + StrCspn(s[1..], reject)
  }

  /** strspn(): length of the longest prefix made of the bytes in `accept`. */
  function StrSpn(s: string, accept: string): (n: nat)
    ensures n <= |s|
    ensures forall i :: 0 <= i < n ==> s[i] in accept
    ensures n < |s| ==> s[n] !in accept
  {
    if s == "" || s[0] !in accept then 0 else 1 + StrSpn(s[1..], accept)
  }

  /** while (isspace(*s)) s++ */
  function SkipSpace(s: string): (n: nat)
    ensures n <= |s|
    ensures forall i :: 0 <= i < n ==> IsSpace(s[i])
    ensures n < |s| ==> !IsSpace(s[n])
  {
    if s == "" || !IsSpace(s[0]) then 0 else 1 + SkipSpace(s[1..])
  }

  /** strstr(): index of the first occurrence of `pat`, |s| + 1 when there is none. */
  function StrStr(s: string, pat: string): (n: nat)
    ensures n <= |s| + 1
    ensures n <= |s| ==> pat <= s[n..]
    ensures forall i :: 0 <= i < n && i <= |s| ==> !(pat <= s[i..])
  {
    if pat <= s then 0
    else if s == "" then 1
    else
      var n := StrStr(s[1..], pat);
      assert forall i :: 1 <= i <= |s| ==> s[i..] == s[1..][i - 1..];
      1 + n
  }

  /** What a reader of the buffer sees: the bytes before the first NUL. */
  function CStr(s: string): (r: string)
    ensures NulFree(r)
    ensures NulFree(s) ==> r == s
  {
    s[..StrCspn(s, "\0")]
  }
}

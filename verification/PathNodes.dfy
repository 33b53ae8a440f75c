/** Path strings as lists of components: splitting, marking components to ignore, printing. */
module PathNodes {
  import opened CString

  // ---------------------------------------------------------------- marking

  /** Index of the last component before k that is not ignored, |ignored| if there is none. */
  function LastKept(ignored: seq<bool>, k: nat): (i: nat)
    requires k <= |ignored|
    ensures (i < k && !ignored[i]) || i == |ignored|
    ensures forall j :: 0 <= j < k && (i < j || i == |ignored|) ==> ignored[j]
  {
    if k == 0 then |ignored| else if !ignored[k - 1] then k - 1 else LastKept(ignored, k - 1)
  }

  /** workload_check_ignore_path_node for component k. */
  function MarkStep(names: seq<string>, ignored: seq<bool>, k: nat): (r: seq<bool>)
    requires k < |names| == |ignored|
    ensures |r| == |names|
  {
    if names[k] == "" then (if k > 0 then ignored[k := true] else ignored)
    else if names[k] == ".." then
      var i := LastKept(ignored, k);
      if i < k && names[i] != "" then ignored[k := true][i := true] else ignored[k := true]
    else if names[k] == "." then ignored[k := true]
    else ignored
  }

  function Unmarked(n: nat): (r: seq<bool>)
    ensures |r| == n && forall i :: 0 <= i < n ==> !r[i]
  {
    seq(n, _ => false)
  }

  /** The flags after the first k components have been checked in order. */
  function Marks(names: seq<string>, k: nat): (r: seq<bool>)
    requires k <= |names|
    ensures |r| == |names| && forall i :: k <= i < |r| ==> !r[i]
  {
    if k == 0 then Unmarked(|names|) else MarkStep(names, Marks(names, k - 1), k - 1)
  }

  /** The components before k that are not ignored. */
  function Kept(names: seq<string>, ignored: seq<bool>, k: nat): (r: seq<string>)
    requires k <= |names| == |ignored|
  {
    if k == 0 then []
    else Kept(names, ignored, k - 1) + if ignored[k - 1] then [] else [names[k - 1]]
  }

  // ---------------------------------------------------------------- the meaning of a path

  /** What one component does to the components resolved so far: an empty one counts only at
      the start (the root), ".." leaves the last directory but never the root, "." stays. */
  function Walk(stack: seq<string>, name: string, first: bool): seq<string> {
    if name == "" then (if first then stack + [name] else stack)
    else if name == ".." then
      (if stack != [] && stack[|stack| - 1] != "" then stack[..|stack| - 1] else stack)
    else if name == "." then stack
    else stack + [name]
  }

  function WalkFrom(stack: seq<string>, names: seq<string>): seq<string> {
    if names == [] then stack
    else Walk(WalkFrom(stack, names[..|names| - 1]), names[|names| - 1], false)
  }

  /** The components a path stands for. */
  function Resolved(names: seq<string>): seq<string> {
    if names == [] then []
    else Walk(Resolved(names[..|names| - 1]), names[|names| - 1], |names| == 1)
  }

  // ---------------------------------------------------------------- marking refines walking

  lemma {:induction false} KeptUnchanged(names: seq<string>, a: seq<bool>, b: seq<bool>, k: nat)
    requires k <= |names| == |a| == |b| && forall i :: 0 <= i < k ==> a[i] == b[i]
    ensures Kept(names, a, k) == Kept(names, b, k)
  {
    if k > 0 {
      KeptUnchanged(names, a, b, k - 1);
    }
  }

  /** The last component kept is the one LastKept finds, and ignoring it takes it off. */
  lemma {:induction false} LastOff(names: seq<string>, ignored: seq<bool>, k: nat)
    requires k <= |names| == |ignored|
    ensures var i := LastKept(ignored, k);
      if i < k then
        Kept(names, ignored, k) != [] && Kept(names, ignored, k)[|Kept(names, ignored, k)| - 1] == names[i] &&
        Kept(names, ignored[i := true], k) == Kept(names, ignored, k)[..|Kept(names, ignored, k)| - 1]
      else Kept(names, ignored, k) == []
  {
    if k > 0 {
      if ignored[k - 1] {
        LastOff(names, ignored, k - 1);
      } else {
        KeptUnchanged(names, ignored, ignored[k - 1 := true], k - 1);
      }
    }
  }

  /** One check has the effect of one step of the walk. */
  lemma StepRefines(names: seq<string>, before: seq<bool>, k: nat)
    requires k < |names| == |before| && !before[k]
    ensures Kept(names, MarkStep(names, before, k), k + 1) == Walk(Kept(names, before, k), names[k], k == 0)
  {
    var after, i := MarkStep(names, before, k), LastKept(before, k);
    var stack := Kept(names, before, k);
    assert Kept(names, after, k + 1) == Kept(names, after, k) + if after[k] then [] else [names[k]];
    if names[k] == ".." {
      LastOff(names, before, k);
      if i < k && names[i] != "" {
        KeptUnchanged(names, before[i := true], after, k);
      } else {
        KeptUnchanged(names, before, after, k);
      }
    } else {
      KeptUnchanged(names, before, after, k);
    }
  }

  /** The flags describe the walk: the components kept after k checks are those a walk over the
      first k components leaves. */
  lemma {:induction false} MarksRefineWalk(names: seq<string>, k: nat)
    requires k <= |names|
    ensures Kept(names, Marks(names, k), k) == Resolved(names[..k])
  {
    if k > 0 {
      MarksRefineWalk(names, k - 1);
      assert names[..k][..k - 1] == names[..k - 1];
      StepRefines(names, Marks(names, k - 1), k - 1);
    }
  }

  // ---------------------------------------------------------------- what resolving does

  /** No "." or "..", and an empty component at most at the start. */
  predicate Clean(names: seq<string>) {
    forall i :: 0 <= i < |names| ==> names[i] != "." && names[i] != ".." && (i > 0 ==> names[i] != "")
  }

  lemma {:induction false} ResolvedIsClean(names: seq<string>)
    ensures Clean(Resolved(names))
    ensures |Resolved(names)| <= |names|
  {
    if names != [] {
      ResolvedIsClean(names[..|names| - 1]);
    }
  }

  lemma {:induction false} CleanStays(names: seq<string>)
    requires Clean(names)
    ensures Resolved(names) == names
  {
    if names != [] {
      var n := |names| - 1;
      assert forall i :: 0 <= i < n ==> names[..n][i] == names[i];
      CleanStays(names[..n]);
      assert names == names[..n] + [names[n]];
    }
  }

  /** Resolving a resolved path changes nothing. */
  lemma ResolvingTwice(names: seq<string>)
    ensures Resolved(Resolved(names)) == Resolved(names)
  {
    ResolvedIsClean(names);
    CleanStays(Resolved(names));
  }

  /** An absolute path stays absolute: ".." never leaves the root. */
  lemma {:induction false} RootStays(names: seq<string>)
    requires names != [] && names[0] == ""
    ensures Resolved(names) != [] && Resolved(names)[0] == ""
  {
    if |names| > 1 {
      RootStays(names[..|names| - 1]);
    } else {
      assert names[..0] == [];
    }
  }

  /** Appending goes on from where the first path leads. */
  lemma {:induction false} AppendWalks(a: seq<string>, b: seq<string>)
    requires a != []
    ensures Resolved(a + b) == WalkFrom(Resolved(a), b)
  {
    if b == [] {
      assert a + b == a;
    } else {
      var n := |b| - 1;
      assert (a + b)[..|a + b| - 1] == a + b[..n];
      AppendWalks(a, b[..n]);
    }
  }

  // ---------------------------------------------------------------- splitting and printing

  /** workload_string_to_node_ex: components end at any separator byte; a trailing separator
      adds none. */
  function Split(s: string, sep: string): (names: seq<string>)
    ensures s != "" ==> names != []
    decreases |s|
  {
    if s == "" then []
    else
      var w := StrCspn(s, sep);
      [s[..w]] + if w < |s| then Split(s[w + 1..], sep) else []
  }

  /** workload_node_to_string for the components to print: an empty last one prints as the
      separator. */
  function Printed(names: seq<string>, insert: string): string {
    if names == [] then ""
    else if |names| == 1 then (if names[0] == "" then insert else names[0])
    else names[0] + insert + Printed(names[1..], insert)
  }

  predicate FreeOf(s: string, sep: string) {
    forall i :: 0 <= i < |s| ==> s[i] !in sep
  }

  predicate AllFreeOf(names: seq<string>, sep: string) {
    forall i :: 0 <= i < |names| ==> FreeOf(names[i], sep)
  }

  lemma {:induction false} SplitIsFree(s: string, sep: string)
    ensures AllFreeOf(Split(s, sep), sep)
    decreases |s|
  {
    if s != "" {
      var w := StrCspn(s, sep);
      assert FreeOf(s[..w], sep);
      if w < |s| {
        SplitIsFree(s[w + 1..], sep);
      }
    }
  }

  lemma {:induction false} CspnOf(s: string, name: string, sep: string)
    requires name <= s && FreeOf(name, sep) && (|name| < |s| ==> s[|name|] in sep)
    ensures StrCspn(s, sep) == |name|
  {
    if name != "" {
      assert s[0] == name[0];
      assert forall i :: 0 <= i < |name| - 1 ==> name[1..][i] == name[i + 1];
      CspnOf(s[1..], name[1..], sep);
    }
  }

  lemma SplitHead(s: string, name: string, c: char, rest: string, sep: string)
    requires s == name + [c] + rest && FreeOf(name, sep) && c in sep
    ensures Split(s, sep) == [name] + Split(rest, sep)
  {
    CspnOf(s, name, sep);
    assert s[..|name|] == name && s[|name| + 1..] == rest;
  }

  /** Splitting what was printed gives the components back. */
  lemma {:induction false} SplitPrinted(names: seq<string>, c: char, sep: string)
    requires names != [] && AllFreeOf(names, sep) && c in sep
    ensures Split(Printed(names, [c]), sep) == names
    decreases |names|
  {
    if |names| > 1 {
      assert forall i :: 0 <= i < |names| - 1 ==> names[1..][i] == names[i + 1];
      SplitPrinted(names[1..], c, sep);
      SplitHead(Printed(names, [c]), names[0], c, Printed(names[1..], [c]), sep);
    } else if names[0] == "" {
      SplitHead([c], "", c, "", sep);
    } else {
      CspnOf(names[0], names[0], sep);
      assert names[0][..|names[0]|] == names[0];
    }
  }

  /** The stripped form of a path string. */
  function Stripped(s: string, c: char, sep: string): string {
    Printed(Resolved(Split(s, sep)), [c])
  }

  lemma {:induction false} ResolvedIsFree(names: seq<string>, sep: string)
    requires AllFreeOf(names, sep)
    ensures AllFreeOf(Resolved(names), sep)
  {
    if names != [] {
      ResolvedIsFree(names[..|names| - 1], sep);
    }
  }

  /** Stripping twice changes nothing more, provided a component survives. */
  lemma StrippingTwice(s: string, c: char, sep: string)
    requires c in sep && Resolved(Split(s, sep)) != []
    ensures Stripped(Stripped(s, c, sep), c, sep) == Stripped(s, c, sep)
  {
    var names := Split(s, sep);
    SplitIsFree(s, sep);
    ResolvedIsFree(names, sep);
    SplitPrinted(Resolved(names), c, sep);
    ResolvingTwice(names);
  }

  // ---------------------------------------------------------------- the list of components

  lemma SplitStep(s: string, sep: string)
    requires s != ""
    ensures var w := StrCspn(s, sep); Split(s, sep) == [s[..w]] + Split(if w < |s| then s[w + 1..] else "", sep)
  {
  }

  lemma SplitEnd(sep: string)
    ensures Split("", sep) == []
  {
  }

  /** The flags of a list built with or without checks. */
  function Flags(names: seq<string>, tag: bool): seq<bool> {
    if tag then Marks(names, |names|) else Unmarked(|names|)
  }

  lemma NoFlags(tag: bool)
    ensures Flags([], tag) == []
  {
  }

  lemma MarksNext(names: seq<string>, k: nat)
    requires k < |names|
    ensures Marks(names, k + 1) == MarkStep(names, Marks(names, k), k)
  {
  }

  lemma AppendedSplit(done: seq<string>, name: string, rest: seq<string>, left: seq<string>)
    requires left == [name] + rest
    ensures done + left == (done + [name]) + rest
  {
  }

  datatype Separators = None | Some(bytes: string)

  /** A list of path nodes. */
  class NodeList {
    var names: seq<string>     // m_string
    var ignored: seq<bool>     // m_ignore

    ghost predicate Valid()
      reads this
    {
      |names| == |ignored|
    }

    constructor ()
      ensures Valid() && names == []
    {
      names, ignored := [], [];
    }

    /** workload_check_ignore_path_node for node k. */
    method CheckIgnore(k: nat)
      requires Valid() && k < |names|
      modifies `ignored
      ensures Valid() && ignored == MarkStep(names, old(ignored), k)
    {
      if names[k] == "" {
        if k > 0 {
          ignored := ignored[k := true];
        }
        return;
      }
      if names[k] == ".." {
        ghost var before := ignored;
        ignored := ignored[k := true];
        var i: int := k - 1;
        while i >= 0 && ignored[i]
          invariant -1 <= i < k
          invariant LastKept(before, k) == LastKept(before, i + 1)
        {
          i := i - 1;
        }
        if i >= 0 && names[i] != "" {
          ignored := ignored[i := true];
        }
        return;
      }
      if names[k] == "." {
        ignored := ignored[k := true];
      }
    }

    /** workload_string_to_node_ex; without separators the string is one component. */
    method Parse(s: string, separators: Separators, tag: bool)
      modifies this
      ensures Valid() && names == if separators.None? then [s] else Split(s, separators.bytes)
      ensures ignored == Flags(names, tag && separators.Some?)
    {
      if separators.None? {
        names, ignored := [s], [false];
        return;
      }
      hide Flags, Split;
      var sep := separators.bytes;
      NoFlags(tag);
      names, ignored := [], [];
      var rest := s;
      while rest != ""
        invariant Valid() && names + Split(rest, sep) == Split(s, sep)
        invariant ignored == Flags(names, tag)
        decreases |rest|
      {
        var w := StrCspn(rest, sep);
        var name := rest[..w];
        ghost var done, left := names, Split(rest, sep);
        SplitStep(rest, sep);
        rest := if w < |rest| then rest[w + 1..] else "";
        AppendedSplit(done, name, Split(rest, sep), left);
        AddComponent(name, tag);
      }
      SplitEnd(sep);
      assert names + [] == names;
    }

    /** One round of the loop: a new node at the end and its check. */
    method AddComponent(name: string, tag: bool)
      requires Valid() && ignored == Flags(names, tag)
      modifies this
      ensures Valid() && names == old(names) + [name] && ignored == Flags(names, tag)
    {
      hide Marks, MarkStep;
      ghost var done := names;
      names, ignored := names + [name], ignored + [false];
      if tag {
        MarksExtend(done, name, |done|);
        MarksNext(names, |done|);
        CheckIgnore(|names| - 1);
      } else {
        assert Unmarked(|done|) + [false] == Unmarked(|done| + 1);
      }
    }

    /** workload_append_string_node_ex */
    method Append(node: NodeList, override: bool, tag: bool)
      requires Valid() && node.Valid() && node != this
      modifies this
      ensures Valid()
      ensures names == (if override && node.names != [] && node.names[0] == "" then [] else old(names)) + node.names
      ensures ignored ==
        if tag then Marks(names, |names|)
        else (if override && node.names != [] && node.names[0] == "" then [] else old(ignored)) + node.ignored
    {
      if override && node.names != [] && node.names[0] == "" {
        names, ignored := [], [];
      }
      names, ignored := names + node.names, ignored + node.ignored;
      if tag {
        ignored := seq(|names|, _ => false);
        var k := 0;
        while k < |names|
          invariant Valid() && k <= |names| && ignored == Marks(names, k)
          invariant names == old(if override && node.names != [] && node.names[0] == "" then [] else names) + node.names
        {
          CheckIgnore(k);
          k := k + 1;
        }
      }
    }
  }

  // ---------------------------------------------------------------- printing into a buffer

  /** The components to print from the k-th on. */
  function ShownFrom(names: seq<string>, ignored: seq<bool>, strip: bool, k: nat): (r: seq<string>)
    requires k <= |names| == |ignored|
    decreases |names| - k
  {
    if k == |names| then []
    else if strip && ignored[k] then ShownFrom(names, ignored, strip, k + 1)
    else [names[k]] + ShownFrom(names, ignored, strip, k + 1)
  }

  lemma {:induction false} ShownIsKept(names: seq<string>, ignored: seq<bool>, k: nat)
    requires k <= |names| == |ignored|
    ensures Kept(names, ignored, |names|) == Kept(names, ignored, k) + ShownFrom(names, ignored, true, k)
    decreases |names| - k
  {
    if k < |names| {
      ShownIsKept(names, ignored, k + 1);
    }
  }

  /** Bytes needed to print the components, 0 when there are none. */
  function SizeOf(names: seq<string>, insert: string): nat {
    if names == [] then 0 else |Printed(names, insert)| + 1
  }

  /** The index of the next component to print after k. */
  method NextShown(names: seq<string>, ignored: seq<bool>, strip: bool, k: nat) returns (t: nat)
    requires k < |names| == |ignored|
    ensures k < t <= |names|
    ensures ShownFrom(names, ignored, strip, t) == ShownFrom(names, ignored, strip, k + 1)
    ensures t == |names| <==> ShownFrom(names, ignored, strip, k + 1) == []
  {
    t := k + 1;
    while strip && t < |names| && ignored[t]
      invariant k < t <= |names|
      invariant ShownFrom(names, ignored, strip, t) == ShownFrom(names, ignored, strip, k + 1)
    {
      t := t + 1;
    }
  }

  /** sprintf(&buffer[offset], "%s", piece) */
  method Sprintf(buffer: array<char>, offset: nat, piece: string) returns (end: nat)
    requires offset + |piece| < buffer.Length
    modifies buffer
    ensures end == offset + |piece| && buffer[..end] == old(buffer[..offset]) + piece && buffer[end] == '\0'
  {
    ghost var start := buffer[..offset];
    for i := 0 to |piece|
      invariant buffer[..offset + i] == start + piece[..i]
    {
      buffer[offset + i] := piece[i];
    }
    end := offset + |piece|;
    buffer[end] := '\0';
  }

  /** The text printed for a component, depending on whether it is the last one. */
  function Piece(name: string, last: bool, insert: string): string {
    if !last then name + insert else if name == "" then insert else name
  }

  lemma PrintStep(shown: seq<string>, insert: string)
    requires shown != []
    ensures Printed(shown, insert) == Piece(shown[0], |shown| == 1, insert) + Printed(shown[1..], insert)
    ensures SizeOf(shown, insert) == |Piece(shown[0], |shown| == 1, insert)| +
      if |shown| == 1 then 1 else SizeOf(shown[1..], insert)
  {
  }

  /** The pass of workload_node_to_string that computes the allocation size. */
  method AllocSize(names: seq<string>, ignored: seq<bool>, insert: string, strip: bool) returns (size: nat)
    requires |names| == |ignored|
    ensures size == SizeOf(ShownFrom(names, ignored, strip, 0), insert)
  {
    size := 0;
    var k := 0;
    while k < |names|
      invariant k <= |names|
      invariant size + SizeOf(ShownFrom(names, ignored, strip, k), insert) == SizeOf(ShownFrom(names, ignored, strip, 0), insert)
    {
      if !(strip && ignored[k]) {
        PrintStep(ShownFrom(names, ignored, strip, k), insert);
        var t := NextShown(names, ignored, strip, k);
        if t == |names| {
          size := size + (if |names[k]| == 0 then |insert| else |names[k]|) + 1;
        } else {
          size := size + |names[k]| + |insert|;
        }
      }
      k := k + 1;
    }
  }

  /** The writing pass fills exactly what the first pass allocated. Without any component left
      to print nothing is allocated and nothing written, not even the terminator. */
  method NodeToString(names: seq<string>, ignored: seq<bool>, insert: string, strip: bool) returns (buffer: array<char>)
    requires |names| == |ignored|
    ensures var shown := ShownFrom(names, ignored, strip, 0);
      buffer.Length == SizeOf(shown, insert) && (shown != [] ==> buffer[..] == Printed(shown, insert) + "\0")
  {
    var size := AllocSize(names, ignored, insert, strip);
    buffer := new char[size];
    var offset: nat, k: nat := 0, 0;
    ghost var text := Printed(ShownFrom(names, ignored, strip, 0), insert);
    while k < |names|
      invariant k <= |names| && offset <= buffer.Length && fresh(buffer)
      invariant buffer[..offset] + Printed(ShownFrom(names, ignored, strip, k), insert) == text
      invariant ShownFrom(names, ignored, strip, k) != [] ==>
        offset + SizeOf(ShownFrom(names, ignored, strip, k), insert) == buffer.Length
      invariant ShownFrom(names, ignored, strip, k) == [] && buffer.Length > 0 ==>
        offset + 1 == buffer.Length && buffer[offset] == '\0'
    {
      if !(strip && ignored[k]) {
        offset := WriteOne(buffer, offset, names, ignored, insert, strip, k, text);
      }
      k := k + 1;
    }
    assert buffer[..offset] + "" == buffer[..offset];
  }

  method WriteOne(buffer: array<char>, offset: nat, names: seq<string>, ignored: seq<bool>, insert: string, strip: bool,
                  k: nat, ghost text: string) returns (end: nat)
    requires k < |names| == |ignored| && !(strip && ignored[k]) && offset <= buffer.Length
    requires buffer[..offset] + Printed(ShownFrom(names, ignored, strip, k), insert) == text
    requires offset + SizeOf(ShownFrom(names, ignored, strip, k), insert) == buffer.Length
    modifies buffer
    ensures var rest := ShownFrom(names, ignored, strip, k + 1);
      end <= buffer.Length && buffer[..end] + Printed(rest, insert) == text &&
      (rest != [] ==> end + SizeOf(rest, insert) == buffer.Length) &&
      (rest == [] ==> end + 1 == buffer.Length && buffer[end] == '\0')
  {
    ghost var shown := ShownFrom(names, ignored, strip, k);
    ghost var start := buffer[..offset];
    PrintStep(shown, insert);
    assert shown[1..] == ShownFrom(names, ignored, strip, k + 1);
    var t := NextShown(names, ignored, strip, k);
    if t == |names| {
      if |names[k]| == 0 {
        end := Sprintf(buffer, offset, insert);
      } else {
        end := Sprintf(buffer, offset, names[k]);
      }
    } else {
      end := Sprintf(buffer, offset, names[k] + insert);
    }
    Assoc(start, Piece(names[k], t == |names|, insert), Printed(shown[1..], insert));
  }

  /** A component added at the end does not change the flags of those before it. */
  lemma {:induction false} MarksExtend(names: seq<string>, name: string, k: nat)
    requires k <= |names|
    ensures Marks(names + [name], k) == Marks(names, k) + [false]
  {
    if k > 0 {
      MarksExtend(names, name, k - 1);
      LastKeptExtend(Marks(names, k - 1), k - 1);
    }
  }

  lemma {:induction false} LastKeptExtend(ignored: seq<bool>, k: nat)
    requires k <= |ignored|
    ensures var i, j := LastKept(ignored, k), LastKept(ignored + [false], k);
      if i < k then j == i else j == |ignored| + 1
  {
    if k > 0 {
      LastKeptExtend(ignored, k - 1);
    }
  }
}

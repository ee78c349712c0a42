/**
 * The behaviour of the few string operations of Go's `strings` package that the
 * indexer relies on (`Index`, `Split`, `SplitN(_, _, 2)` and `TrimSpace`).  JavaScript's
 * `String.prototype.split` with a one-character separator splits exactly like `Split`.
 */
module Strings {

  import opened Wrappers

  /** White space as Go's `unicode.IsSpace` defines it, which is what `TrimSpace` strips. */
  predicate IsSpace(c: char) {
    c in SpaceChars
  }

  const SpaceChars: set<char> :=
    {'\t', '\n', '\U{000B}', '\U{000C}', '\r', ' ', '\U{0085}', '\U{00A0}', '\U{1680}',
     '\U{2000}', '\U{2001}', '\U{2002}', '\U{2003}', '\U{2004}', '\U{2005}', '\U{2006}',
     '\U{2007}', '\U{2008}', '\U{2009}', '\U{200A}', '\U{2028}', '\U{2029}', '\U{202F}',
     '\U{205F}', '\U{3000}'}

  predicate AllSpace(s: string) {
    forall k :: 0 <= k < |s| ==> IsSpace(s[k])
  }

  /** Neither the first nor the last character is white space. */
  predicate IsTrimmed(s: string) {
    s == [] || (!IsSpace(s[0]) && !IsSpace(s[|s| - 1]))
  }

  /** `pat` occurs in `s` starting at index `k`. */
  predicate OccursAt(s: string, pat: string, k: int) {
    0 <= k && k + |pat| <= |s| && s[k..k + |pat|] == pat
  }

  /** The first occurrence of `pat` in `s` at or after `from`, or -1 (`strings.Index`). */
  function IndexFrom(s: string, pat: string, from: nat): (r: int)
    ensures r == -1 || (from <= r && OccursAt(s, pat, r))
    ensures forall k :: from <= k && (r == -1 || k < r) ==> !OccursAt(s, pat, k)
    decreases |s| - from
  {
    if from + |pat| > |s| then -1
    else if s[from..from + |pat|] == pat then from
    else IndexFrom(s, pat, from + 1)
  }

  /** `strings.Index(s, pat)`: the index of the first occurrence of `pat`, or -1. */
  function IndexOf(s: string, pat: string): (r: int)
    ensures r == -1 <==> forall k :: !OccursAt(s, pat, k)
    ensures r != -1 ==> OccursAt(s, pat, r) && forall k :: 0 <= k < r ==> !OccursAt(s, pat, k)
  {
    IndexFrom(s, pat, 0)
  }

  /** The index of the first `c` in `s`. */
  function FirstIndex(s: string, c: char): (i: nat)
    requires c in s
    ensures i < |s| && s[i] == c && c !in s[..i]
  {
    if s[0] == c then 0 else 1 + FirstIndex(s[1..], c)
  }

  /**
   * `strings.SplitN(s, string(sep), 2)` seen as an optional pair: `None` when
   * `sep` does not occur, otherwise the text before the first `sep` and all
   * the text after it.
   */
  function SplitFirst(s: string, sep: char): (r: Option<(string, string)>)
    ensures r.None? <==> sep !in s
    ensures r.Some? ==> sep !in r.value.0 && s == r.value.0 + [sep] + r.value.1
  {
    if sep !in s then None
    else
      var i := FirstIndex(s, sep);
      assert s == s[..i] + [sep] + s[i + 1..];
      Some((s[..i], s[i + 1..]))
  }

  /** `strings.Split(s, string(sep))`: the pieces of `s` between the occurrences of `sep`. */
  function Split(s: string, sep: char): (r: seq<string>)
    ensures |r| >= 1
    ensures |r| == 1 <==> sep !in s
    ensures |r[0]| <= |s| && r[0] == s[..|r[0]|] && sep !in r[0]
    ensures sep in s ==> |r[0]| < |s| && s[|r[0]|] == sep
    ensures sep !in s ==> r == [s]
    decreases |s|
  {
    match SplitFirst(s, sep)
    case None => [s]
    case Some((head, tail)) =>
      assert s[..|head|] == head;
      [head] + Split(tail, sep)
  }

  /** `strings.Join(parts, string(sep))`, the inverse of `Split`. */
  function Join(parts: seq<string>, sep: char): string
    requires |parts| >= 1
  {
    if |parts| == 1 then parts[0] else parts[0] + [sep] + Join(parts[1..], sep)
  }

  lemma JoinCons(piece: string, rest: seq<string>, sep: char)
    requires |rest| >= 1
    ensures Join([piece] + rest, sep) == piece + [sep] + Join(rest, sep)
  {
    assert ([piece] + rest)[1..] == rest;
  }

  /** With a separator present, the first piece is the text before it and the rest is the split of what follows. */
  lemma SplitCons(s: string, sep: char, head: string, tail: string)
    requires SplitFirst(s, sep) == Some((head, tail))
    ensures Split(s, sep) == [head] + Split(tail, sep)
  {
  }

  /** Joining the pieces of a split gives the text back ... */
  lemma {:induction false} JoinSplit(s: string, sep: char)
    ensures Join(Split(s, sep), sep) == s
    decreases |s|
  {
    match SplitFirst(s, sep)
    case None =>
    case Some((head, tail)) =>
      SplitCons(s, sep, head, tail);
      JoinSplit(tail, sep);
      JoinCons(head, Split(tail, sep), sep);
  }

  /** No piece holds the separator. */
  predicate SeparatorFree(parts: seq<string>, sep: char) {
    forall k :: 0 <= k < |parts| ==> sep !in parts[k]
  }

  lemma SeparatorFreeCons(piece: string, parts: seq<string>, sep: char)
    requires sep !in piece && SeparatorFree(parts, sep)
    ensures SeparatorFree([piece] + parts, sep)
  {
    forall k | 0 <= k < |parts| + 1
      ensures sep !in ([piece] + parts)[k]
    {
      if k > 0 {
        assert ([piece] + parts)[k] == parts[k - 1];
      }
    }
  }

  lemma SeparatorFreeTail(parts: seq<string>, sep: char)
    requires |parts| >= 1 && SeparatorFree(parts, sep)
    ensures sep !in parts[0] && SeparatorFree(parts[1..], sep)
  {
    forall k | 0 <= k < |parts| - 1
      ensures sep !in parts[1..][k]
    {
      assert parts[1..][k] == parts[k + 1];
    }
  }

  /** ... and splitting the join of separator-free pieces gives the pieces back. */
  lemma {:induction false} SplitJoin(parts: seq<string>, sep: char)
    requires |parts| >= 1 && SeparatorFree(parts, sep)
    ensures Split(Join(parts, sep), sep) == parts
  {
    if |parts| > 1 {
      var tail := parts[1..];
      var rest := Join(tail, sep);
      assert Join(parts, sep) == parts[0] + [sep] + rest;
      SplitFirstCompose(parts[0], sep, rest);
      SplitCons(Join(parts, sep), sep, parts[0], rest);
      SeparatorFreeTail(parts, sep);
      SplitJoin(tail, sep);
      assert parts == [parts[0]] + tail;
    }
  }

  /** No piece of a split holds the separator. */
  lemma {:induction false} SplitPiecesFree(s: string, sep: char)
    ensures SeparatorFree(Split(s, sep), sep)
    decreases |s|
  {
    match SplitFirst(s, sep)
    case None =>
    case Some((head, tail)) =>
      SplitCons(s, sep, head, tail);
      SplitPiecesFree(tail, sep);
      SeparatorFreeCons(head, Split(tail, sep), sep);
  }

  /** Only the first separator splits: the second half keeps any further separators. */
  lemma SplitFirstCompose(a: string, sep: char, b: string)
    requires sep !in a
    ensures SplitFirst(a + [sep] + b, sep) == Some((a, b))
  {
    var s := a + [sep] + b;
    assert s[|a|] == sep;
    var r := SplitFirst(s, sep);
    var a', b' := r.value.0, r.value.1;
    assert |a'| == |a|;
    assert a' == s[..|a|] == a;
  }

  /** `strings.TrimLeftFunc(s, unicode.IsSpace)`. */
  function TrimLeft(s: string): (r: string)
    ensures |r| <= |s| && r == s[|s| - |r|..]
    ensures r == [] || !IsSpace(r[0])
  {
    if s != [] && IsSpace(s[0]) then
      var r := TrimLeft(s[1..]);
      assert s[1..][|s| - 1 - |r|..] == s[|s| - |r|..];
      r
    else s
  }

  /** What `TrimLeft` drops is white space. */
  lemma {:induction false} TrimLeftDropsSpace(s: string)
    ensures AllSpace(s[..|s| - |TrimLeft(s)|])
  {
    if s != [] && IsSpace(s[0]) {
      TrimLeftDropsSpace(s[1..]);
      SpacePrefixCons(s, |s| - |TrimLeft(s)|);
    }
  }

  /** A white-space first character followed by white space is a white-space prefix. */
  lemma SpacePrefixCons(s: string, n: nat)
    requires 1 <= n <= |s| && IsSpace(s[0]) && AllSpace(s[1..][..n - 1])
    ensures AllSpace(s[..n])
  {
    forall k | 1 <= k < n
      ensures IsSpace(s[..n][k])
    {
      assert s[..n][k] == s[1..][..n - 1][k - 1];
    }
  }

  /** `strings.TrimRightFunc(s, unicode.IsSpace)`. */
  function TrimRight(s: string): (r: string)
    ensures |r| <= |s| && r == s[..|r|] && AllSpace(s[|r|..])
    ensures r == [] || !IsSpace(r[|r| - 1])
  {
    if s != [] && IsSpace(s[|s| - 1]) then TrimRight(s[..|s| - 1]) else s
  }

  /** `r` sits at index `a` of `s` with nothing but white space before and after it. */
  predicate Framed(s: string, a: int, r: string) {
    0 <= a && a + |r| <= |s| && s[a..a + |r|] == r && AllSpace(s[..a]) && AllSpace(s[a + |r|..])
  }

  /** `strings.TrimSpace(s)`: `s` without its leading and trailing white space. */
  function TrimSpace(s: string): (r: string)
    ensures IsTrimmed(r)
    ensures IsTrimmed(s) ==> r == s
    ensures AllSpace(s) <==> r == []
    ensures Framed(s, |s| - |TrimLeft(s)|, r)
  {
    var t := TrimLeft(s);
    var r := TrimRight(t);
    TrimLeftDropsSpace(s);
    InnerPiece(s, |s| - |t|, t, r);
    assert r != [] ==> r[0] == t[0];
    FramedTrimmed(s, |s| - |TrimLeft(s)|, r);
    FramedAllSpace(s, |s| - |TrimLeft(s)|, r);
    r
  }

  /** A prefix `r` of the suffix `t` of `s` from `a` on, with white space before and after it, is framed in `s`. */
  lemma InnerPiece(s: string, a: nat, t: string, r: string)
    requires a <= |s| && t == s[a..] && AllSpace(s[..a])
    requires |r| <= |t| && r == t[..|r|] && AllSpace(t[|r|..])
    ensures Framed(s, a, r)
  {
    assert t[|r|..] == s[a + |r|..];
    assert s[a..a + |r|] == r;
  }

  /** Text whose ends are not white space is its own framed piece. */
  lemma FramedTrimmed(s: string, a: int, r: string)
    requires Framed(s, a, r)
    ensures IsTrimmed(s) ==> r == s
  {
    if s != [] && IsTrimmed(s) {
      SpaceAround(s, a, a + |r|);
      assert s[a..a + |r|] == s;
    }
  }

  /** White space before `a` and from `b` on, read character by character. */
  lemma SpaceAround(s: string, a: nat, b: nat)
    requires a <= b <= |s| && AllSpace(s[..a]) && AllSpace(s[b..])
    ensures forall k :: 0 <= k < |s| && (k < a || b <= k) ==> IsSpace(s[k])
  {
    forall k | 0 <= k < |s| && (k < a || b <= k)
      ensures IsSpace(s[k])
    {
      if k < a {
        assert s[k] == s[..a][k];
      } else {
        assert s[k] == s[b..][k - b];
      }
    }
  }

  /** A framed piece that does not start with white space is empty exactly when the text is all white. */
  lemma FramedAllSpace(s: string, a: int, r: string)
    requires Framed(s, a, r) && (r == [] || !IsSpace(r[0]))
    ensures AllSpace(s) <==> r == []
  {
    if r == [] {
      SpaceAround(s, a, a);
    } else {
      assert r[0] == s[a];
    }
  }

  /** A text frames at most one non-empty piece whose ends are not white space. */
  lemma FramedUnique(s: string, a: int, r: string, b: int, q: string)
    requires Framed(s, a, r) && IsTrimmed(r) && r != []
    requires Framed(s, b, q) && IsTrimmed(q) && q != []
    ensures a == b && r == q
  {
    SpaceAround(s, a, a + |r|);
    SpaceAround(s, b, b + |q|);
    assert s[a] == r[0] && s[b] == q[0];
    assert s[a + |r| - 1] == r[|r| - 1] && s[b + |q| - 1] == q[|q| - 1];
  }

  /** White space around a non-empty trimmed piece is exactly what `TrimSpace` removes. */
  lemma TrimSpaceFramed(s: string, a: int, t: string)
    requires Framed(s, a, t) && IsTrimmed(t) && t != []
    ensures TrimSpace(s) == t
  {
    var ws1, ws2 := TrimSpaceSplit(s);
    var r := TrimSpace(s);
    assert s[a] == t[0];
    FramedOfParts(ws1, r, ws2);
    FramedUnique(s, |ws1|, r, a, t);
  }

  /** `TrimSpace(ws1 + t + ws2)` is `t` when `t` is non-empty and trimmed and the `ws` are white. */
  lemma TrimSpaceAround(ws1: string, t: string, ws2: string)
    requires AllSpace(ws1) && AllSpace(ws2) && IsTrimmed(t) && t != []
    ensures TrimSpace(ws1 + t + ws2) == t
  {
    FramedOfParts(ws1, t, ws2);
    TrimSpaceFramed(ws1 + t + ws2, |ws1|, t);
  }

  /** Any text is its trimmed form with white space on either side. */
  lemma TrimSpaceSplit(s: string) returns (ws1: string, ws2: string)
    ensures s == ws1 + TrimSpace(s) + ws2 && AllSpace(ws1) && AllSpace(ws2)
  {
    var t := TrimSpace(s);
    var a := |s| - |TrimLeft(s)|;
    assert Framed(s, a, t);
    FramedSplit(s, a, t);
    ws1, ws2 := s[..a], s[a + |t|..];
  }

  /** A piece with white space on either side is framed in their concatenation. */
  lemma FramedOfParts(ws1: string, r: string, ws2: string)
    requires AllSpace(ws1) && AllSpace(ws2)
    ensures Framed(ws1 + r + ws2, |ws1|, r)
  {
    var s := ws1 + r + ws2;
    assert s[..|ws1|] == ws1 && s[|ws1|..|ws1| + |r|] == r && s[|ws1| + |r|..] == ws2;
  }

  /** A framed piece and the white space around it make up the whole text. */
  lemma FramedSplit(s: string, a: int, r: string)
    requires Framed(s, a, r)
    ensures s == s[..a] + r + s[a + |r|..]
  {
    assert s[..a] + s[a..a + |r|] == s[..a + |r|];
  }

  /** White space in front of a value does not survive trimming. */
  lemma TrimSpaceLeadingSpace(c: char, s: string)
    requires IsSpace(c)
    ensures TrimSpace([c] + s) == TrimSpace(s)
  {
    assert ([c] + s)[1..] == s;
  }
}

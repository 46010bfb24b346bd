/** The Python string primitives the converter is built from, written over
    `seq<char>`: `str.find`, `str.split`, `str.join`, `str.strip`,
    `str.lstrip(chars)`, `startswith`/`endswith`, `int()` on digit strings and
    the `f"{n}"` rendering of a natural number.
 */
module Strings {

  /** Python's `str.isspace()`: the ASCII controls TAB..CR and FS..US, the
      space, and the Unicode space separators and line/paragraph separators. */
  predicate IsSpace(c: char) {
    c in SpaceChars
  }

  /** No visible ASCII character is a space. */
  lemma VisibleNotSpace(c: char)
    requires '!' <= c <= '~'
    ensures !IsSpace(c)
  {
  }

  /** A space in a stripped string is followed by something. */
  lemma SpaceNotLast(s: string, k: nat)
    requires Trimmed(s) && k < |s| && s[k] == ' '
    ensures k + 1 < |s|
  {
    assert IsSpace(' ');
  }

  const SpaceChars: set<char> := {
    '\t', '\n', '\U{0B}', '\U{0C}', '\r', '\U{1C}', '\U{1D}', '\U{1E}', '\U{1F}', ' ',
    '\U{85}', '\U{A0}', '\U{1680}',
    '\U{2000}', '\U{2001}', '\U{2002}', '\U{2003}', '\U{2004}', '\U{2005}',
    '\U{2006}', '\U{2007}', '\U{2008}', '\U{2009}', '\U{200A}',
    '\U{2028}', '\U{2029}', '\U{202F}', '\U{205F}', '\U{3000}'}

  /** The ASCII decimal digits (the model's reading of the regex class `\d`). */
  predicate IsDigit(c: char) {
    '0' <= c <= '9'
  }

  predicate AllSpace(s: string) {
    forall i :: 0 <= i < |s| ==> IsSpace(s[i])
  }

  predicate AllDigits(s: string) {
    forall i :: 0 <= i < |s| ==> IsDigit(s[i])
  }

  /** A string with no leading and no trailing whitespace. */
  predicate Trimmed(s: string) {
    s == [] || (!IsSpace(s[0]) && !IsSpace(s[|s| - 1]))
  }

  predicate StartsWith(s: string, p: string) {
    |p| <= |s| && s[..|p|] == p
  }

  predicate EndsWith(s: string, p: string) {
    |p| <= |s| && s[|s| - |p|..] == p
  }

  /** `d` occurs in `s` starting at index `i`. */
  predicate OccursAt(s: string, d: string, i: int) {
    0 <= i && i + |d| <= |s| && s[i..i + |d|] == d
  }

  ghost predicate Contains(s: string, d: string) {
    exists i :: OccursAt(s, d, i)
  }

  /** An occurrence inside a slice is an occurrence in the whole string. */
  lemma OccursInSlice(s: string, a: nat, b: nat, d: string, j: int)
    requires a <= b <= |s|
    requires OccursAt(s[a..b], d, j)
    ensures OccursAt(s, d, a + j)
  {
    var t := s[a..b];
    forall k | 0 <= k < |d|
      ensures s[a + j + k] == d[k]
    {
      assert t[j..j + |d|][k] == d[k];
    }
    assert s[a + j..a + j + |d|] == d;
  }

  /** Python's `s.find(d, start)`: the first index at or after `start` where
      `d` occurs, or -1. */
  function Find(s: string, d: string, start: nat): (r: int)
    ensures r == -1 || (start <= r && OccursAt(s, d, r))
    decreases |s| - start
  {
    if start + |d| > |s| then -1
    else if OccursAt(s, d, start) then start
    else Find(s, d, start + 1)
  }

  /** `Find` misses nothing: there is no occurrence between `start` and the
      index it returns, and none at all after `start` when it returns -1. */
  lemma {:induction false} FindIsFirst(s: string, d: string, start: nat)
    ensures var r := Find(s, d, start);
      forall i :: start <= i && (r == -1 || i < r) ==> !OccursAt(s, d, i)
    decreases |s| - start
  {
    if start + |d| <= |s| && !OccursAt(s, d, start) {
      FindIsFirst(s, d, start + 1);
    }
  }

  /** Python's `sep.join(parts)`. */
  function Join(parts: seq<string>, sep: string): string {
    if |parts| == 0 then ""
    else if |parts| == 1 then parts[0]
    else parts[0] + sep + Join(parts[1..], sep)
  }

  /** `"".join(parts)`. */
  function Concat(parts: seq<string>): string {
    if |parts| == 0 then "" else parts[0] + Concat(parts[1..])
  }

  /** A suffix cut at two further points is the three pieces in order. */
  lemma SliceSplit(s: string, a: nat, b: nat, c: nat)
    requires a <= b <= c <= |s|
    ensures s[a..] == s[a..b] + s[b..c] + s[c..]
  {
  }

  /** Concatenation distributes over appending lists of pieces. */
  lemma {:induction false} ConcatAppend(a: seq<string>, b: seq<string>)
    ensures Concat(a + b) == Concat(a) + Concat(b)
  {
    if |a| > 0 {
      assert (a + b)[1..] == a[1..] + b;
      ConcatAppend(a[1..], b);
    } else {
      assert a + b == b;
    }
  }

  /** The last element of a non-empty list. */
  function Last<T>(xs: seq<T>): T
    requires |xs| > 0
  {
    xs[|xs| - 1]
  }

  /** Python's `s.split(d)` for a non-empty separator: gluing the pieces
      back with `d` gives `s` again. */
  function Split(s: string, d: string): (r: seq<string>)
    requires |d| > 0
    ensures |r| >= 1
    ensures Join(r, d) == s
  {
    SplitJoin(s, d, 0);
    assert s[0..] == s;
    SplitFrom(s, d, 0)
  }

  /** The pieces of `s[start..]`: cut at the leftmost occurrence of `d` at or
      after `start`, then split what follows it. */
  function SplitFrom(s: string, d: string, start: nat): (r: seq<string>)
    requires |d| > 0 && start <= |s|
    ensures |r| >= 1
    decreases |s| - start
  {
    var i := Find(s, d, start);
    if i < 0 then [s[start..]] else [s[start..i]] + SplitFrom(s, d, i + |d|)
  }

  /** One cut of the split, when the next occurrence is at `i`. */
  lemma SplitFromStep(s: string, d: string, start: nat, i: nat)
    requires |d| > 0 && start <= |s| && Find(s, d, start) == i
    ensures i + |d| <= |s|
    ensures SplitFrom(s, d, start) == [s[start..i]] + SplitFrom(s, d, i + |d|)
  {
  }

  /** The last piece, when no occurrence is left. */
  lemma SplitFromEnd(s: string, d: string, start: nat)
    requires |d| > 0 && start <= |s| && Find(s, d, start) == -1
    ensures SplitFrom(s, d, start) == [s[start..]]
  {
  }

  /** Gluing the pieces back with the separator gives the input back. */
  lemma {:induction false} SplitJoin(s: string, d: string, start: nat)
    requires |d| > 0 && start <= |s|
    ensures Join(SplitFrom(s, d, start), d) == s[start..]
    decreases |s| - start
  {
    var i := Find(s, d, start);
    if i >= 0 {
      var rest := SplitFrom(s, d, i + |d|);
      assert SplitFrom(s, d, start) == [s[start..i]] + rest;
      SplitJoin(s, d, i + |d|);
      assert ([s[start..i]] + rest)[1..] == rest;
      assert s[start..] == s[start..i] + d + s[i + |d|..];
    }
  }

  ghost predicate NoneContains(pieces: seq<string>, d: string) {
    forall k :: 0 <= k < |pieces| ==> !Contains(pieces[k], d)
  }

  /** No piece contains the separator. */
  lemma {:induction false} SplitAvoids(s: string, d: string, start: nat)
    requires |d| > 0 && start <= |s|
    ensures NoneContains(SplitFrom(s, d, start), d)
    decreases |s| - start
  {
    var i := Find(s, d, start);
    var r := SplitFrom(s, d, start);
    var stop := if i < 0 then |s| else i;
    FindIsFirst(s, d, start);
    assert r[0] == s[start..stop];
    forall j | OccursAt(s[start..stop], d, j)
      ensures false
    {
      OccursInSlice(s, start, stop, d, j);
    }
    if i >= 0 {
      SplitAvoids(s, d, i + |d|);
      var rest := SplitFrom(s, d, i + |d|);
      assert r[1..] == rest;
      forall k | 1 <= k < |r|
        ensures !Contains(r[k], d)
      {
        assert r[k] == rest[k - 1];
      }
    }
  }

  /** The number of non-overlapping occurrences of `d` at or after `i` found
      by a left-to-right scan: an independent account of how many cuts
      `Split` makes. */
  function CountFrom(s: string, d: string, i: nat): nat
    requires |d| > 0 && i <= |s|
    decreases |s| - i
  {
    if i + |d| > |s| then 0
    else if OccursAt(s, d, i) then 1 + CountFrom(s, d, i + |d|)
    else CountFrom(s, d, i + 1)
  }

  function CountOccurrences(s: string, d: string): nat
    requires |d| > 0
  {
    CountFrom(s, d, 0)
  }

  /** `s[i..]` with every occurrence of `d` found by the same scan deleted. */
  function RemoveFrom(s: string, d: string, i: nat): string
    requires |d| > 0 && i <= |s|
    decreases |s| - i
  {
    if i + |d| > |s| then s[i..]
    else if OccursAt(s, d, i) then RemoveFrom(s, d, i + |d|)
    else [s[i]] + RemoveFrom(s, d, i + 1)
  }

  function RemoveAll(s: string, d: string): string
    requires |d| > 0
  {
    RemoveFrom(s, d, 0)
  }

  /** A stretch free of occurrences is skipped by the scan: it adds nothing
      to the count. */
  lemma {:induction false} SkipFreeCount(s: string, d: string, start: nat, i: nat)
    requires |d| > 0 && start <= i <= |s|
    requires forall j :: start <= j < i ==> !OccursAt(s, d, j)
    ensures CountFrom(s, d, start) == CountFrom(s, d, i)
    decreases i - start
  {
    if start < i && start + |d| <= |s| {
      SkipFreeCount(s, d, start + 1, i);
    }
  }

  /** A stretch free of occurrences is kept by the deletion unchanged. */
  lemma {:induction false} SkipFreeRemove(s: string, d: string, start: nat, i: nat)
    requires |d| > 0 && start <= i <= |s|
    requires forall j :: start <= j < i ==> !OccursAt(s, d, j)
    ensures RemoveFrom(s, d, start) == s[start..i] + RemoveFrom(s, d, i)
    decreases i - start
  {
    if start == i {
      assert s[start..i] == [];
    } else if start + |d| > |s| {
      SkipTail(s, d, start, i);
    } else {
      SkipFreeRemove(s, d, start + 1, i);
      SkipKept(s, d, start, i);
    }
  }

  /** The step of `SkipFreeRemove` near the end, where nothing is deleted. */
  lemma SkipTail(s: string, d: string, start: nat, i: nat)
    requires |d| > 0 && start <= i <= |s| && start + |d| > |s|
    ensures RemoveFrom(s, d, start) == s[start..i] + RemoveFrom(s, d, i)
  {
    RemoveFromTail(s, d, start);
    RemoveFromTail(s, d, i);
    assert s[start..] == s[start..i] + s[i..];
  }

  /** The step of `SkipFreeRemove` over one kept character. */
  lemma SkipKept(s: string, d: string, start: nat, i: nat)
    requires |d| > 0 && start < i <= |s| && start + |d| <= |s| && !OccursAt(s, d, start)
    requires RemoveFrom(s, d, start + 1) == s[start + 1..i] + RemoveFrom(s, d, i)
    ensures RemoveFrom(s, d, start) == s[start..i] + RemoveFrom(s, d, i)
  {
    RemoveFromKeep(s, d, start);
    assert [s[start]] + s[start + 1..i] == s[start..i];
  }

  /** Too close to the end for an occurrence, the rest is kept as it is. */
  lemma RemoveFromTail(s: string, d: string, i: nat)
    requires |d| > 0 && i <= |s| && i + |d| > |s|
    ensures RemoveFrom(s, d, i) == s[i..]
  {
  }

  /** A character that does not start an occurrence is kept. */
  lemma RemoveFromKeep(s: string, d: string, i: nat)
    requires |d| > 0 && i + |d| <= |s| && !OccursAt(s, d, i)
    ensures RemoveFrom(s, d, i) == [s[i]] + RemoveFrom(s, d, i + 1)
  {
  }

  /** `str.split` gives one more piece than `str.count` counts occurrences. */
  lemma SplitLength(s: string, d: string)
    requires |d| > 0
    ensures |Split(s, d)| == CountOccurrences(s, d) + 1
  {
    SplitCount(s, d, 0);
  }

  /** `split` makes exactly one cut per occurrence found by the scan. */
  lemma {:induction false} SplitCount(s: string, d: string, start: nat)
    requires |d| > 0 && start <= |s|
    ensures |SplitFrom(s, d, start)| == CountFrom(s, d, start) + 1
    decreases |s| - start
  {
    var i := Find(s, d, start);
    FindIsFirst(s, d, start);
    if i < 0 {
      SkipFreeCount(s, d, start, |s|);
      SplitFromEnd(s, d, start);
    } else {
      SkipFreeCount(s, d, start, i);
      SplitCount(s, d, i + |d|);
      SplitCountStep(s, d, start, i);
    }
  }

  /** One cut of `split` and one occurrence of the count. */
  lemma SplitCountStep(s: string, d: string, start: nat, i: nat)
    requires |d| > 0 && start <= |s| && Find(s, d, start) == i
    requires i + |d| <= |s| && CountFrom(s, d, start) == CountFrom(s, d, i)
    requires |SplitFrom(s, d, i + |d|)| == CountFrom(s, d, i + |d|) + 1
    ensures |SplitFrom(s, d, start)| == CountFrom(s, d, start) + 1
  {
    SplitFromStep(s, d, start, i);
    CountStep(s, d, i);
  }

  /** The scan counts an occurrence where it finds one and moves past it. */
  lemma CountStep(s: string, d: string, i: nat)
    requires |d| > 0 && OccursAt(s, d, i)
    ensures CountFrom(s, d, i) == 1 + CountFrom(s, d, i + |d|)
  {
  }

  /** Gluing the pieces of `split` back together without separators is
      deleting every occurrence of the separator. */
  lemma {:induction false} SplitConcat(s: string, d: string, start: nat)
    requires |d| > 0 && start <= |s|
    ensures Concat(SplitFrom(s, d, start)) == RemoveFrom(s, d, start)
    decreases |s| - start
  {
    var i := Find(s, d, start);
    FindIsFirst(s, d, start);
    if i < 0 {
      SkipFreeRemove(s, d, start, |s|);
      assert s[start..|s|] == s[start..];
      assert RemoveFrom(s, d, |s|) == [];
    } else {
      SkipFreeRemove(s, d, start, i);
      SplitConcat(s, d, i + |d|);
      var rest := SplitFrom(s, d, i + |d|);
      assert ([s[start..i]] + rest)[1..] == rest;
    }
  }

  /** The first piece of `split` is a prefix of the input. */
  lemma SplitFirst(s: string, d: string, start: nat)
    requires |d| > 0 && start <= |s|
    ensures StartsWith(s[start..], SplitFrom(s, d, start)[0])
  {
  }

  /** The last piece of `split` is a suffix of the input. */
  lemma {:induction false} SplitLast(s: string, d: string, start: nat)
    requires |d| > 0 && start <= |s|
    ensures EndsWith(s, Last(SplitFrom(s, d, start)))
    decreases |s| - start
  {
    var i := Find(s, d, start);
    if i >= 0 {
      var rest := SplitFrom(s, d, i + |d|);
      assert SplitFrom(s, d, start) == [s[start..i]] + rest;
      SplitLast(s, d, i + |d|);
    }
  }

  /** Joining pieces free of `c` with a separator free of `c` gives a string
      free of `c`. */
  lemma {:induction false} JoinAvoids(parts: seq<string>, sep: string, c: char)
    requires forall k :: 0 <= k < |parts| ==> c !in parts[k]
    requires c !in sep
    ensures c !in Join(parts, sep)
  {
    if |parts| > 1 {
      JoinAvoids(parts[1..], sep, c);
    }
  }

  /** A slice of a string free of `d` is free of `d`. */
  lemma SliceAvoids(s: string, a: nat, b: nat, d: string)
    requires a <= b <= |s|
    requires !Contains(s, d)
    ensures !Contains(s[a..b], d)
  {
    forall j | OccursAt(s[a..b], d, j)
      ensures false
    {
      OccursInSlice(s, a, b, d, j);
    }
  }

  /** A one-character string occurs exactly where that character stands. */
  lemma OccursChar(s: string, c: char, k: int)
    ensures OccursAt(s, [c], k) <==> 0 <= k < |s| && s[k] == c
  {
    if 0 <= k < |s| {
      assert s[k..k + 1] == [s[k]];
    }
  }

  /** `s.replace(a, b)` for single characters: each `a` becomes `b`. */
  function ReplaceChar(s: string, a: char, b: char): (r: string)
    ensures |r| == |s|
    ensures forall k :: 0 <= k < |s| ==> r[k] == (if s[k] == a then b else s[k])
  {
    seq(|s|, k requires 0 <= k < |s| => if s[k] == a then b else s[k])
  }

  lemma ReplaceCharAppend(x: string, y: string, a: char, b: char)
    ensures ReplaceChar(x + y, a, b) == ReplaceChar(x, a, b) + ReplaceChar(y, a, b)
  {
  }

  /** Splitting on one character and joining with another replaces the first
      character by the second. */
  lemma {:induction false} JoinSplitFromReplace(s: string, a: char, b: char, start: nat)
    requires start <= |s|
    ensures Join(SplitFrom(s, [a], start), [b]) == ReplaceChar(s[start..], a, b)
    decreases |s| - start
  {
    var i := Find(s, [a], start);
    FindIsFirst(s, [a], start);
    if i < 0 {
      SplitFromEnd(s, [a], start);
      CharFree(s, a, start, |s|);
      assert s[start..|s|] == s[start..];
      ReplaceAbsent(s[start..], a, b);
    } else {
      SplitFromStep(s, [a], start, i);
      var rest := SplitFrom(s, [a], i + 1);
      JoinSplitFromReplace(s, a, b, i + 1);
      assert Join([s[start..i]] + rest, [b]) == s[start..i] + [b] + Join(rest, [b]);
      CharFree(s, a, start, i);
      OccursChar(s, a, i);
      ReplaceStep(s, a, b, start, i);
    }
  }

  /** A stretch with no occurrence of `[a]` holds no `a`. */
  lemma CharFree(s: string, a: char, start: nat, end: nat)
    requires start <= end <= |s|
    requires forall j :: start <= j < end ==> !OccursAt(s, [a], j)
    ensures a !in s[start..end]
  {
    forall k | start <= k < end
      ensures s[k] != a
    {
      OccursChar(s, a, k);
    }
  }

  lemma ReplaceAbsent(x: string, a: char, b: char)
    requires a !in x
    ensures ReplaceChar(x, a, b) == x
  {
  }

  /** One cut of the split: the piece before the first `a`, then `b`, then
      the replaced rest. */
  lemma ReplaceStep(s: string, a: char, b: char, start: nat, i: nat)
    requires start <= i < |s| && s[i] == a && a !in s[start..i]
    ensures s[start..i] + [b] + ReplaceChar(s[i + 1..], a, b) == ReplaceChar(s[start..], a, b)
  {
    var x, y := s[start..i], s[i + 1..];
    assert s[start..] == x + [a] + y;
    ReplaceAbsent(x, a, b);
    ReplaceCharAppend(x + [a], y, a, b);
    ReplaceCharAppend(x, [a], a, b);
    assert ReplaceChar([a], a, b) == [b];
  }

  lemma JoinSplitReplace(s: string, a: char, b: char)
    ensures Join(Split(s, [a]), [b]) == ReplaceChar(s, a, b)
  {
    JoinSplitFromReplace(s, a, b, 0);
    assert s[0..] == s;
  }

  /** The characters of `s` that are not whitespace, in order. */
  function NonSpace(s: string): string {
    if |s| == 0 then "" else (if IsSpace(s[0]) then "" else [s[0]]) + NonSpace(s[1..])
  }

  lemma {:induction false} NonSpaceAppend(x: string, y: string)
    ensures NonSpace(x + y) == NonSpace(x) + NonSpace(y)
    decreases |x|
  {
    if |x| > 0 {
      assert (x + y)[1..] == x[1..] + y;
      NonSpaceAppend(x[1..], y);
    } else {
      assert x + y == y;
    }
  }

  /** Nothing but whitespace is dropped: `NonSpace` is empty exactly on a
      blank string. */
  lemma {:induction false} NonSpaceBlank(s: string)
    ensures NonSpace(s) == "" <==> AllSpace(s)
    decreases |s|
  {
    if |s| > 0 {
      NonSpaceBlank(s[1..]);
      assert AllSpace(s) <==> IsSpace(s[0]) && AllSpace(s[1..]) by {
        if IsSpace(s[0]) && AllSpace(s[1..]) {
          forall k | 0 < k < |s|
            ensures IsSpace(s[k])
          {
            assert s[k] == s[1..][k - 1];
          }
        }
      }
    }
  }

  /** `strip` removes whitespace only. */
  lemma NonSpaceStrip(s: string)
    ensures NonSpace(Strip(s)) == NonSpace(s)
  {
    var p := StripBounds(s);
    var head, body, tail := s[..p.0], s[p.0..p.1], s[p.1..];
    assert s == head + body + tail;
    NonSpaceAppend(head + body, tail);
    NonSpaceAppend(head, body);
    NonSpaceBlank(head);
    NonSpaceBlank(tail);
  }

  /** Joining with a whitespace separator adds whitespace only. */
  lemma {:induction false} NonSpaceJoin(parts: seq<string>, sep: string)
    requires AllSpace(sep)
    ensures NonSpace(Join(parts, sep)) == NonSpace(Concat(parts))
    decreases |parts|
  {
    if |parts| == 1 {
      assert Concat(parts) == parts[0] + Concat([]);
      assert parts[0] + "" == parts[0];
    } else if |parts| > 1 {
      var rest := parts[1..];
      NonSpaceJoin(rest, sep);
      NonSpaceAppend(parts[0] + sep, Join(rest, sep));
      NonSpaceAppend(parts[0], sep);
      NonSpaceBlank(sep);
      NonSpaceAppend(parts[0], Concat(rest));
    }
  }

  /** `Find` on a suffix `t` of `s` cut at `off`: the search from `j` finds
      the same occurrence, shifted by the cut. */
  lemma {:induction false} FindShift(s: string, t: string, d: string, off: nat, j: nat)
    requires off <= j <= |s| && t == s[off..]
    ensures Find(t, d, j - off) == -1 ==> Find(s, d, j) == -1
    ensures Find(t, d, j - off) != -1 ==> Find(s, d, j) == Find(t, d, j - off) + off
    decreases |s| - j
  {
    var jt := j - off;
    if j + |d| > |s| {
      FindPastEnd(s, d, j);
      FindPastEnd(t, d, jt);
    } else {
      ShiftSlice(s, t, off, j, j + |d|);
      if OccursAt(s, d, j) {
        FindHere(s, d, j);
        FindHere(t, d, jt);
      } else {
        FindMoves(s, d, j);
        FindMoves(t, d, jt);
        FindShift(s, t, d, off, j + 1);
        assert (j + 1) - off == jt + 1;
      }
    }
  }

  /** Too close to the end, `Find` fails. */
  lemma FindPastEnd(s: string, d: string, j: nat)
    requires j + |d| > |s|
    ensures Find(s, d, j) == -1
  {
  }

  /** An occurrence at `j` is found at `j`. */
  lemma FindHere(s: string, d: string, j: nat)
    requires OccursAt(s, d, j)
    ensures Find(s, d, j) == j
  {
  }

  /** Without an occurrence at `j`, `Find` moves on by one. */
  lemma FindMoves(s: string, d: string, j: nat)
    requires j + |d| <= |s| && !OccursAt(s, d, j)
    ensures Find(s, d, j) == Find(s, d, j + 1)
  {
  }

  /** A found occurrence lies inside the text. */
  lemma FindInside(s: string, d: string, j: nat)
    requires Find(s, d, j) != -1
    ensures j <= Find(s, d, j) && Find(s, d, j) + |d| <= |s|
  {
    assert OccursAt(s, d, Find(s, d, j));
  }

  /** A slice of the suffix `t` is the slice of `s`, shifted. */
  lemma ShiftSlice(s: string, t: string, off: nat, a: nat, b: nat)
    requires off <= a <= b <= |s| && t == s[off..]
    ensures t[a - off..b - off] == s[a..b]
  {
  }

  /** The tail of the suffix `t` is the tail of `s`, shifted. */
  lemma ShiftTail(s: string, t: string, off: nat, a: nat)
    requires off <= a <= |s| && t == s[off..]
    ensures t[a - off..] == s[a..]
  {
  }

  /** Two splits agree when their first cuts bracket the same piece and
      what follows the cuts splits the same way. */
  lemma SplitFromSameCut(s: string, t: string, d: string, j: nat, jt: nat, i: nat, r: nat)
    requires |d| > 0 && j <= |s| && jt <= |t|
    requires Find(s, d, j) == i && Find(t, d, jt) == r
    requires i + |d| <= |s| && r + |d| <= |t|
    requires s[j..i] == t[jt..r]
    requires SplitFrom(s, d, i + |d|) == SplitFrom(t, d, r + |d|)
    ensures SplitFrom(s, d, j) == SplitFrom(t, d, jt)
  {
    SplitFromStep(s, d, j, i);
    SplitFromStep(t, d, jt, r);
  }

  /** Two splits agree when neither finds a cut and the rest is the same. */
  lemma SplitFromSameEnd(s: string, t: string, d: string, j: nat, jt: nat)
    requires |d| > 0 && j <= |s| && jt <= |t|
    requires Find(s, d, j) == -1 && Find(t, d, jt) == -1
    requires s[j..] == t[jt..]
    ensures SplitFrom(s, d, j) == SplitFrom(t, d, jt)
  {
    SplitFromEnd(s, d, j);
    SplitFromEnd(t, d, jt);
  }

  /** `SplitFrom` on a suffix `t` of `s` cut at `off` gives the same pieces. */
  lemma {:induction false} SplitFromShift(s: string, t: string, d: string, off: nat, j: nat)
    requires |d| > 0 && off <= j <= |s| && t == s[off..]
    ensures SplitFrom(s, d, j) == SplitFrom(t, d, j - off)
    decreases |s| - j
  {
    var jt := j - off;
    var r := Find(t, d, jt);
    FindShift(s, t, d, off, j);
    if r == -1 {
      ShiftTail(s, t, off, j);
      SplitFromSameEnd(s, t, d, j, jt);
    } else {
      var i: nat := r + off;
      FindInside(t, d, jt);
      ShiftSlice(s, t, off, j, i);
      SplitFromShift(s, t, d, off, i + |d|);
      assert (i + |d|) - off == r + |d|;
      SplitFromSameCut(s, t, d, j, jt, i, r);
    }
  }

  /** A string without the character `c` is a single piece. */
  lemma SplitCharSingle(a: string, c: char)
    requires c !in a
    ensures Split(a, [c]) == [a]
  {
    forall k | 0 <= k
      ensures !OccursAt(a, [c], k)
    {
      OccursChar(a, c, k);
    }
    FindIsFirst(a, [c], 0);
    SplitFromEnd(a, [c], 0);
    assert a[0..] == a;
  }

  /** The first piece ends at the first `c`; the rest is split alone. */
  lemma SplitCharCons(a: string, c: char, b: string)
    requires c !in a
    ensures Split(a + [c] + b, [c]) == [a] + Split(b, [c])
  {
    var s := a + [c] + b;
    forall k | 0 <= k < |a|
      ensures !OccursAt(s, [c], k)
    {
      OccursChar(s, c, k);
    }
    OccursChar(s, c, |a|);
    FindExactChar(s, c, |a|);
    SplitFromStep(s, [c], 0, |a|);
    assert s[|a| + 1..] == b;
    SplitFromShift(s, b, [c], |a| + 1, |a| + 1);
    assert s[0..|a|] == a;
  }

  lemma {:induction false} FindExactChar(s: string, c: char, i: nat)
    requires OccursAt(s, [c], i)
    requires forall k :: 0 <= k < i ==> !OccursAt(s, [c], k)
    ensures Find(s, [c], 0) == i
  {
    FindIsFirst(s, [c], 0);
  }

  /** A string that differs from `p` at some index below `|p|` does not
      start with `p`. */
  lemma DiffersAt(s: string, p: string, i: nat)
    requires i < |p| && i < |s| && s[i] != p[i]
    ensures !StartsWith(s, p)
  {
    if |p| <= |s| {
      assert s[..|p|][i] == s[i];
    }
  }

  /** Strip cuts exactly at the first and after the last non-whitespace
      character. */
  lemma StripExact(s: string, a: nat, b: nat)
    requires a <= b <= |s|
    requires forall k :: 0 <= k < a ==> IsSpace(s[k])
    requires forall k :: b <= k < |s| ==> IsSpace(s[k])
    requires a < b ==> !IsSpace(s[a]) && !IsSpace(s[b - 1])
    ensures Strip(s) == s[a..b]
  {
    var p := StripBounds(s);
    if a < b {
      assert p.0 == a;
      assert p.1 == b;
    } else {
      assert p.0 == p.1;
    }
  }

  /** Python's `s[i:j]` for integer bounds: a negative bound counts from the
      end, bounds are clamped into range, and crossed bounds give "". */
  function PySlice(s: string, i: int, j: int): (r: string)
    ensures |r| <= |s|
  {
    var a := Clamp(i, |s|);
    var b := Clamp(j, |s|);
    if a < b then s[a..b] else ""
  }

  /** A slice bound as Python resolves it against a length `n`. */
  function Clamp(i: int, n: nat): (r: nat)
    ensures r <= n
  {
    if i < 0 then (if n + i < 0 then 0 else n + i) else if i > n then n else i
  }

  /** The first index at or after `i` that holds no whitespace, or `|s|`. */
  function LeadEnd(s: string, i: nat): (r: nat)
    requires i <= |s|
    ensures i <= r <= |s|
    ensures forall k :: i <= k < r ==> IsSpace(s[k])
    ensures r < |s| ==> !IsSpace(s[r])
    decreases |s| - i
  {
    if i < |s| && IsSpace(s[i]) then LeadEnd(s, i + 1) else i
  }

  /** The smallest `r`, not below `lo`, such that `s[r..j]` is whitespace. */
  function TrailStart(s: string, j: nat, lo: nat): (r: nat)
    requires lo <= j <= |s|
    ensures lo <= r <= j
    ensures forall k :: r <= k < j ==> IsSpace(s[k])
    ensures r > lo ==> !IsSpace(s[r - 1])
    decreases j
  {
    if j > lo && IsSpace(s[j - 1]) then TrailStart(s, j - 1, lo) else j
  }

  /** Where `s.strip()` cuts: everything before the first bound and from the
      second bound on is whitespace, and the part between starts and ends
      with a non-whitespace character (or is empty, at the end of `s`). */
  function StripBounds(s: string): (p: (nat, nat))
    ensures p.0 <= p.1 <= |s|
    ensures forall k :: 0 <= k < p.0 ==> IsSpace(s[k])
    ensures forall k :: p.1 <= k < |s| ==> IsSpace(s[k])
    ensures p.0 < p.1 ==> !IsSpace(s[p.0]) && !IsSpace(s[p.1 - 1])
    ensures p.0 == p.1 ==> p.0 == |s|
  {
    var a := LeadEnd(s, 0);
    (a, TrailStart(s, |s|, a))
  }

  /** Python's `s.strip()`: the slice between the whitespace margins. It is
      trimmed, and it is empty exactly when `s` is blank. */
  function Strip(s: string): (r: string)
    ensures Trimmed(r)
    ensures |r| <= |s|
    ensures r == [] <==> AllSpace(s)
    ensures r == s[StripBounds(s).0..StripBounds(s).1]
  {
    var p := StripBounds(s);
    s[p.0..p.1]
  }

  /** Python's `s.lstrip(c)` for a single character `c`. */
  function LStripChar(s: string, c: char): (r: string)
    ensures |r| <= |s| && r == s[|s| - |r|..]
    ensures forall i :: 0 <= i < |s| - |r| ==> s[i] == c
    ensures r == [] || r[0] != c
  {
    if |s| > 0 && s[0] == c then LStripChar(s[1..], c) else s
  }

  /** A slice holds no character its string does not. */
  lemma AbsentFromSlice(s: string, c: char, i: nat, j: nat)
    requires i <= j <= |s| && c !in s
    ensures c !in s[i..j]
  {
    assert forall k :: 0 <= k < j - i ==> s[i..j][k] == s[i + k];
  }

  /** Python's `s[n:]`, which is empty when `n` runs past the end. */
  function Drop(s: string, n: nat): (r: string)
    ensures n <= |s| ==> r == s[n..]
    ensures n >= |s| ==> r == []
  {
    if n >= |s| then [] else s[n..]
  }

  /** The value of a decimal digit. */
  function DigitValue(c: char): nat {
    if IsDigit(c) then (c as int - '0' as int) as nat else 0
  }

  /** Python's `int(s)` on a string of decimal digits (leading zeros allowed). */
  function DecimalValue(s: string): nat {
    if |s| == 0 then 0 else DecimalValue(s[..|s| - 1]) * 10 + DigitValue(s[|s| - 1])
  }

  /** Python's `f"{n}"` for a natural number; `int()` reads it back. */
  function NatToString(n: nat): (r: string)
    ensures |r| >= 1 && AllDigits(r)
    ensures DecimalValue(r) == n
    ensures r[0] == '0' ==> n == 0
    ensures n < 10 <==> |r| == 1
  {
    var c := ('0' as int + n % 10) as char;
    if n < 10 then
      assert [c][..0] == [];
      [c]
    else
      var p := NatToString(n / 10);
      assert (p + [c])[..|p|] == p;
      p + [c]
  }
}

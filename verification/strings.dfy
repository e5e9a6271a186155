/** The string operations the source relies on, with Java's (and, for `split`,
    JavaScript's) semantics written out: `indexOf`, `contains`, `join`, the two
    different `split`s, `lastIndexOf`, `endsWith` and `substring`. */
module Strings {
  import opened Lang

  /** `pat` occurs in `s` starting at position `i`. */
  predicate MatchAt(s: string, pat: string, i: int) {
    0 <= i && i + |pat| <= |s| && s[i..i + |pat|] == pat
  }

  /** Java clamps the start position of `indexOf` into `[0, |s|]`. */
  function Clamp(s: string, from: int): (f: nat)
    ensures f <= |s|
    ensures 0 <= from <= |s| ==> f == from
  {
    if from < 0 then 0 else if from > |s| then |s| else from
  }

  /** `s.indexOf(pat, from)`: the first occurrence of `pat` at or after the clamped
      start, or -1. An empty pattern is found at the clamped start itself. */
  function IndexOf(s: string, pat: string, from: int): (k: int)
    ensures k == -1 || (Clamp(s, from) <= k && MatchAt(s, pat, k))
    ensures k == -1 ==> forall i :: Clamp(s, from) <= i ==> !MatchAt(s, pat, i)
    ensures k != -1 ==> forall i :: Clamp(s, from) <= i < k ==> !MatchAt(s, pat, i)
    decreases |s| - Clamp(s, from)
  {
    var f := Clamp(s, from);
    if f + |pat| > |s| then -1
    else if s[f..f + |pat|] == pat then f
    else IndexOf(s, pat, f + 1)
  }

  /** `s.substring(begin, end)`: the characters in `[begin, end)`, or an
      out-of-bounds failure unless `0 <= begin <= end <= |s|`. */
  function Substring(s: string, begin: int, end: int): (r: Outcome<string>)
    ensures r.Returns? <==> 0 <= begin <= end <= |s|
    ensures r.Returns? ==> |r.value| == end - begin && forall i :: 0 <= i < |r.value| ==> r.value[i] == s[begin + i]
    ensures r.Throws? ==> r.error == StringIndexOutOfBounds
  {
    if 0 <= begin <= end <= |s| then Returns(s[begin..end]) else Throws(StringIndexOutOfBounds)
  }

  /** `s.contains(pat)`, which Java defines as `indexOf(pat) >= 0`. */
  predicate Contains(s: string, pat: string) {
    IndexOf(s, pat, 0) >= 0
  }

  /** `contains` holds exactly when the pattern occurs somewhere. */
  lemma ContainsIff(s: string, pat: string)
    ensures Contains(s, pat) <==> exists i :: MatchAt(s, pat, i)
  {
    if exists i :: MatchAt(s, pat, i) {
      var i :| MatchAt(s, pat, i);
      assert Clamp(s, 0) <= i;
    }
  }

  /** `s.endsWith(suffix)`. */
  predicate EndsWith(s: string, suffix: string) {
    |suffix| <= |s| && s[|s| - |suffix|..] == suffix
  }

  /** `s.lastIndexOf(c)`: the last position holding `c`, or -1. */
  function LastIndexOf(s: string, c: char): (k: int)
    ensures -1 <= k < |s|
    ensures k >= 0 ==> s[k] == c
    ensures forall i :: k < i < |s| ==> s[i] != c
  {
    LastIndexBefore(s, c, |s|)
  }

  /** The last `c` among the first `n` characters of `s`, or -1. */
  function LastIndexBefore(s: string, c: char, n: nat): (k: int)
    requires n <= |s|
    ensures -1 <= k < n
    ensures k >= 0 ==> s[k] == c
    ensures forall i :: k < i < n ==> s[i] != c
  {
    if n == 0 then -1
    else if s[n - 1] == c then n - 1
    else LastIndexBefore(s, c, n - 1)
  }

  /** `String.join(sep, xs)` in Java and `xs.join(sep)` in JavaScript. */
  function Join(xs: seq<string>, sep: string): string {
    if |xs| == 0 then ""
    else if |xs| == 1 then xs[0]
    else xs[0] + sep + Join(xs[1..], sep)
  }

  /** JavaScript's `s.split(sep)` for a non-empty separator: every piece between
      successive leftmost non-overlapping occurrences, empty pieces included. */
  function Split(s: string, sep: string): (r: seq<string>)
    requires |sep| > 0
    ensures |r| > 0
    decreases |s|
  {
    var k := IndexOf(s, sep, 0);
    if k < 0 then [s] else [s[..k]] + Split(s[k + |sep|..], sep)
  }

  /** Java's `String.split` drops every empty string at the end of the result. */
  function DropTrailingEmpty(xs: seq<string>): (r: seq<string>)
    ensures |r| <= |xs| && r == xs[..|r|]
    ensures |r| > 0 ==> r[|r| - 1] != ""
    ensures forall i :: |r| <= i < |xs| ==> xs[i] == ""
  {
    if |xs| > 0 && xs[|xs| - 1] == "" then DropTrailingEmpty(xs[..|xs| - 1]) else xs
  }

  /** Java's `s.split(sep)` for a separator without regular-expression
      metacharacters: the input itself when `sep` does not occur, otherwise the
      JavaScript pieces with trailing empty strings removed. */
  function JavaSplit(s: string, sep: string): seq<string>
    requires |sep| > 0
  {
    if !Contains(s, sep) then [s] else DropTrailingEmpty(Split(s, sep))
  }

  /** The first occurrence of `sep` in `x + sep` is the appended one: joining `x`
      with a separator cannot create an earlier occurrence. */
  predicate SeparatorFree(x: string, sep: string) {
    IndexOf(x + sep, sep, 0) == |x|
  }

  // ---------------------------------------------------------------------------
  // Facts about IndexOf

  /** `IndexOf` is determined by its characterisation. */
  lemma IndexOfIs(s: string, pat: string, from: int, k: int)
    requires Clamp(s, from) <= k && MatchAt(s, pat, k)
    requires forall i :: Clamp(s, from) <= i < k ==> !MatchAt(s, pat, i)
    ensures IndexOf(s, pat, from) == k
  {
  }

  /** A match that lies wholly inside `a` is a match inside `a + b`, and back. */
  lemma MatchAtAppend(a: string, b: string, pat: string, i: int)
    requires 0 <= i && i + |pat| <= |a|
    ensures MatchAt(a + b, pat, i) <==> MatchAt(a, pat, i)
  {
    assert (a + b)[i..i + |pat|] == a[i..i + |pat|];
  }

  /** Matches in `a + b` at or after `|a|` are the matches in `b`, shifted. */
  lemma MatchAtShift(a: string, b: string, pat: string, i: int)
    requires |a| <= i
    ensures MatchAt(a + b, pat, i) <==> MatchAt(b, pat, i - |a|)
  {
    if i + |pat| <= |a + b| {
      assert (a + b)[i..i + |pat|] == b[i - |a|..i - |a| + |pat|];
    }
  }

  /** Appending text after a found occurrence does not move it. */
  lemma IndexOfExtend(a: string, b: string, pat: string, from: int)
    requires 0 <= from <= |a|
    requires IndexOf(a, pat, from) >= 0
    ensures IndexOf(a + b, pat, from) == IndexOf(a, pat, from)
  {
    var k := IndexOf(a, pat, from);
    MatchAtAppend(a, b, pat, k);
    forall i | from <= i < k
      ensures !MatchAt(a + b, pat, i)
    {
      MatchAtAppend(a, b, pat, i);
    }
    IndexOfIs(a + b, pat, from, k);
  }

  /** Searching `a + b` from inside `b` is searching `b`, shifted by `|a|`. */
  lemma IndexOfShift(a: string, b: string, pat: string, from: int)
    requires |a| <= from <= |a| + |b|
    requires IndexOf(b, pat, from - |a|) >= 0
    ensures IndexOf(a + b, pat, from) == |a| + IndexOf(b, pat, from - |a|)
  {
    var k := IndexOf(b, pat, from - |a|);
    MatchAtShift(a, b, pat, |a| + k);
    forall i | from <= i < |a| + k
      ensures !MatchAt(a + b, pat, i)
    {
      MatchAtShift(a, b, pat, i);
    }
    IndexOfIs(a + b, pat, from, |a| + k);
  }

  /** Starting the search later, but not past the first occurrence, finds the
      same occurrence. */
  lemma IndexOfLater(s: string, pat: string, from: int, later: int)
    requires 0 <= from <= later && IndexOf(s, pat, from) >= later
    ensures IndexOf(s, pat, later) == IndexOf(s, pat, from)
  {
    IndexOfIs(s, pat, later, IndexOf(s, pat, from));
  }

  /** A substring known by its contents. */
  lemma SubstringIs(s: string, begin: int, x: string)
    requires 0 <= begin && begin + |x| <= |s| && s[begin..begin + |x|] == x
    ensures Substring(s, begin, begin + |x|) == Returns(x)
  {
  }

  /** What a successful `indexOf` tells: a match at the result and none between
      the start position and the result. */
  lemma IndexOfFound(s: string, pat: string, from: int)
    requires IndexOf(s, pat, from) >= 0
    ensures Clamp(s, from) <= IndexOf(s, pat, from) && MatchAt(s, pat, IndexOf(s, pat, from))
    ensures forall i :: Clamp(s, from) <= i < IndexOf(s, pat, from) ==> !MatchAt(s, pat, i)
  {
  }

  /** What `substring` returns is the slice between its bounds. */
  lemma SubstringSlice(s: string, begin: int, end: int, x: string)
    requires Substring(s, begin, end) == Returns(x)
    ensures 0 <= begin && end == begin + |x| <= |s| && s[begin..end] == x
  {
  }

  /** `LastIndexOf` is determined by its characterisation. */
  lemma LastIndexOfIs(s: string, c: char, k: int)
    requires 0 <= k < |s| && s[k] == c
    requires forall i :: k < i < |s| ==> s[i] != c
    ensures LastIndexOf(s, c) == k
  {
  }

  /** The last `c` of `a + [c] + b` is the one in the middle when `b` has none. */
  lemma LastIndexOfBefore(a: string, c: char, b: string)
    requires c !in b
    ensures LastIndexOf(a + [c] + b, c) == |a|
  {
    var s := a + [c] + b;
    forall i | |a| < i < |s|
      ensures s[i] != c
    {
      assert s[i] == b[i - |a| - 1];
    }
    LastIndexOfIs(s, c, |a|);
  }

  /** An occurrence found from any position is an occurrence. */
  lemma ContainsFrom(s: string, pat: string, from: int)
    requires IndexOf(s, pat, from) >= 0
    ensures Contains(s, pat)
  {
    var k := IndexOf(s, pat, from);
    assert Clamp(s, 0) <= k && MatchAt(s, pat, k);
  }

  /** A match inside a slice is a match in the whole string. */
  lemma MatchAtSlice(s: string, pat: string, lo: int, hi: int, i: int)
    requires 0 <= lo <= hi <= |s| && MatchAt(s[lo..hi], pat, i)
    ensures MatchAt(s, pat, lo + i)
  {
    var t := s[lo..hi];
    forall k | 0 <= k < |pat|
      ensures s[lo + i + k] == pat[k]
    {
      assert t[i..i + |pat|][k] == pat[k];
      assert t[i + k] == s[lo + i + k];
    }
    assert s[lo + i..lo + i + |pat|] == pat;
  }

  /** A stretch of `s` holding no occurrence that starts inside it, and none that
      ends past its end either, does not contain the pattern. */
  lemma NoMatchInSlice(s: string, pat: string, lo: int, hi: int, x: string)
    requires 0 <= lo <= hi <= |s| && x == s[lo..hi] && |pat| > 0
    requires forall i :: lo <= i < hi ==> !MatchAt(s, pat, i)
    ensures !Contains(x, pat)
  {
    ContainsIff(x, pat);
    forall i | MatchAt(x, pat, i)
      ensures false
    {
      MatchAtSlice(s, pat, lo, hi, i);
    }
  }

  /** After a separator-free prefix, the first occurrence is the one that follows it. */
  lemma IndexOfAfterFree(a: string, pat: string, rest: string)
    requires SeparatorFree(a, pat)
    ensures IndexOf(a + pat + rest, pat, 0) == |a|
  {
    IndexOfExtend(a + pat, rest, pat, 0);
  }

  /** The middle part of a three-part concatenation. */
  lemma SliceMiddle(a: string, m: string, rest: string)
    ensures |a| + |m| <= |a + m + rest| && (a + m + rest)[|a|..|a| + |m|] == m
  {
  }

  /** A string that never holds the separator's first character cannot run into
      the separator. */
  lemma LeadFreeSeparatorFree(x: string, sep: string)
    requires |sep| > 0 && sep[0] !in x
    ensures SeparatorFree(x, sep)
  {
    assert MatchAt(x + sep, sep, |x|) by { assert (x + sep)[|x|..|x| + |sep|] == sep; }
    forall i | 0 <= i < |x|
      ensures !MatchAt(x + sep, sep, i)
    {
      assert (x + sep)[i] == x[i];
    }
    IndexOfIs(x + sep, sep, 0, |x|);
  }

  /** A separator-free string does not contain the separator. */
  lemma SeparatorFreeNotContains(x: string, sep: string)
    requires |sep| > 0 && SeparatorFree(x, sep)
    ensures !Contains(x, sep)
  {
    ContainsIff(x, sep);
    forall i | MatchAt(x, sep, i)
      ensures false
    {
      MatchAtAppend(x, sep, sep, i);
    }
  }

  // ---------------------------------------------------------------------------
  // Round trips of Join and the two Splits

  /** Splitting a joined list gives the list back, provided no element can merge
      with the separator that follows it. */
  lemma {:induction false} SplitJoin(xs: seq<string>, sep: string)
    requires |xs| > 0 && |sep| > 0
    requires forall i :: 0 <= i < |xs| ==> SeparatorFree(xs[i], sep)
    ensures Split(Join(xs, sep), sep) == xs
  {
    if |xs| == 1 {
      SeparatorFreeNotContains(xs[0], sep);
    } else {
      var x, rest := xs[0], Join(xs[1..], sep);
      assert Join(xs, sep) == (x + sep) + rest;
      IndexOfExtend(x + sep, rest, sep, 0);
      assert IndexOf(Join(xs, sep), sep, 0) == |x|;
      assert Join(xs, sep)[..|x|] == x;
      assert Join(xs, sep)[|x| + |sep|..] == rest;
      SplitJoin(xs[1..], sep);
      assert [x] + xs[1..] == xs;
    }
  }

  /** Java's split undoes a join when the last element is not empty (a single
      element comes back as it is, empty or not). */
  lemma JavaSplitJoin(xs: seq<string>, sep: string)
    requires |xs| > 0 && |sep| > 0
    requires forall i :: 0 <= i < |xs| ==> SeparatorFree(xs[i], sep)
    requires |xs| == 1 || xs[|xs| - 1] != ""
    ensures JavaSplit(Join(xs, sep), sep) == xs
  {
    if |xs| == 1 {
      SeparatorFreeNotContains(xs[0], sep);
    } else {
      var x, rest := xs[0], Join(xs[1..], sep);
      assert Join(xs, sep) == (x + sep) + rest;
      MatchAtAppend(x + sep, rest, sep, |x|);
      assert MatchAt(Join(xs, sep), sep, |x|);
      SplitJoin(xs, sep);
    }
  }
}

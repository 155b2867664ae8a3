/**
  The pattern-removal expansions of shell parameter expansion
  (POSIX.1-2017, Shell Command Language, section 2.6.2 "Parameter Expansion"):
  `${v#p}`, `${v##p}`, `${v%p}` and `${v%%p}`.

  The glob matcher (`path.Match` of the envsubst library) is not part of this
  model: every operation takes it as a parameter `glob`, and every property is
  stated relative to whatever that matcher answers, including its errors.
 */
module Substitutions {

  /** What the glob matcher answers for `Match(pattern, name)`: a verdict, or
      an error for a malformed pattern. */
  datatype MatchResult = Ok(matched: bool) | BadPattern

  /** The matcher, called as `glob(pattern, name)`. */
  type Matcher = (string, string) -> MatchResult

  datatype Option<T> = None | Some(value: T)

  // ---------------------------------------------------------------------
  // Candidate prefixes.  Only the non-empty prefixes s[..k], 1 <= k <= |s|,
  // are ever offered to the matcher.
  // ---------------------------------------------------------------------

  /** The candidate prefix of length k matches the pattern. */
  predicate MatchAt(glob: Matcher, p: string, s: string, k: int)
  {
    1 <= k <= |s| && glob(p, s[..k]) == Ok(true)
  }

  /** The matcher reports an error on the candidate prefix of length k. */
  predicate BadAt(glob: Matcher, p: string, s: string, k: int)
  {
    1 <= k <= |s| && glob(p, s[..k]) == BadPattern
  }

  /** Some candidate prefix longer than k makes the matcher fail. */
  predicate BadAbove(glob: Matcher, p: string, s: string, k: int)
  {
    exists j :: k < j <= |s| && BadAt(glob, p, s, j)
  }

  /** k is the length of the shortest matching candidate prefix. */
  predicate IsLeastMatch(glob: Matcher, p: string, s: string, k: int)
  {
    MatchAt(glob, p, s, k) && forall j :: 1 <= j < k ==> !MatchAt(glob, p, s, j)
  }

  /** k is the length of the longest matching candidate prefix. */
  predicate IsGreatestMatch(glob: Matcher, p: string, s: string, k: int)
  {
    MatchAt(glob, p, s, k) && forall j :: k < j <= |s| ==> !MatchAt(glob, p, s, j)
  }

  /** The shortest matching candidate whose length is at least lo. */
  function LeastMatch(glob: Matcher, p: string, s: string, lo: nat): (r: Option<nat>)
    decreases |s| + 1 - lo
    ensures r.Some? ==> lo <= r.value && MatchAt(glob, p, s, r.value)
    ensures r.Some? ==> forall j :: lo <= j < r.value ==> !MatchAt(glob, p, s, j)
    ensures r.None? ==> forall j :: lo <= j ==> !MatchAt(glob, p, s, j)
  {
    if lo > |s| then None
    else if MatchAt(glob, p, s, lo) then Some(lo)
    else LeastMatch(glob, p, s, lo + 1)
  }

  /** The longest matching candidate whose length is at most hi. */
  function GreatestMatch(glob: Matcher, p: string, s: string, hi: nat): (r: Option<nat>)
    ensures r.Some? ==> r.value <= hi && MatchAt(glob, p, s, r.value)
    ensures r.Some? ==> forall j :: r.value < j <= hi ==> !MatchAt(glob, p, s, j)
    ensures r.None? ==> forall j :: j <= hi ==> !MatchAt(glob, p, s, j)
  {
    if hi == 0 then None
    else if MatchAt(glob, p, s, hi) then Some(hi)
    else GreatestMatch(glob, p, s, hi - 1)
  }

  // ---------------------------------------------------------------------
  // Reference definitions of the two prefix trims.
  // ---------------------------------------------------------------------

  /** `${v#p}`: strip the shortest matching candidate prefix, unless the
      matcher fails on any candidate at all. */
  function ShortestTrim(glob: Matcher, p: string, s: string): (r: string)
    ensures |r| <= |s| && r == s[|s| - |r|..]
    ensures r != s ==> !BadAbove(glob, p, s, 0) && IsLeastMatch(glob, p, s, |s| - |r|)
    ensures r != s ==> forall j :: 1 <= j < |s| - |r| ==> glob(p, s[..j]) == Ok(false)
    ensures forall k :: IsLeastMatch(glob, p, s, k) && !BadAbove(glob, p, s, 0) ==> r == s[k..]
  {
    if BadAbove(glob, p, s, 0) then s
    else match LeastMatch(glob, p, s, 1)
      case Some(k) =>
        CleanScan(glob, p, s, 0);
        s[k..]
      case None => s
  }

  /** `${v##p}`: strip the longest matching candidate prefix, unless the
      matcher fails on a longer candidate, which is tried first. */
  function LongestTrim(glob: Matcher, p: string, s: string): (r: string)
    ensures |r| <= |s| && r == s[|s| - |r|..]
    ensures r != s ==> IsGreatestMatch(glob, p, s, |s| - |r|) && !BadAbove(glob, p, s, |s| - |r|)
    ensures r != s ==> forall j :: |s| - |r| < j <= |s| ==> glob(p, s[..j]) == Ok(false)
    ensures forall k :: IsGreatestMatch(glob, p, s, k) && !BadAbove(glob, p, s, k) ==> r == s[k..]
  {
    match GreatestMatch(glob, p, s, |s|)
    case Some(k) =>
      if BadAbove(glob, p, s, k) then s
      else
        CleanScan(glob, p, s, k);
        s[k..]
    case None => s
  }

  /** Without an error above lo, every longer candidate gets a verdict. */
  lemma CleanScan(glob: Matcher, p: string, s: string, lo: nat)
    requires !BadAbove(glob, p, s, lo)
    ensures forall j :: lo < j <= |s| ==> glob(p, s[..j]) == Ok(MatchAt(glob, p, s, j))
  {
    forall j | lo < j <= |s|
      ensures glob(p, s[..j]) == Ok(MatchAt(glob, p, s, j))
    {
      assert !BadAt(glob, p, s, j);
    }
  }

  /** Go's `strings.TrimPrefix`: the rest of s after prefix, or s itself
      when prefix does not start it. */
  function TrimPrefix(s: string, prefix: string): (r: string)
    ensures prefix <= s ==> prefix + r == s
    ensures !(prefix <= s) ==> r == s
  {
    if prefix <= s then s[|prefix|..] else s
  }

  // ---------------------------------------------------------------------
  // The scanning loops, from the longest candidate down to length 1.
  // ---------------------------------------------------------------------

  /** trimShortest: every candidate is tried; the last match seen is the
      shortest one.  A matcher error abandons the scan. */
  method TrimShortest(glob: Matcher, arg: string, s: string) returns (r: string)
    ensures r == ShortestTrim(glob, arg, s)
  {
    var n := |s|;
    var shortestMatch := "";
    for i := 0 to n
      invariant forall j :: n - i < j <= n ==> !BadAt(glob, arg, s, j)
      invariant shortestMatch == "" ==> forall j :: n - i < j <= n ==> !MatchAt(glob, arg, s, j)
      invariant shortestMatch != "" ==>
                  n - i < |shortestMatch| <= n && shortestMatch == s[..|shortestMatch|]
      invariant shortestMatch != "" ==>
                  IsLeastMatchAbove(glob, arg, s, n - i, |shortestMatch|)
    {
      var res := glob(arg, s[0..n - i]);
      if res.BadPattern? {
        assert BadAt(glob, arg, s, n - i);
        return s;
      }
      if res.matched {
        shortestMatch := s[0..n - i];
      }
    }
    if shortestMatch != "" {
      return TrimPrefix(s, shortestMatch);
    }
    return s;
  }

  /** Among the candidates longer than lo, k is the shortest that matches. */
  predicate IsLeastMatchAbove(glob: Matcher, p: string, s: string, lo: int, k: int)
  {
    MatchAt(glob, p, s, k) && forall j :: lo < j < k ==> !MatchAt(glob, p, s, j)
  }

  /** trimLongest: the first candidate that matches, trying the longest
      first, is stripped; a matcher error before that abandons the scan. */
  method TrimLongest(glob: Matcher, arg: string, s: string) returns (r: string)
    ensures r == LongestTrim(glob, arg, s)
  {
    var n := |s|;
    for i := 0 to n
      invariant forall j :: n - i < j <= n ==> !BadAt(glob, arg, s, j) && !MatchAt(glob, arg, s, j)
    {
      var res := glob(arg, s[0..n - i]);
      if res.BadPattern? {
        assert BadAt(glob, arg, s, n - i);
        return s;
      }
      if res.matched {
        assert IsGreatestMatch(glob, arg, s, n - i);
        return TrimPrefix(s, s[0..n - i]);
      }
    }
    return s;
  }

  // ---------------------------------------------------------------------
  // Reversal.
  // ---------------------------------------------------------------------

  /** The characters of s in the opposite order. */
  function Reversed(s: string): (r: string)
    ensures |r| == |s|
  {
    if s == [] then [] else [s[|s| - 1]] + Reversed(s[..|s| - 1])
  }

  lemma {:induction false} ReversedIndex(s: string, i: int)
    requires 0 <= i < |s|
    ensures Reversed(s)[i] == s[|s| - 1 - i]
  {
    if i > 0 {
      ReversedIndex(s[..|s| - 1], i - 1);
    }
  }

  lemma {:induction false} ReversedInvolution(s: string)
    ensures Reversed(Reversed(s)) == s
  {
    var r := Reversed(s);
    forall i | 0 <= i < |s|
      ensures Reversed(r)[i] == s[i]
    {
      ReversedIndex(r, i);
      ReversedIndex(s, |s| - 1 - i);
    }
  }

  /** Reversal turns the suffix of length k into the reversed prefix of
      length k. */
  lemma {:induction false} ReversedTake(s: string, k: int)
    requires 0 <= k <= |s|
    ensures Reversed(s)[..k] == Reversed(s[|s| - k..])
  {
    var r, t := Reversed(s), s[|s| - k..];
    var lhs, rhs := r[..k], Reversed(t);
    forall i | 0 <= i < k
      ensures lhs[i] == rhs[i]
    {
      ReversedIndex(s, i);
      ReversedIndex(t, i);
    }
    assert lhs == rhs;
  }

  /** Dropping k characters of the reversal and reversing back keeps the
      first |s| - k characters of s. */
  lemma {:induction false} ReversedDrop(s: string, k: int)
    requires 0 <= k <= |s|
    ensures Reversed(Reversed(s)[k..]) == s[..|s| - k]
  {
    var u := Reversed(s)[k..];
    var lhs, rhs := Reversed(u), s[..|s| - k];
    forall i | 0 <= i < |s| - k
      ensures lhs[i] == rhs[i]
    {
      ReversedIndex(u, i);
      ReversedIndex(s, |u| - 1 - i + k);
    }
    assert lhs == rhs;
  }

  /** reverse: copy the string into a buffer and swap from both ends. */
  method Reverse(s: string) returns (r: string)
    ensures r == Reversed(s)
  {
    var runes := new char[|s|](k requires 0 <= k < |s| => s[k]);
    var n := runes.Length;
    var i, j := 0, n - 1;
    while i < n / 2
      invariant 0 <= i <= n / 2 && j == n - 1 - i
      invariant forall k :: 0 <= k < i ==> runes[k] == s[n - 1 - k] && runes[n - 1 - k] == s[k]
      invariant forall k :: i <= k < n - i ==> runes[k] == s[k]
    {
      runes[i], runes[j] := runes[j], runes[i];
      i, j := i + 1, j - 1;
    }
    r := runes[..];
    forall k | 0 <= k < n
      ensures r[k] == Reversed(s)[k]
    {
      ReversedIndex(s, k);
    }
  }

  // ---------------------------------------------------------------------
  // The four expansions.  `args` is the variadic pattern list; only its
  // first element is ever consulted.
  // ---------------------------------------------------------------------

  /** `${v#p}` */
  function TrimShortestPrefix(glob: Matcher, s: string, args: seq<string>): (r: string)
    ensures |args| == 0 ==> r == s
    ensures |r| <= |s| && r == s[|s| - |r|..]
    ensures |args| != 0 && r != s ==> glob(args[0], s[..|s| - |r|]) == Ok(true)
    ensures |args| != 0 && r != s ==>
              forall k :: 1 <= k < |s| - |r| ==> glob(args[0], s[..k]) == Ok(false)
    ensures |args| != 0 && r != s ==> !BadAbove(glob, args[0], s, 0)
    ensures |args| != 0 ==>
              forall k :: IsLeastMatch(glob, args[0], s, k) && !BadAbove(glob, args[0], s, 0) ==> r == s[k..]
  {
    if |args| != 0 then ShortestTrim(glob, args[0], s) else s
  }

  /** `${v##p}` */
  function TrimLongestPrefix(glob: Matcher, s: string, args: seq<string>): (r: string)
    ensures |args| == 0 ==> r == s
    ensures |r| <= |s| && r == s[|s| - |r|..]
    ensures |args| != 0 && r != s ==> glob(args[0], s[..|s| - |r|]) == Ok(true)
    ensures |args| != 0 && r != s ==>
              forall k :: |s| - |r| < k <= |s| ==> glob(args[0], s[..k]) == Ok(false)
    ensures |args| != 0 && r != s ==> !BadAbove(glob, args[0], s, |s| - |r|)
    ensures |args| != 0 ==>
              forall k :: IsGreatestMatch(glob, args[0], s, k) && !BadAbove(glob, args[0], s, k) ==> r == s[k..]
  {
    if |args| != 0 then LongestTrim(glob, args[0], s) else s
  }

  /** `${v%p}`: trim the reversed value by the reversed pattern. */
  function TrimShortestSuffix(glob: Matcher, s: string, args: seq<string>): (r: string)
    ensures |args| == 0 ==> r == s
    ensures |r| <= |s| && r == s[..|r|]
    ensures |args| != 0 && r != s ==> glob(Reversed(args[0]), Reversed(s[|r|..])) == Ok(true)
    ensures |args| != 0 && r != s ==>
              forall k :: |r| < k < |s| ==> glob(Reversed(args[0]), Reversed(s[k..])) == Ok(false)
    ensures |args| != 0 && r != s ==> !BadAbove(glob, Reversed(args[0]), Reversed(s), 0)
    ensures |args| != 0 ==>
              forall k ::
                IsLeastMatch(glob, Reversed(args[0]), Reversed(s), k) &&
                !BadAbove(glob, Reversed(args[0]), Reversed(s), 0)
                ==> r == s[..|s| - k]
  {
    if |args| != 0 then
      var rs := Reversed(s);
      var t := ShortestTrim(glob, Reversed(args[0]), rs);
      ReversedSuffixTrim(s, t);
      ReversedSlices(s);
      Reversed(t)
    else s
  }

  /** `${v%%p}`: trim the reversed value by the reversed pattern. */
  function TrimLongestSuffix(glob: Matcher, s: string, args: seq<string>): (r: string)
    ensures |args| == 0 ==> r == s
    ensures |r| <= |s| && r == s[..|r|]
    ensures |args| != 0 && r != s ==> glob(Reversed(args[0]), Reversed(s[|r|..])) == Ok(true)
    ensures |args| != 0 && r != s ==>
              forall k :: 0 <= k < |r| ==> glob(Reversed(args[0]), Reversed(s[k..])) == Ok(false)
    ensures |args| != 0 && r != s ==> !BadAbove(glob, Reversed(args[0]), Reversed(s), |s| - |r|)
    ensures |args| != 0 ==>
              forall k ::
                IsGreatestMatch(glob, Reversed(args[0]), Reversed(s), k) &&
                !BadAbove(glob, Reversed(args[0]), Reversed(s), k)
                ==> r == s[..|s| - k]
  {
    if |args| != 0 then
      var rs := Reversed(s);
      var t := LongestTrim(glob, Reversed(args[0]), rs);
      ReversedSuffixTrim(s, t);
      ReversedSlices(s);
      Reversed(t)
    else s
  }

  /** The four expansions read only the first pattern argument. */
  lemma OnlyFirstPattern(glob: Matcher, s: string, args: seq<string>)
    requires |args| != 0
    ensures TrimShortestPrefix(glob, s, args) == TrimShortestPrefix(glob, s, args[..1])
    ensures TrimLongestPrefix(glob, s, args) == TrimLongestPrefix(glob, s, args[..1])
    ensures TrimShortestSuffix(glob, s, args) == TrimShortestSuffix(glob, s, args[..1])
    ensures TrimLongestSuffix(glob, s, args) == TrimLongestSuffix(glob, s, args[..1])
  {
  }

  /** If t is a suffix of the reversal of s, reversing t back gives a prefix
      of s, and that prefix is all of s exactly when t is the whole reversal. */
  lemma {:induction false} ReversedSuffixTrim(s: string, t: string)
    requires |t| <= |s| && t == Reversed(s)[|s| - |t|..]
    ensures Reversed(t) == s[..|t|]
    ensures Reversed(t) == s <==> t == Reversed(s)
  {
    ReversedDrop(s, |s| - |t|);
    ReversedInvolution(s);
  }

  /** ReversedTake and ReversedDrop for every split point at once: the
      suffixes of s, reversed, are the prefixes of its reversal, and the
      suffixes of the reversal, reversed, are the prefixes of s. */
  lemma {:induction false} ReversedSlices(s: string)
    ensures forall k :: 0 <= k <= |s| ==> Reversed(s[k..]) == Reversed(s)[..|s| - k]
    ensures forall k :: 0 <= k <= |s| ==> Reversed(Reversed(s)[k..]) == s[..|s| - k]
  {
    forall k | 0 <= k <= |s|
      ensures Reversed(s[k..]) == Reversed(s)[..|s| - k]
      ensures Reversed(Reversed(s)[k..]) == s[..|s| - k]
    {
      ReversedTake(s, |s| - k);
      ReversedDrop(s, k);
    }
  }
}

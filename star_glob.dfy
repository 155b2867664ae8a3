/**
  A small stand-in for the glob matcher, used to pin down the behaviour of
  the trims on concrete values: `*` matches any run of characters other than
  `/`, and every other pattern character matches itself.  It never reports a
  malformed pattern.
 */
module StarGlob {
  import opened Substitutions

  /** name matches the pattern p. */
  function Glob(p: string, name: string): bool
    decreases |p| + |name|
  {
    if p == [] then name == []
    else if p[0] == '*' then
      Glob(p[1..], name) || (name != [] && name[0] != '/' && Glob(p, name[1..]))
    else name != [] && name[0] == p[0] && Glob(p[1..], name[1..])
  }

  function Star(p: string, name: string): MatchResult
  {
    Ok(Glob(p, name))
  }

  /** `*.` matches exactly the names that end in a dot and hold no slash. */
  lemma {:induction false} StarDot(w: string)
    ensures Glob("*.", w) <==> |w| >= 1 && w[|w| - 1] == '.' && '/' !in w
  {
    assert Glob(".", w) <==> w == ".";
    if w != [] {
      StarDot(w[1..]);
      assert w == [w[0]] + w[1..];
    }
  }

  /** On a value without slashes, the candidate of length k matches `*.`
      exactly when it ends in a dot, and no candidate is an error. */
  lemma StarDotCandidates(s: string)
    requires '/' !in s
    ensures forall k :: MatchAt(Star, "*.", s, k) <==> 1 <= k <= |s| && s[k - 1] == '.'
    ensures forall lo :: !BadAbove(Star, "*.", s, lo)
  {
    forall k | 1 <= k <= |s|
      ensures MatchAt(Star, "*.", s, k) <==> s[k - 1] == '.'
    {
      StarDot(s[..k]);
    }
  }

  /** Reversal of a concrete value, checked position by position. */
  lemma ReversedIs(s: string, t: string)
    requires |s| == |t| && forall i :: 0 <= i < |s| ==> t[i] == s[|s| - 1 - i]
    ensures Reversed(s) == t
  {
    forall i | 0 <= i < |s|
      ensures Reversed(s)[i] == t[i]
    {
      ReversedIndex(s, i);
    }
  }

  /** `${VERSION#*.}` with VERSION=123.55.66 */
  lemma ShortestPrefixExample()
    ensures TrimShortestPrefix(Star, "123.55.66", ["*."]) == "55.66"
  {
    var s := "123.55.66";
    StarDotCandidates(s);
    assert IsLeastMatch(Star, "*.", s, 4);
  }

  /** `${VERSION##*.}` with VERSION=123.55.66 */
  lemma LongestPrefixExample()
    ensures TrimLongestPrefix(Star, "123.55.66", ["*."]) == "66"
  {
    var s := "123.55.66";
    StarDotCandidates(s);
    assert IsGreatestMatch(Star, "*.", s, 7);
  }

  /** `${VERSION%.*}` with VERSION=123.55.66 */
  lemma ShortestSuffixExample()
    ensures TrimShortestSuffix(Star, "123.55.66", [".*"]) == "123.55"
  {
    var rs := "66.55.321";
    ReversedIs(".*", "*.");
    ReversedIs("123.55.66", rs);
    StarDotCandidates(rs);
    assert IsLeastMatch(Star, "*.", rs, 3);
    ReversedIs("55.321", "123.55");
  }

  /** `${VERSION%%.*}` with VERSION=123.55.66 */
  lemma LongestSuffixExample()
    ensures TrimLongestSuffix(Star, "123.55.66", [".*"]) == "123"
  {
    var rs := "66.55.321";
    ReversedIs(".*", "*.");
    ReversedIs("123.55.66", rs);
    StarDotCandidates(rs);
    assert IsGreatestMatch(Star, "*.", rs, 6);
    ReversedIs("321", "123");
  }

  /** The empty prefix is never offered to the matcher, so an empty match is
      ignored and the shortest non-empty match is stripped: `*` on `abc`
      removes `a`. */
  lemma EmptyPrefixNeverTried()
    ensures TrimShortestPrefix(Star, "abc", ["*"]) == "bc"
  {
  }

  /** A matcher that fails on one-character names and accepts every longer
      name. */
  function FailsOnSingle(p: string, name: string): MatchResult
  {
    if |name| == 1 then BadPattern else Ok(true)
  }

  /** An error on a candidate shorter than the longest match discards the
      shortest trim but not the longest one. */
  lemma ErrorBelowMatch()
    ensures TrimShortestPrefix(FailsOnSingle, "abc", ["p"]) == "abc"
    ensures TrimLongestPrefix(FailsOnSingle, "abc", ["p"]) == ""
  {
  }
}

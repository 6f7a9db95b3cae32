/**
  The trie-free meaning of a longest-prefix match: among a list of registered
  strings, the longest non-empty one that the input starts with.
 */
module Prefixes {
  import opened Wrappers

  /** `p` is a literal prefix of `s`. */
  predicate IsPrefix(p: string, s: string) {
    |p| <= |s| && s[..|p|] == p
  }

  /** Length of an optional match; 0 when there is none. */
  function MatchLength(m: Option<string>): nat {
    if m.Some? then |m.value| else 0
  }

  /** The match itself, or "" when there is none. */
  function OrEmpty(m: Option<string>): string {
    if m.Some? then m.value else ""
  }

  /**
    The longest non-empty registered prefix of `s` no longer than `k`,
    searched from the longest candidate down.
   */
  function LongestUpTo(registered: seq<string>, s: string, k: nat): (r: Option<string>)
    requires k <= |s|
    ensures r.Some? ==> r.value in registered && 0 < |r.value| <= k && IsPrefix(r.value, s)
    ensures forall j :: MatchLength(r) < j <= k ==> s[..j] !in registered
    decreases k
  {
    if k == 0 then None
    else if s[..k] in registered then Some(s[..k])
    else LongestUpTo(registered, s, k - 1)
  }

  /** The longest non-empty registered string that `s` starts with, if any. */
  function LongestRegisteredPrefix(registered: seq<string>, s: string): (r: Option<string>)
    ensures r.Some? ==> r.value in registered && r.value != [] && IsPrefix(r.value, s)
    ensures forall j :: MatchLength(r) < j <= |s| ==> s[..j] !in registered
  {
    LongestUpTo(registered, s, |s|)
  }

  /** No registered non-empty prefix of `s` is longer than the chosen one, and there is one whenever any exists. */
  lemma LongestRegisteredPrefixIsMaximal(registered: seq<string>, s: string, p: string)
    requires p in registered && p != [] && IsPrefix(p, s)
    ensures LongestRegisteredPrefix(registered, s).Some?
    ensures |p| <= |LongestRegisteredPrefix(registered, s).value|
  {
    var r := LongestRegisteredPrefix(registered, s);
    assert s[..|p|] == p;
  }

  /** Two prefixes of the same string with the same length are the same string. */
  lemma PrefixesOfSameLength(a: string, b: string, s: string)
    requires IsPrefix(a, s) && IsPrefix(b, s) && |a| == |b|
    ensures a == b
  {
  }
}

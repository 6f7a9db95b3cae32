/**
  The service around the unfiltered matcher: it loads the prefixes once at
  construction and answers single lookups and batches of lookups. The batch
  is modelled sequentially; its worker pool is not part of this model.
 */
module LongestPrefixMatchService {
  import opened Prefixes
  import opened Tries
  import TriePrefixMatcher

  /** The requested matching approach; every approach other than TRIE is one `Other` case. */
  datatype MatcherApproach = TRIE | Other

  datatype Service = Service(matcher: Trie)

  /** Whatever approach is requested, the new matcher is an empty trie. */
  function CreateMatcherInstance(approach: MatcherApproach): (r: Trie)
    ensures forall w :: Find(r, w).Some? <==> w == []
    ensures forall w :: !Contains(r, w)
  {
    forall w ensures Find(Empty, w).Some? <==> w == [] {
      EmptyHasOnlyRoot(w);
    }
    Empty
  }

  /** Construction: create the matcher, then load exactly the given prefixes into it. */
  function NewService(prefixes: seq<string>, approach: MatcherApproach): (s: Service)
    ensures forall w :: Contains(s.matcher, w) <==> w in prefixes
  {
    Service(TriePrefixMatcher.LoadPrefixes(CreateMatcherInstance(approach), prefixes))
  }

  /** A single lookup, answered by the matcher on the calling thread. */
  function MatchSingleString(svc: Service, input: string): string {
    TriePrefixMatcher.FindLongestMatchingPrefix(svc.matcher, input)
  }

  /**
    A single lookup on a freshly constructed service answers the longest
    loaded prefix the input starts with, or "", whatever the approach.
   */
  lemma MatchSingleIsLongestLoadedPrefix(prefixes: seq<string>, approach: MatcherApproach, input: string)
    ensures MatchSingleString(NewService(prefixes, approach), input)
            == OrEmpty(LongestRegisteredPrefix(prefixes, input))
  {
    assert NewService(prefixes, approach).matcher == TriePrefixMatcher.LoadPrefixes(Empty, prefixes);
    TriePrefixMatcher.LookupIsLongestLoadedPrefix(prefixes, input);
  }

  /**
    A batch: one entry per distinct input, put in input order; a repeated
    input overwrites its entry with the same value.
   */
  method MatchConcurrentStrings(svc: Service, inputs: seq<string>) returns (results: map<string, string>)
    ensures results.Keys == set s | s in inputs
    ensures forall s :: s in results ==> results[s] == MatchSingleString(svc, s)
    ensures |results| <= |inputs|
  {
    results := map[];
    var i := 0;
    while i < |inputs|
      invariant i <= |inputs|
      invariant results.Keys == set s | s in inputs[..i]
      invariant |results| <= i
      invariant forall s :: s in results ==> results[s] == MatchSingleString(svc, s)
    {
      assert inputs[..i + 1] == inputs[..i] + [inputs[i]];
      results := results[inputs[i] := MatchSingleString(svc, inputs[i])];
      i := i + 1;
    }
    assert inputs[..i] == inputs;
  }
}

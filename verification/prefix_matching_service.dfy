/**
  The service around the filtering trie: construction checks the configured
  strategy, single lookups pass `None` through, and batch lookups replace
  `None` with a fixed message. The batch is modelled sequentially; its worker
  pool and the configuration and file loading are not part of this model.
 */
module PrefixMatchingService {
  import opened Wrappers
  import opened Prefixes
  import opened Tries
  import opened PrefixTrie

  const TrieBasedMatchingStrategy: string := "TRIE"

  /** The batch value for an input with no matching prefix. */
  const NoMatchMessage: string := "No matching prefix found"

  datatype ConfigError =
    | PrefixFileUnreadable
    | InvalidStrategy(strategy: string)

  datatype Service = Service(matcher: Trie)

  /** ASCII upper-casing of one character. */
  function ToUpperChar(c: char): char {
    if 'a' <= c <= 'z' then (c as int - 32) as char else c
  }

  function ToUpper(s: string): (r: string)
    ensures |r| == |s|
    ensures forall i :: 0 <= i < |s| ==> r[i] == ToUpperChar(s[i])
  {
    if s == [] then [] else [ToUpperChar(s[0])] + ToUpper(s[1..])
  }

  /** `s` spells TRIE in any mix of upper and lower case. */
  predicate SpellsTrieIgnoringCase(s: string) {
    |s| == 4 && forall i :: 0 <= i < 4 ==> s[i] == "TRIE"[i] || s[i] == "trie"[i]
  }

  /**
    Construction. `loaded` is the prefix file's content, `None` when reading it
    failed; that failure is reported before the strategy is looked at. Only a
    strategy spelling TRIE in any case builds a service.
   */
  function Create(strategy: string, loaded: Option<seq<string>>): (r: Result<Service, ConfigError>)
    ensures loaded.None? ==> r == Failure(PrefixFileUnreadable)
    ensures loaded.Some? ==> (r.Success? <==> SpellsTrieIgnoringCase(strategy))
    ensures r.Failure? && loaded.Some? ==> r.error == InvalidStrategy(ToUpper(strategy))
    ensures r.Success? ==> forall w :: Contains(r.value.matcher, w) <==> w in Filtered(loaded.value)
  {
    if loaded.None? then Failure(PrefixFileUnreadable)
    else
      var upper := ToUpper(strategy);
      assert upper == TrieBasedMatchingStrategy <==> SpellsTrieIgnoringCase(strategy) by {
        if SpellsTrieIgnoringCase(strategy) {
          assert upper == TrieBasedMatchingStrategy;
        }
      }
      if upper == TrieBasedMatchingStrategy then
        BuildTrieContains(Empty, loaded.value);
        forall w ensures Contains(Empty, w) == false {
          EmptyHasOnlyRoot(w);
        }
        Success(Service(BuildTrie(Empty, loaded.value)))
      else Failure(InvalidStrategy(upper))
  }

  /** A single lookup: the trie's answer, `None` when nothing matches. */
  function MatchSingle(svc: Service, input: string): Option<string> {
    FindLongestPrefix(svc.matcher, input)
  }

  /**
    A single lookup on a successfully created service answers the longest
    non-empty filtered prefix that the input starts with, or `None`.
   */
  lemma MatchSingleIsLongestFilteredPrefix(strategy: string, prefixes: seq<string>, input: string)
    requires SpellsTrieIgnoringCase(strategy)
    ensures MatchSingle(Create(strategy, Some(prefixes)).value, input)
            == LongestRegisteredPrefix(Filtered(prefixes), input)
  {
    LookupIsLongestFilteredPrefix(prefixes, input);
  }

  /**
    A batch: one entry per input of the set, holding the match when there is
    one and NoMatchMessage otherwise. The message is never a real match, so the
    two cases cannot be confused.
   */
  function MatchAll(svc: Service, inputs: set<string>): (r: map<string, string>)
    ensures r.Keys == inputs
    ensures |r| == |inputs|
    ensures forall s :: s in r && MatchSingle(svc, s).Some? ==> r[s] == MatchSingle(svc, s).value
    ensures forall s :: s in r ==> (r[s] == NoMatchMessage <==> MatchSingle(svc, s).None?)
  {
    assert !IsAlnum(NoMatchMessage[2]);
    var r := map s | s in inputs :: if MatchSingle(svc, s).Some? then MatchSingle(svc, s).value else NoMatchMessage;
    assert r.Keys == inputs;
    r
  }
}

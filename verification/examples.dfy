/** Concrete lookups from the repository's own test fixtures, derived from the general theorems. */
module Examples {
  import opened Wrappers
  import opened Prefixes
  import opened Tries
  import TriePrefixMatcher
  import PrefixTrie

  /** The fixture of the unfiltered matcher's tests. */
  const Sample: seq<string> := ["a", "app", "apple", "application", "bat", "batter", "tru", "true", "foo"]

  /** The fixture of the filtering trie's tests (mixed case). */
  const Mixed: seq<string> := ["Apple", "app", "APIkey", "BAN", "banana", "123Code"]

  lemma SampleMembers(p: string)
    requires p in Sample
    ensures p == "a" || p == "app" || p == "apple" || p == "application" || p == "bat"
         || p == "batter" || p == "tru" || p == "true" || p == "foo"
  {
  }

  lemma MixedMembers(p: string)
    requires p in Mixed
    ensures p == "Apple" || p == "app" || p == "APIkey" || p == "BAN" || p == "banana" || p == "123Code"
  {
  }

  /** Over the plain fixture, "applx_test" starts with "a" and "app" but not with "apple". */
  lemma SampleApplx()
    ensures LongestRegisteredPrefix(Sample, "applx_test") == Some("app")
  {
    var s := "applx_test";
    assert s[..3] == "app";
    LongestRegisteredPrefixIsMaximal(Sample, s, "app");
    var r := LongestRegisteredPrefix(Sample, s).value;
    SampleMembers(r);
    assert s[..|r|][0] == 'a';
    assert s[..5] == "applx";
  }

  /**
    On any trie holding exactly the plain fixture (such as the one loaded from
    it), "applx_test" walks past "app" into "appl" and stops at 'x': the answer is "app".
   */
  lemma PlainStopsInsideLongerPrefix(t: Trie)
    requires forall w :: Contains(t, w) <==> w in Sample
    ensures TriePrefixMatcher.FindLongestMatchingPrefix(t, "applx_test") == "app"
  {
    SampleApplx();
    TriePrefixMatcher.LookupIsLongestContained(t, Sample, "applx_test");
  }

  lemma SampleApplication()
    ensures LongestRegisteredPrefix(Sample, "application_server") == Some("application")
  {
    var s := "application_server";
    assert s[..11] == "application";
    LongestRegisteredPrefixIsMaximal(Sample, s, "application");
    SampleMembers(LongestRegisteredPrefix(Sample, s).value);
  }

  /** The longest of the nested prefixes "a", "app", "application" wins. */
  lemma PlainLongestOfNested(t: Trie)
    requires forall w :: Contains(t, w) <==> w in Sample
    ensures TriePrefixMatcher.FindLongestMatchingPrefix(t, "application_server") == "application"
  {
    SampleApplication();
    TriePrefixMatcher.LookupIsLongestContained(t, Sample, "application_server");
  }

  lemma SampleFo()
    ensures LongestRegisteredPrefix(Sample, "fo") == None
  {
    var s := "fo";
    assert s[..1] == "f" && s[..2] == "fo";
  }

  /** "fo" lies on the path to "foo" but reaches no terminal node: the answer is "". */
  lemma PlainShorterThanPrefix(t: Trie)
    requires forall w :: Contains(t, w) <==> w in Sample
    ensures TriePrefixMatcher.FindLongestMatchingPrefix(t, "fo") == ""
  {
    SampleFo();
    TriePrefixMatcher.LookupIsLongestContained(t, Sample, "fo");
  }

  lemma MixedApplepie()
    ensures LongestRegisteredPrefix(Mixed, "applepie") == Some("app")
  {
    var s := "applepie";
    assert s[..3] == "app";
    LongestRegisteredPrefixIsMaximal(Mixed, s, "app");
    var r := LongestRegisteredPrefix(Mixed, s).value;
    MixedMembers(r);
    assert s[..|r|][0] == 'a';
  }

  /**
    On any trie holding exactly the mixed-case fixture (such as the one built
    from it), "applepie" does not start with "Apple" but does start with the
    stored "app", so the answer is "app".
   */
  lemma FilteredCaseSensitive(t: Trie)
    requires forall w :: Contains(t, w) <==> w in Mixed
    ensures PrefixTrie.FindLongestPrefix(t, "applepie") == Some("app")
  {
    MixedAlnum();
    MixedApplepie();
    PrefixTrie.LookupIsLongestContained(t, Mixed, "applepie");
  }

  lemma SpecAppleOnly()
    ensures LongestRegisteredPrefix(["Apple"], "applepie") == None
  {
    var s := "applepie";
    assert s[..5] != "Apple" by { assert s[..5][0] == 'a'; }
  }

  /** With only "Apple" stored, "applepie" finds nothing: no case folding on either path. */
  lemma FilteredCaseMismatch(t: Trie)
    requires forall w :: Contains(t, w) <==> w == "Apple"
    ensures PrefixTrie.FindLongestPrefix(t, "applepie") == None
  {
    assert PrefixTrie.AllAlnum("Apple");
    SpecAppleOnly();
    PrefixTrie.LookupIsLongestContained(t, ["Apple"], "applepie");
  }

  lemma MixedApi()
    ensures LongestRegisteredPrefix(Mixed, "API") == None
  {
    var s := "API";
    assert s[..1] == "A" && s[..2] == "AP" && s[..3] == "API";
  }

  lemma FilteredApi(t: Trie)
    requires forall w :: Contains(t, w) <==> w in Mixed
    ensures PrefixTrie.FindLongestPrefix(t, "API") == None
  {
    MixedAlnum();
    MixedApi();
    PrefixTrie.LookupIsLongestContained(t, Mixed, "API");
  }

  /** Whatever the trie holds, lookup of "API-KEY-123" halts at the first '-'. */
  lemma DashHalts(t: Trie)
    ensures PrefixTrie.FindLongestPrefix(t, "API-KEY-123") == PrefixTrie.FindLongestPrefix(t, "API")
  {
    var s := "API-KEY-123";
    PrefixTrie.HaltsAtNonAlnum(t, s, 3);
    assert s[..3] == "API";
  }

  /** Lookup halts at '-': "API-KEY-123" finds nothing although "APIkey" is stored. */
  lemma FilteredHaltsAtDash(t: Trie)
    requires forall w :: Contains(t, w) <==> w in Mixed
    ensures PrefixTrie.FindLongestPrefix(t, "API-KEY-123") == None
  {
    FilteredApi(t);
    DashHalts(t);
  }

  lemma FilterApiKey()
    ensures PrefixTrie.Filter("API-key") == "APIkey"
  {
    assert "API-key" == "API" + "-key";
    PrefixTrie.FilterAppend("API", "-key");
    assert PrefixTrie.Filter("API") == "API";
    assert PrefixTrie.Filter("-key") == "key";
  }

  lemma SpecApiKey()
    ensures LongestRegisteredPrefix(["APIkey"], "API-key") == None
  {
    var s := "API-key";
    assert s[..6] != "APIkey" by { assert s[..6][3] == '-'; }
  }

  /** "API-key" is stored along "APIkey", which its own spelling never reaches. */
  lemma SkippedDashUnreachable()
    ensures PrefixTrie.FindLongestPrefix(PrefixTrie.BuildTrie(Empty, ["API-key"]), "API-key") == None
  {
    FilterApiKey();
    assert PrefixTrie.Filtered(["API-key"]) == ["APIkey"];
    SpecApiKey();
    PrefixTrie.LookupIsLongestFilteredPrefix(["API-key"], "API-key");
  }

  /** The fixture is already alphanumeric, so filtering leaves it unchanged. */
  lemma FilteredMixed()
    ensures PrefixTrie.Filtered(Mixed) == Mixed
  {
    MixedAlnum();
    FilteredUnchanged(Mixed);
  }

  /** The trie the plain matcher loads from its fixture holds exactly that fixture. */
  lemma SampleLoaded()
    ensures forall w :: Contains(TriePrefixMatcher.LoadPrefixes(Empty, Sample), w) <==> w in Sample
  {
    TriePrefixMatcher.LoadedContainsExactly(Sample);
  }

  /** The trie the filtering trie builds from its fixture holds exactly that fixture. */
  lemma MixedBuilt()
    ensures forall w :: Contains(PrefixTrie.BuildTrie(Empty, Mixed), w) <==> w in Mixed
  {
    PrefixTrie.BuiltContainsExactly(Mixed);
    FilteredMixed();
  }

  lemma MixedAlnum()
    ensures forall p :: p in Mixed ==> PrefixTrie.AllAlnum(p)
  {
    forall p | p in Mixed ensures PrefixTrie.AllAlnum(p) {
      MixedMembers(p);
    }
  }

  lemma FilteredUnchanged(ps: seq<string>)
    requires forall p :: p in ps ==> PrefixTrie.AllAlnum(p)
    ensures PrefixTrie.Filtered(ps) == ps
  {
    var f := PrefixTrie.Filtered(ps);
    assert forall i :: 0 <= i < |ps| ==> f[i] == ps[i];
  }
}

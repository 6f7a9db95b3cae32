/**
  The unfiltered matcher: every character of a prefix becomes an edge, and a
  lookup that reaches no terminal node answers "".
 */
module TriePrefixMatcher {
  import opened Wrappers
  import opened Prefixes
  import opened Tries

  /** Loading inserts every prefix of the list into the matcher's trie. */
  function LoadPrefixes(t: Trie, prefixes: seq<string>): (r: Trie)
    ensures forall w :: Contains(r, w) <==> Contains(t, w) || w in prefixes
  {
    forall w
      ensures Contains(Build(t, prefixes), w) <==> Contains(t, w) || w in prefixes
    {
      BuildContains(t, prefixes, w);
    }
    Build(t, prefixes)
  }

  /** Inserting one prefix puts an edge on every character of it and marks its last node terminal. */
  lemma InsertAddsEveryCharacter(t: Trie, prefix: string)
    ensures forall v :: Find(Insert(t, prefix), v).Some? <==> Find(t, v).Some? || IsPrefix(v, prefix)
    ensures forall v :: Contains(Insert(t, prefix), v) <==> Contains(t, v) || v == prefix
  {
    forall v
      ensures Find(Insert(t, prefix), v).Some? <==> Find(t, v).Some? || IsPrefix(v, prefix)
      ensures Contains(Insert(t, prefix), v) <==> Contains(t, v) || v == prefix
    {
      InsertPaths(t, prefix, v);
      InsertContains(t, prefix, v);
    }
  }

  /**
    `best` is what the lookup has recorded after consuming `s[..i]`: a prefix of
    the input that is "" or contained, with no longer contained prefix of `s[..i]`.
   */
  predicate BestSoFar(root: Trie, s: string, i: nat, best: string)
    requires i <= |s|
  {
    && IsPrefix(best, s) && |best| <= i
    && (best == "" || Contains(root, best))
    && forall k :: |best| < k <= i ==> !Contains(root, s[..k])
  }

  /**
    The lookup loop from position `i`, standing on `node` with `best` recorded:
    stop at the end of the input or at a missing edge; otherwise step to the
    child and record the consumed input when the child is terminal.
   */
  function Scan(root: Trie, s: string, i: nat, node: Trie, best: string): (r: string)
    requires i <= |s|
    requires Find(root, s[..i]) == Some(node)
    requires BestSoFar(root, s, i, best)
    ensures BestSoFar(root, s, |s|, r)
    decreases |s| - i
  {
    if i == |s| then best
    else if s[i] !in node.children then
      FindStep(root, s, i);
      assert forall k :: i < k <= |s| ==> Find(root, s[..k]).None? by {
        forall k | i < k <= |s| ensures Find(root, s[..k]).None? {
          FindDeadEnd(root, s, i + 1, k);
        }
      }
      best
    else
      var next := node.children[s[i]];
      FindStep(root, s, i);
      Scan(root, s, i + 1, next, if next.terminal then s[..i + 1] else best)
  }

  /**
    The longest prefix of `input` that the trie contains, or "" when the walk
    reaches no terminal node.
   */
  function FindLongestMatchingPrefix(root: Trie, input: string): (r: string)
    ensures IsPrefix(r, input)
    ensures r == "" || Contains(root, r)
    ensures forall k :: |r| < k <= |input| ==> !Contains(root, input[..k])
  {
    Scan(root, input, 0, root, "")
  }

  /** At most one string satisfies the contract of FindLongestMatchingPrefix. */
  lemma LongestMatchIsUnique(root: Trie, s: string, a: string, b: string)
    requires BestSoFar(root, s, |s|, a) && BestSoFar(root, s, |s|, b)
    ensures a == b
  {
    PrefixesOfSameLength(a, b, s);
  }

  /**
    On any trie that contains exactly the strings of `prefixes`, lookup answers
    the longest listed prefix that the input starts with, or "" if there is none.
   */
  lemma LookupIsLongestContained(root: Trie, prefixes: seq<string>, input: string)
    requires forall w :: Contains(root, w) <==> w in prefixes
    ensures FindLongestMatchingPrefix(root, input) == OrEmpty(LongestRegisteredPrefix(prefixes, input))
  {
    var r := FindLongestMatchingPrefix(root, input);
    var m := LongestRegisteredPrefix(prefixes, input);
    if m.Some? {
      assert input[..|m.value|] == m.value;
      if r != "" {
        assert input[..|r|] == r;
      }
      PrefixesOfSameLength(r, m.value, input);
    } else if r != "" {
      assert input[..|r|] == r;
    }
  }

  /** A trie loaded from `prefixes` into an empty matcher contains exactly those prefixes. */
  lemma LoadedContainsExactly(prefixes: seq<string>)
    ensures forall w :: Contains(LoadPrefixes(Empty, prefixes), w) <==> w in prefixes
  {
    forall w ensures !Contains(Empty, w) {
      EmptyHasOnlyRoot(w);
    }
  }

  /**
    On a trie loaded from `prefixes`, lookup answers the longest loaded prefix
    that the input starts with, or "" if there is none.
   */
  lemma LookupIsLongestLoadedPrefix(prefixes: seq<string>, input: string)
    ensures FindLongestMatchingPrefix(LoadPrefixes(Empty, prefixes), input)
            == OrEmpty(LongestRegisteredPrefix(prefixes, input))
  {
    LoadedContainsExactly(prefixes);
    LookupIsLongestContained(LoadPrefixes(Empty, prefixes), prefixes, input);
  }

  /** An input equal to a loaded prefix is answered with exactly that prefix. */
  lemma ExactMatch(prefixes: seq<string>, p: string)
    requires p in prefixes
    ensures FindLongestMatchingPrefix(LoadPrefixes(Empty, prefixes), p) == p
  {
    LookupIsLongestLoadedPrefix(prefixes, p);
    if p != [] {
      LongestRegisteredPrefixIsMaximal(prefixes, p, p);
    }
  }

  /** The answer is "" exactly when no non-empty loaded prefix starts the input. */
  lemma NoMatchIsEmpty(prefixes: seq<string>, input: string)
    ensures FindLongestMatchingPrefix(LoadPrefixes(Empty, prefixes), input) == ""
            <==> forall p :: p in prefixes && IsPrefix(p, input) ==> p == ""
  {
    LookupIsLongestLoadedPrefix(prefixes, input);
    forall p | p in prefixes && IsPrefix(p, input) && p != ""
      ensures LongestRegisteredPrefix(prefixes, input).Some?
    {
      LongestRegisteredPrefixIsMaximal(prefixes, input, p);
    }
  }

  /** Once the walk falls off the trie, the characters after that point cannot change the answer. */
  lemma StopsAtMissingEdge(root: Trie, s: string, i: nat)
    requires i <= |s|
    requires Find(root, s[..i]).None?
    ensures FindLongestMatchingPrefix(root, s) == FindLongestMatchingPrefix(root, s[..i])
  {
    var a := FindLongestMatchingPrefix(root, s);
    var b := FindLongestMatchingPrefix(root, s[..i]);
    assert s[..i][..|b|] == s[..|b|];
    forall k | |b| < k <= |s| ensures !Contains(root, s[..k]) {
      if k <= i {
        assert s[..i][..k] == s[..k];
      } else {
        FindDeadEnd(root, s, i, k);
      }
    }
    LongestMatchIsUnique(root, s, a, b);
  }
}

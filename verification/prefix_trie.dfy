/**
  The filtering trie: building skips every character that is not a letter or
  digit, while lookup halts at the first such character; a lookup that reaches
  no terminal node answers `None` (Java's `null`).
 */
module PrefixTrie {
  import opened Wrappers
  import opened Prefixes
  import opened Tries

  /** Letters and digits, restricted to ASCII. */
  predicate IsAlnum(c: char) {
    ('a' <= c <= 'z') || ('A' <= c <= 'Z') || ('0' <= c <= '9')
  }

  predicate AllAlnum(s: string) {
    forall i :: 0 <= i < |s| ==> IsAlnum(s[i])
  }

  /** The letters and digits of `s`, in order. */
  function Filter(s: string): (r: string)
    ensures AllAlnum(r)
    ensures AllAlnum(s) ==> r == s
  {
    if s == [] then []
    else if IsAlnum(s[0]) then [s[0]] + Filter(s[1..])
    else Filter(s[1..])
  }

  /** Filtering keeps exactly the letters and digits. */
  lemma {:induction false} FilterKeepsExactlyAlnum(u: string)
    ensures forall c :: c in Filter(u) <==> c in u && IsAlnum(c)
    decreases |u|
  {
    if u != [] {
      FilterKeepsExactlyAlnum(u[1..]);
      assert u == [u[0]] + u[1..];
    }
  }

  /** Filtering distributes over concatenation. */
  lemma {:induction false} FilterAppend(u: string, v: string)
    ensures Filter(u + v) == Filter(u) + Filter(v)
    decreases |u|
  {
    if u == [] {
      assert u + v == v;
    } else {
      assert (u + v)[0] == u[0];
      assert (u + v)[1..] == u[1..] + v;
      FilterAppend(u[1..], v);
    }
  }

  /** The filtered form of every prefix of the list, in order. */
  function Filtered(prefixes: seq<string>): (r: seq<string>)
    ensures |r| == |prefixes|
    ensures forall i :: 0 <= i < |r| ==> r[i] == Filter(prefixes[i])
  {
    if prefixes == [] then [] else [Filter(prefixes[0])] + Filtered(prefixes[1..])
  }

  /**
    The inner loop of buildTrie: a character that is not a letter or digit is
    skipped and the walk stays on the current node; any other character follows
    or creates its edge; the node reached at the end is marked terminal.
   */
  function InsertSkipping(t: Trie, w: string): Trie
    decreases |w|
  {
    if w == [] then t.(terminal := true)
    else if !IsAlnum(w[0]) then InsertSkipping(t, w[1..])
    else
      var child := if w[0] in t.children then t.children[w[0]] else Empty;
      t.(children := t.children[w[0] := InsertSkipping(child, w[1..])])
  }

  /** buildTrie over the whole list, first prefix to last. */
  function BuildTrie(t: Trie, prefixes: seq<string>): Trie
    decreases |prefixes|
  {
    if prefixes == [] then t else BuildTrie(InsertSkipping(t, prefixes[0]), prefixes[1..])
  }

  /** Skipping while inserting is inserting the filtered string. */
  lemma {:induction false} InsertSkippingIsInsertFiltered(t: Trie, w: string)
    ensures InsertSkipping(t, w) == Insert(t, Filter(w))
    decreases |w|
  {
    if w != [] {
      if IsAlnum(w[0]) {
        var child := if w[0] in t.children then t.children[w[0]] else Empty;
        InsertSkippingIsInsertFiltered(child, w[1..]);
        assert Filter(w)[0] == w[0];
        assert Filter(w)[1..] == Filter(w[1..]);
      } else {
        InsertSkippingIsInsertFiltered(t, w[1..]);
      }
    }
  }

  /** Building with skipping is building from the filtered list. */
  lemma {:induction false} BuildTrieIsBuildFiltered(t: Trie, prefixes: seq<string>)
    ensures BuildTrie(t, prefixes) == Build(t, Filtered(prefixes))
    decreases |prefixes|
  {
    if prefixes != [] {
      InsertSkippingIsInsertFiltered(t, prefixes[0]);
      BuildTrieIsBuildFiltered(InsertSkipping(t, prefixes[0]), prefixes[1..]);
      assert Filtered(prefixes)[1..] == Filtered(prefixes[1..]);
    }
  }

  /**
    After buildTrie exactly the filtered forms of the listed prefixes (and what
    was there before) are contained; a duplicate changes nothing.
   */
  lemma BuildTrieContains(t: Trie, prefixes: seq<string>)
    ensures forall w :: Contains(BuildTrie(t, prefixes), w) <==> Contains(t, w) || w in Filtered(prefixes)
    ensures forall p :: p in prefixes ==> BuildTrie(t, prefixes + [p]) == BuildTrie(t, prefixes)
  {
    BuildTrieIsBuildFiltered(t, prefixes);
    forall w
      ensures Contains(BuildTrie(t, prefixes), w) <==> Contains(t, w) || w in Filtered(prefixes)
    {
      BuildContains(t, Filtered(prefixes), w);
    }
    forall p | p in prefixes
      ensures BuildTrie(t, prefixes + [p]) == BuildTrie(t, prefixes)
    {
      var i :| 0 <= i < |prefixes| && prefixes[i] == p;
      BuildTrieIsBuildFiltered(t, prefixes + [p]);
      assert Filtered(prefixes + [p]) == Filtered(prefixes) + [Filter(p)];
      assert Filtered(prefixes)[i] == Filter(p);
      BuildDuplicate(t, Filtered(prefixes), Filter(p));
    }
  }

  /** A trie built from nothing has an edge only for letters and digits. */
  lemma BuildTrieEdgesAreAlnum(prefixes: seq<string>, v: string)
    requires Find(BuildTrie(Empty, prefixes), v).Some?
    ensures AllAlnum(v)
  {
    BuildTrieIsBuildFiltered(Empty, prefixes);
    BuildPaths(Empty, Filtered(prefixes), v);
    if v != [] {
      EmptyHasOnlyRoot(v);
      var w :| w in Filtered(prefixes) && IsPrefix(v, w);
      assert forall i :: 0 <= i < |v| ==> v[i] == w[i];
    }
  }

  /**
    What findLongestPrefix has recorded after consuming `s[..i]`: a non-empty,
    contained, all-alphanumeric prefix of the input, or nothing, with no longer
    contained alphanumeric prefix of `s[..i]`.
   */
  predicate BestSoFar(root: Trie, s: string, i: nat, best: Option<string>)
    requires i <= |s|
  {
    && (best.Some? ==>
          0 < |best.value| <= i && IsPrefix(best.value, s)
          && AllAlnum(best.value) && Contains(root, best.value))
    && forall k :: MatchLength(best) < k <= i && AllAlnum(s[..k]) ==> !Contains(root, s[..k])
  }

  /**
    The lookup loop from position `i`: halt at the end of the input, at a
    character that is not a letter or digit, or at a missing edge; otherwise
    step to the child and record the consumed input when it is terminal.
   */
  function Scan(root: Trie, s: string, i: nat, node: Trie, best: Option<string>): (r: Option<string>)
    requires i <= |s|
    requires AllAlnum(s[..i])
    requires Find(root, s[..i]) == Some(node)
    requires BestSoFar(root, s, i, best)
    ensures BestSoFar(root, s, |s|, r)
    decreases |s| - i
  {
    if i == |s| then best
    else if !IsAlnum(s[i]) then
      assert forall k :: i < k <= |s| ==> !AllAlnum(s[..k]) by {
        forall k | i < k <= |s| ensures !AllAlnum(s[..k]) {
          assert s[..k][i] == s[i];
        }
      }
      best
    else if s[i] !in node.children then
      FindStep(root, s, i);
      assert forall k :: i < k <= |s| ==> Find(root, s[..k]).None? by {
        forall k | i < k <= |s| ensures Find(root, s[..k]).None? {
          FindDeadEnd(root, s, i + 1, k);
        }
      }
      best
    else
      var next := node.children[s[i]];
      FindStep(root, s, i);
      assert s[..i + 1] == s[..i] + [s[i]];
      Scan(root, s, i + 1, next, if next.terminal then Some(s[..i + 1]) else best)
  }

  /**
    The longest non-empty alphanumeric prefix of `input` that the trie
    contains, or `None`; the root's own terminal flag is never reported.
   */
  function FindLongestPrefix(root: Trie, input: string): (r: Option<string>)
    ensures r.Some? ==> r.value != [] && IsPrefix(r.value, input) && AllAlnum(r.value) && Contains(root, r.value)
    ensures forall k :: MatchLength(r) < k <= |input| && AllAlnum(input[..k]) ==> !Contains(root, input[..k])
  {
    Scan(root, input, 0, root, None)
  }

  /** At most one answer satisfies the contract of FindLongestPrefix. */
  lemma LongestMatchIsUnique(root: Trie, s: string, a: Option<string>, b: Option<string>)
    requires BestSoFar(root, s, |s|, a) && BestSoFar(root, s, |s|, b)
    ensures a == b
  {
    if a.Some? && b.Some? {
      PrefixesOfSameLength(a.value, b.value, s);
    }
  }

  /**
    On any trie that contains exactly the strings of `registered`, all of them
    alphanumeric, lookup answers the longest non-empty registered prefix that
    the input starts with, or `None`.
   */
  lemma LookupIsLongestContained(root: Trie, registered: seq<string>, input: string)
    requires forall w :: Contains(root, w) <==> w in registered
    requires forall p :: p in registered ==> AllAlnum(p)
    ensures FindLongestPrefix(root, input) == LongestRegisteredPrefix(registered, input)
  {
    var r := FindLongestPrefix(root, input);
    var m := LongestRegisteredPrefix(registered, input);
    if m.Some? {
      assert input[..|m.value|] == m.value;
      if r.Some? {
        assert input[..|r.value|] == r.value;
        PrefixesOfSameLength(r.value, m.value, input);
      }
    }
  }

  /** A trie built from `prefixes` into an empty trie contains exactly their filtered forms. */
  lemma BuiltContainsExactly(prefixes: seq<string>)
    ensures forall w :: Contains(BuildTrie(Empty, prefixes), w) <==> w in Filtered(prefixes)
    ensures forall p :: p in Filtered(prefixes) ==> AllAlnum(p)
  {
    BuildTrieContains(Empty, prefixes);
    forall w ensures !Contains(Empty, w) {
      EmptyHasOnlyRoot(w);
    }
  }

  /**
    On a trie built from `prefixes`, lookup answers the longest non-empty
    filtered prefix that the input starts with, or `None`.
   */
  lemma LookupIsLongestFilteredPrefix(prefixes: seq<string>, input: string)
    ensures FindLongestPrefix(BuildTrie(Empty, prefixes), input)
            == LongestRegisteredPrefix(Filtered(prefixes), input)
  {
    BuiltContainsExactly(prefixes);
    LookupIsLongestContained(BuildTrie(Empty, prefixes), Filtered(prefixes), input);
  }

  /** The first character that is not a letter or digit ends the lookup, whatever the trie holds. */
  lemma HaltsAtNonAlnum(root: Trie, s: string, i: nat)
    requires i < |s| && !IsAlnum(s[i])
    ensures FindLongestPrefix(root, s) == FindLongestPrefix(root, s[..i])
  {
    var a := FindLongestPrefix(root, s);
    var b := FindLongestPrefix(root, s[..i]);
    if b.Some? {
      assert s[..i][..|b.value|] == s[..|b.value|];
    }
    forall k | MatchLength(b) < k <= |s| && AllAlnum(s[..k]) ensures !Contains(root, s[..k]) {
      if k <= i {
        assert s[..i][..k] == s[..k];
      }
    }
    LongestMatchIsUnique(root, s, a, b);
  }

  /** Once the walk falls off the trie, the characters after that point cannot change the answer. */
  lemma StopsAtMissingEdge(root: Trie, s: string, i: nat)
    requires i <= |s|
    requires Find(root, s[..i]).None?
    ensures FindLongestPrefix(root, s) == FindLongestPrefix(root, s[..i])
  {
    var a := FindLongestPrefix(root, s);
    var b := FindLongestPrefix(root, s[..i]);
    if b.Some? {
      assert s[..i][..|b.value|] == s[..|b.value|];
    }
    forall k | MatchLength(b) < k <= |s| && AllAlnum(s[..k]) ensures !Contains(root, s[..k]) {
      if k <= i {
        assert s[..i][..k] == s[..k];
      } else {
        FindDeadEnd(root, s, i, k);
      }
    }
    LongestMatchIsUnique(root, s, a, b);
  }

  /** An all-alphanumeric prefix of `p` is at most as long as the filtered form of `p`. */
  lemma AlnumPrefixWithinFilter(p: string, k: nat)
    requires k <= |p| && AllAlnum(p[..k])
    ensures k <= |Filter(p)|
  {
    assert p == p[..k] + p[k..];
    FilterAppend(p[..k], p[k..]);
  }

  /**
    A stored prefix `p` is found from its own spelling, as its filtered form,
    exactly when that filtered form is non-empty and starts `p`, that is, when
    `p` has a letter or digit and every skipped character comes after its last
    letter or digit: "PRD-" is found as "PRD", while "API-key" (stored as
    "APIkey") and "---" (stored as nothing) are not.
   */
  lemma SkippedCharactersAsymmetry(prefixes: seq<string>, p: string)
    requires p in prefixes
    ensures FindLongestPrefix(BuildTrie(Empty, prefixes), p) == Some(Filter(p))
            <==> Filter(p) != [] && IsPrefix(Filter(p), p)
  {
    var t := BuildTrie(Empty, prefixes);
    var r := FindLongestPrefix(t, p);
    if Filter(p) != [] && IsPrefix(Filter(p), p) {
      var n := |Filter(p)|;
      var i :| 0 <= i < |prefixes| && prefixes[i] == p;
      assert Filtered(prefixes)[i] == Filter(p);
      BuiltContainsExactly(prefixes);
      assert p[..n] == Filter(p);
      assert r.Some? && n <= |r.value|;
      assert p[..|r.value|] == r.value;
      AlnumPrefixWithinFilter(p, |r.value|);
    }
  }

  /**
    On the trie built from `p` alone, looking `p` up gives its filtered form
    when that form is non-empty and starts `p`, and `None` otherwise.
   */
  lemma SkippedCharactersAsymmetryAlone(p: string)
    ensures FindLongestPrefix(BuildTrie(Empty, [p]), p)
            == if Filter(p) != [] && IsPrefix(Filter(p), p) then Some(Filter(p)) else None
  {
    LookupIsLongestFilteredPrefix([p], p);
    assert Filtered([p]) == [Filter(p)];
    if Filter(p) != [] && IsPrefix(Filter(p), p) {
      LongestRegisteredPrefixIsMaximal([Filter(p)], p, Filter(p));
    }
  }

  /** An all-alphanumeric, non-empty listed prefix given as input is found exactly. */
  lemma ExactMatch(prefixes: seq<string>, p: string)
    requires p in prefixes && p != [] && AllAlnum(p)
    ensures FindLongestPrefix(BuildTrie(Empty, prefixes), p) == Some(p)
  {
    var i :| 0 <= i < |prefixes| && prefixes[i] == p;
    assert Filtered(prefixes)[i] == p;
    LookupIsLongestFilteredPrefix(prefixes, p);
    LongestRegisteredPrefixIsMaximal(Filtered(prefixes), p, p);
  }
}

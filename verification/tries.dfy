/**
  The prefix tree shared by both matchers: a node owns a map from character
  to child and a flag saying whether the path to it spells a registered prefix.
 */
module Tries {
  import opened Wrappers
  import opened Prefixes

  datatype Trie = Node(children: map<char, Trie>, terminal: bool)

  /** A freshly constructed node: no children, not terminal. */
  const Empty: Trie := Node(map[], false)

  /** The node reached from `t` along the edges spelled by `w`, if they all exist. */
  function Find(t: Trie, w: string): Option<Trie>
    decreases |w|
  {
    if w == [] then Some(t)
    else if w[0] in t.children then Find(t.children[w[0]], w[1..])
    else None
  }

  /** `w` spells a path from `t` that ends on a terminal node. */
  predicate Contains(t: Trie, w: string) {
    Find(t, w).Some? && Find(t, w).value.terminal
  }

  /**
    Insertion of one prefix: follow or create the edge for every character in
    order (an existing child is reused), then mark the last node terminal.
   */
  function Insert(t: Trie, w: string): Trie
    decreases |w|
  {
    if w == [] then t.(terminal := true)
    else
      var child := if w[0] in t.children then t.children[w[0]] else Empty;
      t.(children := t.children[w[0] := Insert(child, w[1..])])
  }

  /** Insertion of every string of `ws`, first to last. */
  function Build(t: Trie, ws: seq<string>): Trie
    decreases |ws|
  {
    if ws == [] then t else Build(Insert(t, ws[0]), ws[1..])
  }

  /** Following `u` then `v` is following `u + v`. */
  lemma {:induction false} FindAppend(t: Trie, u: string, v: string)
    ensures Find(t, u + v) == if Find(t, u).None? then None else Find(Find(t, u).value, v)
    decreases |u|
  {
    if u == [] {
      assert u + v == v;
    } else {
      assert (u + v)[0] == u[0];
      assert (u + v)[1..] == u[1..] + v;
      if u[0] in t.children {
        FindAppend(t.children[u[0]], u[1..], v);
      }
    }
  }

  /** One more character takes one more edge, or falls off the trie. */
  lemma FindStep(t: Trie, s: string, i: nat)
    requires i < |s|
    ensures Find(t, s[..i + 1]) ==
      if Find(t, s[..i]).None? || s[i] !in Find(t, s[..i]).value.children then None
      else Some(Find(t, s[..i]).value.children[s[i]])
  {
    assert s[..i + 1] == s[..i] + [s[i]];
    FindAppend(t, s[..i], [s[i]]);
  }

  /** Once a path falls off the trie, every extension of it does too. */
  lemma FindDeadEnd(t: Trie, s: string, i: nat, k: nat)
    requires i <= k <= |s|
    requires Find(t, s[..i]).None?
    ensures Find(t, s[..k]).None?
  {
    assert s[..k] == s[..i] + s[i..k];
    FindAppend(t, s[..i], s[i..k]);
  }

  /** The empty trie has no edges and no terminal node. */
  lemma EmptyHasOnlyRoot(w: string)
    ensures Find(Empty, w) == if w == [] then Some(Empty) else None
    ensures !Contains(Empty, w)
  {
  }

  /** After inserting `w`, exactly `w` and the previously contained strings are contained. */
  lemma {:induction false} InsertContains(t: Trie, w: string, v: string)
    ensures Contains(Insert(t, w), v) <==> Contains(t, v) || v == w
    decreases |w|
  {
    if w != [] && v != [] && v[0] == w[0] {
      var child := if w[0] in t.children then t.children[w[0]] else Empty;
      InsertContains(child, w[1..], v[1..]);
      if w[0] !in t.children {
        EmptyHasOnlyRoot(v[1..]);
      }
      assert v == w <==> v[1..] == w[1..];
    }
  }

  /** Inserting `w` creates exactly the paths spelled by prefixes of `w`. */
  lemma {:induction false} InsertPaths(t: Trie, w: string, v: string)
    ensures Find(Insert(t, w), v).Some? <==> Find(t, v).Some? || IsPrefix(v, w)
    decreases |w|
  {
    if w != [] && v != [] && v[0] == w[0] {
      var child := if w[0] in t.children then t.children[w[0]] else Empty;
      InsertPaths(child, w[1..], v[1..]);
      if w[0] !in t.children {
        EmptyHasOnlyRoot(v[1..]);
      }
      assert IsPrefix(v, w) <==> IsPrefix(v[1..], w[1..]);
    }
  }

  /** Re-inserting a contained string leaves the trie exactly as it was. */
  lemma {:induction false} InsertPresent(t: Trie, w: string)
    requires Contains(t, w)
    ensures Insert(t, w) == t
    decreases |w|
  {
    if w != [] {
      var child := t.children[w[0]];
      InsertPresent(child, w[1..]);
      assert t.children[w[0] := child] == t.children;
    }
  }

  /** After building, exactly the strings of `ws` and those contained before are contained. */
  lemma {:induction false} BuildContains(t: Trie, ws: seq<string>, v: string)
    ensures Contains(Build(t, ws), v) <==> Contains(t, v) || v in ws
    decreases |ws|
  {
    if ws != [] {
      BuildContains(Insert(t, ws[0]), ws[1..], v);
      InsertContains(t, ws[0], v);
      assert v in ws <==> v == ws[0] || v in ws[1..];
    }
  }

  /** Building adds a path only along some prefix of a string of `ws`. */
  lemma {:induction false} BuildPaths(t: Trie, ws: seq<string>, v: string)
    requires Find(Build(t, ws), v).Some?
    ensures Find(t, v).Some? || exists w :: w in ws && IsPrefix(v, w)
    decreases |ws|
  {
    if ws != [] {
      BuildPaths(Insert(t, ws[0]), ws[1..], v);
      InsertPaths(t, ws[0], v);
    }
  }

  /** Building from strings that are all contained already changes nothing. */
  lemma {:induction false} BuildPresent(t: Trie, ws: seq<string>)
    requires forall w :: w in ws ==> Contains(t, w)
    ensures Build(t, ws) == t
    decreases |ws|
  {
    if ws != [] {
      InsertPresent(t, ws[0]);
      BuildPresent(t, ws[1..]);
    }
  }

  /** Building from `ws + vs` is building from `ws`, then from `vs`. */
  lemma {:induction false} BuildAppend(t: Trie, ws: seq<string>, vs: seq<string>)
    ensures Build(t, ws + vs) == Build(Build(t, ws), vs)
    decreases |ws|
  {
    if ws == [] {
      assert ws + vs == vs;
    } else {
      assert (ws + vs)[1..] == ws[1..] + vs;
      BuildAppend(Insert(t, ws[0]), ws[1..], vs);
    }
  }

  /** Loading the same list a second time yields the identical trie. */
  lemma BuildTwice(t: Trie, ws: seq<string>)
    ensures Build(Build(t, ws), ws) == Build(t, ws)
  {
    forall w | w in ws
      ensures Contains(Build(t, ws), w)
    {
      BuildContains(t, ws, w);
    }
    BuildPresent(Build(t, ws), ws);
  }

  /** Appending a duplicate of an already listed string changes nothing. */
  lemma BuildDuplicate(t: Trie, ws: seq<string>, w: string)
    requires w in ws
    ensures Build(t, ws + [w]) == Build(t, ws)
  {
    BuildAppend(t, ws, [w]);
    BuildContains(t, ws, w);
    InsertPresent(Build(t, ws), w);
  }
}

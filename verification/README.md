# Longest-prefix matching: a Dafny model

This project models the core of a Java prefix matcher. A list of prefixes is
loaded once into a prefix tree (trie). After that, each input string is answered
with the longest loaded prefix it starts with. A batch of inputs is answered as
a map from each input to its answer.

The repository has two tries, and the model covers both:

- **`TriePrefixMatcher`**, the plain trie. Every character of a prefix becomes an
  edge. A lookup that reaches no terminal node answers `""`.
  `LongestPrefixMatchService` wraps it.
- **`PrefixTrie`**, the filtering trie. Building *skips* every character that is not
  a letter or digit. Lookup *halts* at the first such character. A lookup that
  reaches no terminal node answers `null` (modelled as `None`).
  `PrefixMatchingService` wraps it. That service checks a configured strategy name
  and replaces `null` in batch answers with the message `"No matching prefix found"`.

Both Java `TrieNode` classes become one immutable datatype,
`Tries.Trie = Node(children: map<char, Trie>, terminal: bool)`. Insertion and
building are pure functions over it:

- `Tries.Insert` is `TriePrefixMatcher.insert`.
- `Tries.Build` is `TriePrefixMatcher.loadPrefixes`, which
  `TriePrefixMatcher.LoadPrefixes` wraps.
- `PrefixTrie.InsertSkipping` is the body of `PrefixTrie.buildTrie`'s outer
  loop, and `PrefixTrie.BuildTrie` is all of `buildTrie`.
- `TriePrefixMatcher.FindLongestMatchingPrefix` is `findLongestMatchingPrefix`.
- `PrefixTrie.FindLongestPrefix` is `findLongestPrefix`.

The table below lists the lemmas and contracts about these functions. The Java lookup loops become tail-recursive
`Scan` functions that carry the loop state: the current node, the position and
the best match recorded so far. Because these are pure functions, a lookup cannot
change the trie, and repeated lookups give identical answers.

Every lookup is proved against a trie-free specification,
`Prefixes.LongestRegisteredPrefix`. It returns the longest non-empty registered
string that the input starts with, found by a search from the longest candidate
down. The main results:

- Plain trie: the answer is the longest loaded prefix the input starts with, or
  `""` (`TriePrefixMatcher.LookupIsLongestLoadedPrefix`).
- Filtering trie: the answer is the longest non-empty *filtered* prefix the input
  starts with, or `None` (`PrefixTrie.LookupIsLongestFilteredPrefix`).
  - Every filtered prefix consists of letters and digits only. So "halt at a
    non-alphanumeric character" never cuts off a reachable answer.
  - The build/lookup asymmetry shows up as a plain consequence. Take a prefix
    stored among any others. Looking up its own spelling answers its filtered
    form exactly when it has at least one letter or digit and all its skipped
    characters come after its last letter or digit
    (`PrefixTrie.SkippedCharactersAsymmetry`). "PRD-" is found as "PRD".
    "API-key" (stored as "APIkey") and "---" (stored as nothing) are not found.

Modules (one file each):

- `wrappers.dfy`: `Option` stands for Java `null`; `Result` stands for exceptions.
- `prefixes.dfy`: the trie-free specification.
- `tries.dfy`: the trie datatype, insertion and building.
- `trie_prefix_matcher.dfy`: the plain trie.
- `prefix_trie.dfy`: the filtering trie.
- `longest_prefix_match_service.dfy`: the service around the plain trie.
- `prefix_matching_service.dfy`: the service around the filtering trie.
- `examples.dfy`: fixtures from the repository's tests, derived from the general
  theorems.

Behaviour of the code worth knowing:

- **Skipping.** Building skips a non-alphanumeric character and carries on
  with the next one (`continue`, `PrefixTrie.java:29`). Lookup halts at one.
- **"No match" values.** The code has three no-match values: `""` on the plain
  path, `null` for single lookups on the filtering path, and the message
  `"No matching prefix found"` for filtering batches. Each keeps its own value
  here.
- **A test fixture.** `PrefixTrieTest.java:31` expects `null` for `"applepie"`,
  but that fixture also stores `"app"`. The code answers `"app"`, and so does the
  model (`Examples.FilteredCaseSensitive`). With `"Apple"` as the only stored
  prefix the answer is `null` (`Examples.FilteredCaseMismatch`).

## Model

| member | source | states |
|---|---|---|
| `Tries.InsertContains` | src/main/java/org/truecaller/prefixmatcher/TriePrefixMatcher.java:21-27 | after inserting `w`, the trie contains exactly what it contained before plus `w` |
| `Tries.InsertPaths` | src/main/java/org/truecaller/prefixmatcher/TriePrefixMatcher.java:21-27 | insertion creates exactly the paths spelled by prefixes of the inserted string, and removes none |
| `Tries.InsertPresent` | src/main/java/org/truecaller/prefixmatcher/TriePrefixMatcher.java:23-26 | existing children are reused, so re-inserting a contained string leaves the trie identical |
| `Tries.BuildContains` | src/main/java/org/truecaller/prefixmatcher/TriePrefixMatcher.java:34-38 | after loading a list, the trie contains exactly the listed strings plus what it held before |
| `Tries.BuildPaths` | src/main/java/org/truecaller/prefixmatcher/TriePrefixMatcher.java:34-38 | loading adds a path only along a prefix of some listed string |
| `Tries.BuildPresent` | src/main/java/org/truecaller/prefixmatcher/TriePrefixMatcher.java:34-38 | loading strings that are all contained already changes nothing |
| `Tries.BuildAppend` | src/main/java/org/truecaller/prefixmatcher/TriePrefixMatcher.java:34-38 | loading `ws + vs` is loading `ws` and then `vs` |
| `Tries.BuildTwice` | src/main/java/org/truecaller/prefixmatcher/TriePrefixMatcher.java:34-38 | loading the same list twice gives the identical trie (idempotent build) |
| `Tries.BuildDuplicate` | src/main/java/org/truecaller/prefixmatcher/TriePrefixMatcher.java:34-38 | a duplicate at the end of the list changes nothing |
| `TriePrefixMatcher.LoadPrefixes` | src/main/java/org/truecaller/prefixmatcher/TriePrefixMatcher.java:34-38 | every loaded prefix afterwards spells a terminal path, and nothing else becomes terminal |
| `TriePrefixMatcher.InsertAddsEveryCharacter` | src/main/java/org/truecaller/prefixmatcher/TriePrefixMatcher.java:21-27 | without filtering, every prefix of the inserted string becomes a path, and exactly the inserted string becomes terminal |
| `TriePrefixMatcher.Scan` | src/main/java/org/truecaller/prefixmatcher/TriePrefixMatcher.java:50-63 | from any loop state, the loop ends with the longest contained prefix of the whole input, or "" |
| `TriePrefixMatcher.FindLongestMatchingPrefix` | src/main/java/org/truecaller/prefixmatcher/TriePrefixMatcher.java:45-65 | the answer is a prefix of the input; it is "" or contained; no longer prefix of the input is contained |
| `TriePrefixMatcher.LongestMatchIsUnique` | src/main/java/org/truecaller/prefixmatcher/TriePrefixMatcher.java:45-65 | that contract determines the answer uniquely |
| `TriePrefixMatcher.LookupIsLongestContained` | src/main/java/org/truecaller/prefixmatcher/TriePrefixMatcher.java:45-65 | on any trie holding exactly a list of strings, the answer is the longest listed string the input starts with, or "" |
| `TriePrefixMatcher.LoadedContainsExactly` | src/main/java/org/truecaller/prefixmatcher/TriePrefixMatcher.java:34-38 | loading a list into an empty matcher stores exactly that list |
| `TriePrefixMatcher.LookupIsLongestLoadedPrefix` | src/main/java/org/truecaller/prefixmatcher/TriePrefixMatcher.java:34-65 | on a loaded trie, the answer is the longest loaded prefix the input starts with, or "" |
| `TriePrefixMatcher.ExactMatch` | src/main/java/org/truecaller/prefixmatcher/TriePrefixMatcher.java:60-62 | an input equal to a loaded prefix is answered with exactly that prefix |
| `TriePrefixMatcher.NoMatchIsEmpty` | src/main/java/org/truecaller/prefixmatcher/TriePrefixMatcher.java:47 | the answer is "" if and only if no non-empty loaded prefix starts the input |
| `TriePrefixMatcher.StopsAtMissingEdge` | src/main/java/org/truecaller/prefixmatcher/TriePrefixMatcher.java:51-55 | after the first missing edge, later input characters cannot change the answer |
| `PrefixTrie.Filter` | src/main/java/org/truecaller/prefixmatcher/models/trie/PrefixTrie.java:27-29 | the kept characters are all letters or digits, and an all-alphanumeric string is kept whole |
| `PrefixTrie.FilterKeepsExactlyAlnum` | src/main/java/org/truecaller/prefixmatcher/models/trie/PrefixTrie.java:27-29 | a character survives filtering if and only if it occurs in the input and is a letter or digit |
| `PrefixTrie.FilterAppend` | src/main/java/org/truecaller/prefixmatcher/models/trie/PrefixTrie.java:27-29 | skipping is per character, so filtering distributes over concatenation |
| `PrefixTrie.InsertSkippingIsInsertFiltered` | src/main/java/org/truecaller/prefixmatcher/models/trie/PrefixTrie.java:24-41 | inserting one prefix while skipping non-alphanumeric characters equals inserting its filtered form |
| `PrefixTrie.BuildTrieIsBuildFiltered` | src/main/java/org/truecaller/prefixmatcher/models/trie/PrefixTrie.java:21-42 | buildTrie equals loading the filtered list in order |
| `PrefixTrie.BuildTrieContains` | src/main/java/org/truecaller/prefixmatcher/models/trie/PrefixTrie.java:21-42 | after buildTrie, exactly the filtered forms of the listed prefixes are contained, and a duplicate prefix changes nothing |
| `PrefixTrie.BuildTrieEdgesAreAlnum` | src/main/java/org/truecaller/prefixmatcher/models/trie/PrefixTrie.java:27-34 | a built trie never has an edge for a character that is not a letter or digit |
| `PrefixTrie.Scan` | src/main/java/org/truecaller/prefixmatcher/models/trie/PrefixTrie.java:57-78 | from any loop state, the loop ends with the longest contained all-alphanumeric non-empty prefix of the input, or None |
| `PrefixTrie.FindLongestPrefix` | src/main/java/org/truecaller/prefixmatcher/models/trie/PrefixTrie.java:51-80 | a result is non-empty, alphanumeric, a prefix of the input and contained (never "", even when the root is terminal); no longer alphanumeric prefix of the input is contained |
| `PrefixTrie.LongestMatchIsUnique` | src/main/java/org/truecaller/prefixmatcher/models/trie/PrefixTrie.java:51-80 | that contract determines the answer uniquely |
| `PrefixTrie.LookupIsLongestContained` | src/main/java/org/truecaller/prefixmatcher/models/trie/PrefixTrie.java:51-80 | on any trie holding exactly a list of alphanumeric strings, the answer is the longest non-empty listed string the input starts with, or None |
| `PrefixTrie.BuiltContainsExactly` | src/main/java/org/truecaller/prefixmatcher/models/trie/PrefixTrie.java:21-42 | building from a list stores exactly the filtered list, every stored string alphanumeric |
| `PrefixTrie.LookupIsLongestFilteredPrefix` | src/main/java/org/truecaller/prefixmatcher/models/trie/PrefixTrie.java:21-80 | on a built trie, the answer is the longest non-empty filtered prefix the input starts with, or None |
| `PrefixTrie.HaltsAtNonAlnum` | src/main/java/org/truecaller/prefixmatcher/models/trie/PrefixTrie.java:57-59 | for any trie, input after the first non-alphanumeric character cannot change the answer |
| `PrefixTrie.StopsAtMissingEdge` | src/main/java/org/truecaller/prefixmatcher/models/trie/PrefixTrie.java:64-68 | after the first missing edge, later input characters cannot change the answer |
| `PrefixTrie.SkippedCharactersAsymmetry` | src/main/java/org/truecaller/prefixmatcher/models/trie/PrefixTrie.java:21-80 | on a trie built from any list holding `p`, looking up `p` answers `Filter(p)` if and only if `Filter(p)` is non-empty and a prefix of `p` |
| `PrefixTrie.SkippedCharactersAsymmetryAlone` | src/main/java/org/truecaller/prefixmatcher/models/trie/PrefixTrie.java:21-80 | on the trie built from `p` alone, looking up `p` answers `Filter(p)` when that is non-empty and a prefix of `p`, and None otherwise |
| `PrefixTrie.ExactMatch` | src/main/java/org/truecaller/prefixmatcher/models/trie/PrefixTrie.java:70-77 | a non-empty all-alphanumeric listed prefix, given as input, is answered with itself |
| `LongestPrefixMatchService.CreateMatcherInstance` | src/main/java/org/truecaller/LongestPrefixMatchService.java:41-46 | whatever approach is requested, the new matcher is an empty trie |
| `LongestPrefixMatchService.NewService` | src/main/java/org/truecaller/LongestPrefixMatchService.java:28-36 | the constructed matcher contains exactly the constructor's prefixes |
| `LongestPrefixMatchService.MatchSingleIsLongestLoadedPrefix` | src/main/java/org/truecaller/LongestPrefixMatchService.java:53-55 | a single lookup answers the longest loaded prefix of the input, or "", whatever the approach |
| `LongestPrefixMatchService.MatchConcurrentStrings` | src/main/java/org/truecaller/LongestPrefixMatchService.java:62-90 | the batch's keys are exactly the distinct inputs (an empty list gives an empty map); each value is the single lookup of its key; there are at most as many entries as inputs |
| `PrefixMatchingService.Create` | src/main/java/org/truecaller/prefixmatcher/service/PrefixMatchingService.java:46-82 | a prefix-file failure is reported first; otherwise construction succeeds if and only if the strategy spells TRIE in any case; the error carries the upper-cased strategy; a built service contains exactly the filtered prefixes |
| `PrefixMatchingService.MatchSingleIsLongestFilteredPrefix` | src/main/java/org/truecaller/prefixmatcher/service/PrefixMatchingService.java:140-142 | a single lookup is the trie's answer, the longest non-empty filtered prefix or None |
| `PrefixMatchingService.MatchAll` | src/main/java/org/truecaller/prefixmatcher/service/PrefixMatchingService.java:101-132 | the keys are exactly the input set; a value is the match when there is one; a value is the message if and only if there is no match |
| `Examples.SampleLoaded` | src/test/java/org/truecaller/prefixmatcher/TriePrefixMatcherTest.java:21-33 | the matcher loaded from the sample prefixes holds exactly them, so the lookups below apply to it |
| `Examples.MixedBuilt` | src/test/java/org/truecaller/prefixmatcher/models/trie/PrefixTrieTest.java:15-24 | the trie built from the mixed-case fixture holds exactly it, so the lookups below apply to it |
| `Examples.PlainStopsInsideLongerPrefix` | src/test/java/org/truecaller/prefixmatcher/TriePrefixMatcherTest.java:73 | on any trie holding exactly the sample prefixes, "applx_test" gives "app" |
| `Examples.PlainLongestOfNested` | src/test/java/org/truecaller/prefixmatcher/TriePrefixMatcherTest.java:42 | on the same tries, "application_server" gives "application" |
| `Examples.PlainShorterThanPrefix` | src/test/java/org/truecaller/prefixmatcher/TriePrefixMatcherTest.java:97 | on the same tries, "fo" (stored "foo") gives "" |
| `Examples.FilteredCaseSensitive` | src/test/java/org/truecaller/prefixmatcher/models/trie/PrefixTrieTest.java:31 | on any trie holding exactly the mixed-case fixture, "applepie" gives "app", not the null the test expects |
| `Examples.FilteredCaseMismatch` | src/main/java/org/truecaller/prefixmatcher/models/trie/PrefixTrie.java:31 | on any trie holding only "Apple", "applepie" gives None: no case folding |
| `Examples.FilteredHaltsAtDash` | src/test/java/org/truecaller/prefixmatcher/models/trie/PrefixTrieTest.java:75 | on tries holding exactly the mixed-case fixture, "API-KEY-123" gives None although "APIkey" is stored |
| `Examples.SkippedDashUnreachable` | src/main/java/org/truecaller/prefixmatcher/models/trie/PrefixTrie.java:27-59 | "API-key" is stored as "APIkey" and its own spelling finds nothing |

## Left out

- Worker pools: `invokeAll`, `Future.get`, interruption handling, and the
  `shutdown` grace period and escalation in both services are not modelled.
  Batches are sequential, and pool sizes and timeouts have no counterpart.
- Batch task failures: `ExecutionException` and `InterruptedException` wrapped
  into a `RuntimeException` cannot arise, because lookups here are total pure
  functions.
- Null values: none of these `NullPointerException`s can arise, because Dafny
  values are never null:
  - a null input string;
  - a null `MatcherApproach` (the `switch` at `LongestPrefixMatchService.java:42`);
  - a null element in a prefix list.
- Configuration: `ConfigManager` / `AppConfig` (YAML via SnakeYAML) and the
  lazily built singleton holder are not modelled. The strategy name and the
  loaded prefix list are parameters of `PrefixMatchingService.Create`.
- File loaders: both `PrefixLoader` classes (file I/O, trim, drop blank lines)
  are not modelled. `Create` receives the loaded list, or `None` when reading
  the file failed.
- CLI and REPL: `LongestPrefixMatchCLI`, `Main` and logging are console I/O.
- Interfaces: both `PrefixMatcher` interfaces and `PrefixMatching` are contracts
  only.
- `PrefixMatcherUsingTrie` is inlined: the service calls the trie directly.
- `PrefixMatcherServiceUsingTrie`, a near-duplicate of `matchAll` with the
  message "No match", is not modelled.
- `MatcherApproach.java` is not part of this model. Every approach other than
  `TRIE` is one `Other` case; the code ignores the value anyway.
- PrefixTrie.IsAlnum: letters and digits are ASCII only. Java's
  `Character.isLetterOrDigit` also accepts non-ASCII letters and digits (for
  example `é`), which this model skips or halts on.
- PrefixMatchingService.Create: upper-casing is ASCII only. Java's
  `toUpperCase()` uses the default locale. It also maps, for example, the
  dotless `ı` (U+0131) to `I`, so Java accepts "trıe" and the model does not.
  Under a Turkish locale Java maps "trie" to "TRİE" and rejects it, while the
  model accepts it.
- Characters: a Java `char` is a UTF-16 code unit, while a Dafny `char` is a
  Unicode scalar value. Inputs outside the Basic Multilingual Plane are walked
  one scalar at a time here rather than one surrogate at a time.
- Lookups are read-only and repeatable by construction, because they are pure
  functions of an immutable value. No lemma states this separately.

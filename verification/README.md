# Open reading frames: a suffix trie over the letters A–D

This project models `ORF.py`, which indexes a genome over the letters
'A'–'D' and answers two queries on it:

- `OrfNode` is one trie node. It has four child slots, one per letter
  (`char_index` maps a letter to its slot). It also keeps a list of
  `(start, end)` occurrence markers and a `gen_end` flag.
- `OrfFinder.insert` runs at construction. It inserts every suffix of the
  genome, in increasing order of start. Each node the suffix passes gets the
  marker `(i, j)`, and the node where it ends gets `gen_end`.
- `OrfFinder.search(sequence)` walks the trie. It returns the start of every
  marker at the node it reaches, or `[]` as soon as a slot is empty.
- `OrfFinder.find(start, end)` searches for `start`. For every hit `s` it
  tries each later offset `e` from `s + |start|` to `N - |end|`, and compares
  `end` letter by letter. On a full match it collects `genome[s .. e + |end|)`.

The trie is an immutable recursive datatype (`SuffixTrie.OrfNode`, children
as a sequence of four `Option`s). Insertion is a pure fold over the
suffixes. `Search` is a pure function. `Find` is a method whose nested loops
follow the source.

Both queries are proved against reference definitions:

- `Occurrences.OccursAt` says a word occurs at a given offset.
- `Occurrences.OccIn` and `Occ` list the ascending offsets where a word occurs.
- `Finder.MatchPairs` lists the `(s, e)` pairs that `find` accepts, in the
  order it emits them. Lemmas characterise it by membership and by order.

The trie invariant (`SuffixTrie.NodeInv`, `RootInv`) says what the trie
holds after the suffixes `0..i-1` have been inserted:

- The node at path `p` exists exactly when `p` occurs at a start below `i`.
- Its markers are exactly `(s, s + |p| - 1)` for those starts, ascending.
- Its `gen_end` is set exactly when one of those suffixes is `p` itself.

Modules: `Alphabet` (letters and `char_index`), `Occurrences` (reference
definitions), `SuffixTrie` (node, insertion, walk, invariant), `Finder`
(`OrfFinder`, `search`, `find`), `Scenarios` (the docstrings' worked
examples).

Where this description and the code disagree, the model follows the code:

- `find` does not require `end` to be non-empty. With an empty `end`, every
  `e` from `s + |start|` to `N` matches, so the result includes
  `genome[s .. e)` for each of them.
- `end` is only compared with the genome, never turned into a slot index,
  so it is not required to be over 'A'–'D'.
- With an empty `start`, `find` returns nothing, because `search("")` is `[]`.

## Model

| member | source | states |
|---|---|---|
| Alphabet.CharIndex | ORF.py:40-51 | a letter 'A'–'D' maps to a slot below 4 whose letter is the input, and no other slot holds that letter; letters outside the alphabet are excluded by the precondition |
| SuffixTrie.NewNode | ORF.py:35-37 | a new node has four empty child slots, no markers and `gen_end` unset |
| SuffixTrie.NewNodeInv | ORF.py:35-37 | a fresh node (no children, no markers, `gen_end` 0) is the correct node for any word that has not occurred yet |
| SuffixTrie.InsertSuffix | ORF.py:138-155 | inserting one suffix keeps four slots at every node, never adds a marker to the node the walk starts from, and sets `gen_end` only on the node where the suffix ends |
| SuffixTrie.InsertSuffixInv | ORF.py:141-155 | inserting suffix `i` turns the trie invariant for the suffixes before `i` into the invariant for the suffixes up to `i`: a marker `(i, j)` at each node passed, a new node where a slot was empty, `gen_end` at the end, and every other subtree unchanged in meaning |
| SuffixTrie.InsertFrom | ORF.py:137-155 | the outer loop over the remaining suffixes keeps four slots at every node and never adds a marker to the root; what the trie then holds is stated by `InsertFromInv` |
| SuffixTrie.InsertFromInv | ORF.py:137-155 | the outer loop over the remaining suffixes establishes the trie invariant for the whole genome |
| SuffixTrie.Build | ORF.py:81-84 | the trie the constructor builds has four slots at every node; its contents are stated by `BuildInv` |
| SuffixTrie.BuildInv | ORF.py:81-84 | the trie built by the constructor satisfies the invariant for all suffixes; the root has no markers and no `gen_end` |
| SuffixTrie.Walk | ORF.py:205-209 | the walk lands, if anywhere, on a node with four slots, and the empty query stays at the node it starts from; where it lands is stated by `WalkInv` |
| SuffixTrie.WalkInv | ORF.py:201-209 | walking a non-empty word from a node succeeds exactly when the extended path occurs, and lands on that path's node |
| SuffixTrie.BuiltNode | ORF.py:137-152 | in the built trie, the path of a non-empty word exists exactly when the word occurs in the genome, and its node holds exactly one marker per occurrence, ascending by start |
| SuffixTrie.MarkersAreOccurrences | ORF.py:141-152 | every marker `(s, e)` at the node of path `p` has `e = s + |p| - 1` and the genome spells `p` from `s`; every occurrence has its marker; starts are strictly increasing |
| SuffixTrie.EverySubstringIndexed | ORF.py:137-152 | for every `0 <= i <= j < N` the path spelling `genome[i..j]` (inclusive) exists and its node holds `(i, j)` |
| SuffixTrie.GenEndMarksSuffixes | ORF.py:154-155 | a node has `gen_end` exactly when its path is a non-empty suffix of the genome; the root never has it and never receives a marker |
| Finder.NewOrfFinder | ORF.py:63-84 | the constructor keeps the genome and holds the trie built from all its suffixes |
| Finder.FoundOccurrences | ORF.py:211-215 | reading the starts off the landed node gives the ascending occurrences of a non-empty query, and `[]` for the empty query |
| Finder.Search | ORF.py:157-215 | the result contains exactly the offsets where a non-empty query occurs, strictly ascending; the empty query yields `[]` |
| Finder.MatchPairs | ORF.py:275-278 | every accepted pair `(s, e)` satisfies `s <= e + |end| <= N`, so the substring `find` copies for it lies inside the genome |
| Finder.MatchPairsMember | ORF.py:275-293 | a pair `(s, e)` is accepted exactly when `s` is a prefix hit, `e >= s + |start|` and `end` occurs at `e` |
| Finder.MatchPairsSorted | ORF.py:275-278 | for ascending prefix hits, the accepted pairs come in ascending `s`, then ascending `e`, with no duplicates |
| Finder.MatchesAt | ORF.py:284-289 | the letter-by-letter comparison with early exit reports a match exactly when `end` occurs at `e` |
| Finder.CopySlice | ORF.py:290-293 | the copy loop yields the genome's letters from `s` up to `e + |end|`, in order |
| Finder.ScanEnds | ORF.py:278-293 | the scan for one prefix hit `s` yields `genome[s .. e + |end|)` for every `e` in `[s + |start|, N - |end|]` where `end` occurs, ascending |
| Finder.Find | ORF.py:259-295 | `find` returns `Substrings`: the substrings `genome[s .. e + |end|)` of the accepted pairs `(s, e)`, in order; each begins with `start`, ends with `end` and is at least as long as both; the result is empty when `start` is empty or `|start| + |end| > N` |
| Finder.FindShape | ORF.py:290-293 | each substring collected for an accepted pair begins with `start`, ends with `end` and has length at least `|start| + |end|` |
| Finder.FindEmpty | ORF.py:271-278 | no pair is accepted when `start` is empty (its `search` finds nothing) or when `|start| + |end|` exceeds the genome length (every scan range is empty) |
| Finder.FindPairs | ORF.py:271-295 | `find` accepts `(s, e)` exactly when `start` is non-empty and occurs at `s`, `e >= s + |start|` and `end` occurs at `e`; pairs come in ascending `s`, then `e` |
| Scenarios.SearchScenario | ORF.py:170-176 | on "ABCABC": `A`→[0,3], `B`→[1,4], `C`→[2,5], `AB`→[0,3], `BC`→[1,4], `ABC`→[0,3], and `D`→[] |
| Scenarios.SearchWholeGenome | ORF.py:152 | searching for the whole non-empty genome returns exactly `[0]` |
| Scenarios.FindScenario | ORF.py:236-237 | on "AAABBBCCC", `find("AAA", "BB")` accepts `(0,3)` and `(0,4)`, giving `["AAABB", "AAABBB"]` |

## Left out

- The `print(suf)` in `search` (ORF.py:213) is a debug side effect, not part of the result.
- Object identity, aliasing and in-place mutation of `OrfNode` lists are not modelled. Each insertion step returns a new trie that differs along one root-to-leaf path.
- `char_index` on characters outside 'A'–'D' is not modelled. The source would compute a negative or out-of-range list index there. The model makes the alphabet a precondition of every operation that maps a letter to a slot.
- The `size` parameter of `OrfNode.__init__` is fixed at 4.
- `gen_end` is a boolean, not the integer 0/1.
- The `length` field of `OrfFinder` is `|genome|`.
- The O(N²) and O(T + V·U) complexity claims are not functional behaviour.
- `search` and `find` are pure, so calling them twice on the same index gives the same result by construction. No lemma states this.
- `Finder.Search` is a function, not a loop. Its walk is the recursive `SuffixTrie.Walk`, which follows one slot per letter and stops at the first empty slot, like the source's `for` loop.

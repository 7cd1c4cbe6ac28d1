/** Reference definitions of "where does a word occur in the genome", used to
    state what the trie and its queries compute. */
module Occurrences {

  /** `p` occurs in `g` starting at offset `s`. */
  predicate OccursAt(g: seq<char>, p: seq<char>, s: int) {
    0 <= s && s + |p| <= |g| && g[s..s + |p|] == p
  }

  /** Every element is smaller than the next: ascending with no duplicates. */
  predicate StrictlyIncreasing(xs: seq<int>) {
    forall a, b :: 0 <= a < b < |xs| ==> xs[a] < xs[b]
  }

  /** All offsets in `[lo, hi)` at which `p` occurs in `g`, ascending. */
  function OccIn(g: seq<char>, p: seq<char>, lo: nat, hi: int): seq<nat>
    decreases hi - lo
  {
    if hi <= lo then []
    else OccIn(g, p, lo, hi - 1) + (if OccursAt(g, p, hi - 1) then [hi - 1] else [])
  }

  /** `OccIn` lists exactly the occurrences in `[lo, hi)`, each once, in
      ascending order. */
  lemma {:induction false} OccInFacts(g: seq<char>, p: seq<char>, lo: nat, hi: int)
    ensures forall s :: s in OccIn(g, p, lo, hi) <==> lo <= s < hi && OccursAt(g, p, s)
    ensures StrictlyIncreasing(OccIn(g, p, lo, hi))
    decreases hi - lo
  {
    if hi > lo {
      var rest := OccIn(g, p, lo, hi - 1);
      OccInFacts(g, p, lo, hi - 1);
      forall a | 0 <= a < |rest|
        ensures rest[a] < hi - 1
      {
        assert rest[a] in rest;
      }
    }
  }

  /** The offsets below `i` at which `p` occurs: the starts of the suffixes
      `0..i-1` that have `p` as a prefix. */
  function Occ(g: seq<char>, p: seq<char>, i: nat): seq<nat> {
    OccIn(g, p, 0, i)
  }

  /** An occurrence of `a + b` is an occurrence of `a` at the same offset. */
  lemma OccursAtPrefix(g: seq<char>, a: seq<char>, b: seq<char>, s: int)
    ensures OccursAt(g, a + b, s) ==> OccursAt(g, a, s)
  {
    if OccursAt(g, a + b, s) {
      assert g[s..s + |a|] == g[s..s + |a + b|][..|a|];
      assert (a + b)[..|a|] == a;
    }
  }

  /** A word that never occurs in `[lo, hi)` has no extension that does. */
  lemma {:induction false} OccInExtensionEmpty(g: seq<char>, a: seq<char>, b: seq<char>, lo: nat, hi: int)
    requires OccIn(g, a, lo, hi) == []
    ensures OccIn(g, a + b, lo, hi) == []
    decreases hi - lo
  {
    if hi > lo {
      assert OccIn(g, a, lo, hi - 1) == [];
      OccInExtensionEmpty(g, a, b, lo, hi - 1);
      OccursAtPrefix(g, a, b, hi - 1);
    }
  }

  /** The slice `g[i..j]` occurs at `i`. */
  lemma OccursAtSlice(g: seq<char>, i: nat, j: nat)
    requires i <= j <= |g|
    ensures OccursAt(g, g[i..j], i)
  {
  }
}

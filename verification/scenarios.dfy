/** The worked examples of the ORF.py docstrings, checked against the model. */
module Scenarios {
  import opened Alphabet
  import opened Occurrences
  import opened SuffixTrie
  import opened Finder

  /** A mismatch at one letter rules out an occurrence. */
  lemma NotAt(g: seq<char>, p: seq<char>, s: nat, k: nat)
    requires s + |p| <= |g| && k < |p| && g[s + k] != p[k]
    ensures !OccursAt(g, p, s)
  {
    assert g[s..s + |p|][k] == g[s + k];
  }

  lemma OccurrencesOfA()
    ensures Occ("ABCABC", "A", 6) == [0, 3]
  {
    var g := "ABCABC";
    assert OccursAt(g, "A", 0) && OccursAt(g, "A", 3);
    NotAt(g, "A", 1, 0);
    NotAt(g, "A", 2, 0);
    NotAt(g, "A", 4, 0);
    NotAt(g, "A", 5, 0);
    assert OccIn(g, "A", 0, 1) == [0];
    assert OccIn(g, "A", 0, 2) == [0];
    assert OccIn(g, "A", 0, 3) == [0];
    assert OccIn(g, "A", 0, 4) == [0, 3];
    assert OccIn(g, "A", 0, 5) == [0, 3];
  }

  lemma OccurrencesOfB()
    ensures Occ("ABCABC", "B", 6) == [1, 4]
  {
    var g := "ABCABC";
    assert OccursAt(g, "B", 1) && OccursAt(g, "B", 4);
    NotAt(g, "B", 0, 0);
    NotAt(g, "B", 2, 0);
    NotAt(g, "B", 3, 0);
    NotAt(g, "B", 5, 0);
    assert OccIn(g, "B", 0, 1) == [];
    assert OccIn(g, "B", 0, 2) == [1];
    assert OccIn(g, "B", 0, 3) == [1];
    assert OccIn(g, "B", 0, 4) == [1];
    assert OccIn(g, "B", 0, 5) == [1, 4];
  }

  lemma OccurrencesOfC()
    ensures Occ("ABCABC", "C", 6) == [2, 5]
  {
    var g := "ABCABC";
    assert OccursAt(g, "C", 2) && OccursAt(g, "C", 5);
    NotAt(g, "C", 0, 0);
    NotAt(g, "C", 1, 0);
    NotAt(g, "C", 3, 0);
    NotAt(g, "C", 4, 0);
    assert OccIn(g, "C", 0, 1) == [];
    assert OccIn(g, "C", 0, 2) == [];
    assert OccIn(g, "C", 0, 3) == [2];
    assert OccIn(g, "C", 0, 4) == [2];
    assert OccIn(g, "C", 0, 5) == [2];
  }

  lemma OccurrencesOfAB()
    ensures Occ("ABCABC", "AB", 6) == [0, 3]
  {
    var g := "ABCABC";
    assert OccursAt(g, "AB", 0) && OccursAt(g, "AB", 3);
    NotAt(g, "AB", 1, 0);
    NotAt(g, "AB", 2, 0);
    NotAt(g, "AB", 4, 0);
    assert OccIn(g, "AB", 0, 1) == [0];
    assert OccIn(g, "AB", 0, 2) == [0];
    assert OccIn(g, "AB", 0, 3) == [0];
    assert OccIn(g, "AB", 0, 4) == [0, 3];
    assert OccIn(g, "AB", 0, 5) == [0, 3];
  }

  lemma OccurrencesOfBC()
    ensures Occ("ABCABC", "BC", 6) == [1, 4]
  {
    var g := "ABCABC";
    assert OccursAt(g, "BC", 1) && OccursAt(g, "BC", 4);
    NotAt(g, "BC", 0, 0);
    NotAt(g, "BC", 2, 0);
    NotAt(g, "BC", 3, 0);
    assert OccIn(g, "BC", 0, 1) == [];
    assert OccIn(g, "BC", 0, 2) == [1];
    assert OccIn(g, "BC", 0, 3) == [1];
    assert OccIn(g, "BC", 0, 4) == [1];
    assert OccIn(g, "BC", 0, 5) == [1, 4];
  }

  lemma OccurrencesOfABC()
    ensures Occ("ABCABC", "ABC", 6) == [0, 3]
  {
    var g := "ABCABC";
    assert OccursAt(g, "ABC", 0) && OccursAt(g, "ABC", 3);
    NotAt(g, "ABC", 1, 0);
    NotAt(g, "ABC", 2, 0);
    assert OccIn(g, "ABC", 0, 1) == [0];
    assert OccIn(g, "ABC", 0, 2) == [0];
    assert OccIn(g, "ABC", 0, 3) == [0];
    assert OccIn(g, "ABC", 0, 4) == [0, 3];
    assert OccIn(g, "ABC", 0, 5) == [0, 3];
  }

  lemma OccurrencesOfD()
    ensures Occ("ABCABC", "D", 6) == []
  {
    var g := "ABCABC";
    NotAt(g, "D", 0, 0);
    NotAt(g, "D", 1, 0);
    NotAt(g, "D", 2, 0);
    NotAt(g, "D", 3, 0);
    NotAt(g, "D", 4, 0);
    NotAt(g, "D", 5, 0);
    assert OccIn(g, "D", 0, 1) == [];
    assert OccIn(g, "D", 0, 2) == [];
    assert OccIn(g, "D", 0, 3) == [];
    assert OccIn(g, "D", 0, 4) == [];
    assert OccIn(g, "D", 0, 5) == [];
  }

  /** `search` on a non-empty word answers with its reference occurrences. */
  lemma SearchIs(f: OrfFinder, q: seq<char>, expected: seq<nat>)
    requires f.Valid() && IsWord(q) && |q| > 0
    requires Occ(f.genome, q, |f.genome|) == expected
    ensures Search(f, q) == expected
  {
  }

  /** `search` on an index built over the genome "ABCABC". */
  lemma SearchScenario(f: OrfFinder)
    requires f.Valid() && f.genome == "ABCABC"
    ensures IsWord("A") && IsWord("B") && IsWord("C") && IsWord("D")
    ensures IsWord("AB") && IsWord("BC") && IsWord("ABC")
    ensures Search(f, "A") == [0, 3]
    ensures Search(f, "B") == [1, 4]
    ensures Search(f, "C") == [2, 5]
    ensures Search(f, "AB") == [0, 3]
    ensures Search(f, "BC") == [1, 4]
    ensures Search(f, "ABC") == [0, 3]
    ensures Search(f, "D") == []
  {
    assert IsWord("A") && IsWord("B") && IsWord("C") && IsWord("D");
    assert IsWord("AB") && IsWord("BC") && IsWord("ABC");
    assert |f.genome| == 6;
    OccurrencesOfA();
    SearchIs(f, "A", [0, 3]);
    OccurrencesOfB();
    SearchIs(f, "B", [1, 4]);
    OccurrencesOfC();
    SearchIs(f, "C", [2, 5]);
    OccurrencesOfAB();
    SearchIs(f, "AB", [0, 3]);
    OccurrencesOfBC();
    SearchIs(f, "BC", [1, 4]);
    OccurrencesOfABC();
    SearchIs(f, "ABC", [0, 3]);
    OccurrencesOfD();
    SearchIs(f, "D", []);
  }

  /** The genome occurs in itself only at offset 0. */
  lemma {:induction false} SelfOccurrences(g: seq<char>, hi: nat)
    requires 1 <= hi <= |g|
    ensures OccIn(g, g, 0, hi) == [0]
  {
    if hi == 1 {
      assert OccursAt(g, g, 0);
    } else {
      SelfOccurrences(g, hi - 1);
    }
  }

  /** Searching for the whole genome finds it exactly once, at offset 0. */
  lemma SearchWholeGenome(g: seq<char>)
    requires IsWord(g) && |g| > 0
    ensures Search(NewOrfFinder(g), g) == [0]
  {
    SelfOccurrences(g, |g|);
  }

  lemma OccurrencesOfAAA()
    ensures Occ("AAABBBCCC", "AAA", 9) == [0]
  {
    var g := "AAABBBCCC";
    assert OccursAt(g, "AAA", 0);
    NotAt(g, "AAA", 1, 2);
    NotAt(g, "AAA", 2, 1);
    NotAt(g, "AAA", 3, 0);
    NotAt(g, "AAA", 4, 0);
    NotAt(g, "AAA", 5, 0);
    NotAt(g, "AAA", 6, 0);
    assert OccIn(g, "AAA", 0, 1) == [0];
    assert OccIn(g, "AAA", 0, 2) == [0];
    assert OccIn(g, "AAA", 0, 3) == [0];
    assert OccIn(g, "AAA", 0, 4) == [0];
    assert OccIn(g, "AAA", 0, 5) == [0];
    assert OccIn(g, "AAA", 0, 6) == [0];
    assert OccIn(g, "AAA", 0, 7) == [0];
    assert OccIn(g, "AAA", 0, 8) == [0];
  }

  lemma OccurrencesOfBB()
    ensures OccIn("AAABBBCCC", "BB", 3, 8) == [3, 4]
  {
    var g := "AAABBBCCC";
    assert OccursAt(g, "BB", 3) && OccursAt(g, "BB", 4);
    NotAt(g, "BB", 5, 1);
    NotAt(g, "BB", 6, 0);
    NotAt(g, "BB", 7, 0);
    assert OccIn(g, "BB", 3, 4) == [3];
    assert OccIn(g, "BB", 3, 5) == [3, 4];
    assert OccIn(g, "BB", 3, 6) == [3, 4];
    assert OccIn(g, "BB", 3, 7) == [3, 4];
  }

  lemma SearchAAA(f: OrfFinder)
    requires f.Valid() && f.genome == "AAABBBCCC"
    ensures IsWord("AAA")
    ensures Search(f, "AAA") == [0]
  {
    assert IsWord("AAA");
    var r := Search(f, "AAA");
    assert |f.genome| == 9;
    assert r == Occ(f.genome, "AAA", 9);
    OccurrencesOfAAA();
  }

  /** `find("AAA", "BB")` on an index built over the genome "AAABBBCCC":
      the pairs `(0, 3)` and `(0, 4)`, that is "AAABB" and "AAABBB". */
  lemma FindScenario(f: OrfFinder)
    requires f.Valid() && f.genome == "AAABBBCCC"
    ensures IsWord("AAA")
    ensures MatchPairs(f.genome, Search(f, "AAA"), 3, "BB") == [(0, 3), (0, 4)]
    ensures Substrings(f, "AAA", "BB") == ["AAABB", "AAABBB"]
  {
    SearchAAA(f);
    PairsForAAA(f.genome);
    RenderPairsForAAA(f.genome, [(0, 3), (0, 4)]);
  }

  lemma PairsForAAA(g: seq<char>)
    requires g == "AAABBBCCC"
    ensures MatchPairs(g, [0], 3, "BB") == [(0, 3), (0, 4)]
  {
    OccurrencesOfBB();
    assert [0][..0] == [];
    assert MatchPairs(g, [0], 3, "BB") == PairsWith(0, OccIn(g, "BB", 3, 8));
  }

  lemma RenderPairsForAAA(g: seq<char>, ps: seq<(nat, nat)>)
    requires g == "AAABBBCCC" && ps == [(0, 3), (0, 4)]
    ensures InGenome(g, ps, 2)
    ensures Render(g, ps, 2) == ["AAABB", "AAABBB"]
  {
    assert g[0..5] == "AAABB";
    assert g[0..6] == "AAABBB";
  }
}

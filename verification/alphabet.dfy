/** The four-letter genome alphabet 'A'..'D' and the mapping of a letter
    to its child slot in a trie node (ORF.py, `OrfNode.char_index`). */
module Alphabet {

  /** A genome letter. Letters outside 'A'..'D' are a precondition violation
      in the source, so every operation that indexes a child slot requires this. */
  predicate IsLetter(c: char) {
    'A' <= c <= 'D'
  }

  /** A word over the genome alphabet. */
  predicate IsWord(w: seq<char>) {
    forall i :: 0 <= i < |w| ==> IsLetter(w[i])
  }

  /** The letter stored in child slot `k`. */
  function Letter(k: nat): (c: char)
    requires k < 4
    ensures IsLetter(c)
  {
    ('A' as int + k) as char
  }

  /** The child slot of letter `c`: its code point minus that of 'A'. */
  function CharIndex(c: char): (k: nat)
    requires IsLetter(c)
    ensures k < 4
    ensures Letter(k) == c
    ensures forall k' :: 0 <= k' < 4 && Letter(k') == c ==> k' == k
  {
    c as int - 'A' as int
  }

  /** The slot mapping sends 'A', 'B', 'C', 'D' to 0, 1, 2, 3. */
  lemma CharIndexValues()
    ensures CharIndex('A') == 0 && CharIndex('B') == 1
    ensures CharIndex('C') == 2 && CharIndex('D') == 3
  {
  }
}

/** The all-suffixes trie of ORF.py: `OrfNode` and `OrfFinder.insert`, with
    the walk from the root that `OrfFinder.search` performs.

    The trie is an immutable value. Where the source mutates a node in place
    (creating a child, appending a marker, setting `gen_end`), the model
    rebuilds the path from the root with the updated node. */
module SuffixTrie {
  import opened Alphabet
  import opened Occurrences

  datatype Option<T> = None | Some(value: T)

  /** An occurrence marker `(start, end)`: a suffix starting at `start` passes
      through the node, and `end` is the offset of the last letter consumed
      to reach it. */
  type Marker = (nat, nat)

  /** A trie node: one child slot per letter, the markers of the suffixes
      that pass through it, in insertion order, and whether some suffix ends
      here (`gen_end`, 0 or 1 in the source). */
  datatype OrfNode = OrfNode(child: seq<Option<OrfNode>>, suffix: seq<Marker>, genEnd: bool)

  /** Every node of the tree has exactly four child slots. */
  predicate WellFormed(n: OrfNode)
    decreases n
  {
    && |n.child| == 4
    && forall k :: 0 <= k < 4 && n.child[k].Some? ==> WellFormed(n.child[k].value)
  }

  /** A fresh node: no children, no markers, not the end of a suffix. */
  function NewNode(): (n: OrfNode)
    ensures WellFormed(n)
    ensures forall k :: 0 <= k < 4 ==> n.child[k].None?
    ensures n.suffix == [] && !n.genEnd
  {
    OrfNode([None, None, None, None], [], false)
  }

  /** The inner loop of `insert` for suffix `i`, from offset `j` on: descend
      into the child for `g[j]` (creating it when absent), append `(i, j)`
      to that child, continue with `j + 1`; once `j` reaches the end of the
      genome, set `gen_end` on the node reached. */
  function InsertSuffix(n: OrfNode, g: seq<char>, i: nat, j: nat): (r: OrfNode)
    requires WellFormed(n) && IsWord(g) && i <= j <= |g|
    ensures WellFormed(r)
    ensures r.suffix == n.suffix
    ensures j < |g| ==> r.genEnd == n.genEnd
    decreases |g| - j
  {
    if j == |g| then n.(genEnd := true)
    else
      var k := CharIndex(g[j]);
      var next := if n.child[k].Some? then n.child[k].value else NewNode();
      assert WellFormed(next);
      var marked := next.(suffix := next.suffix + [(i, j)]);
      assert marked.child == next.child;
      var next' := InsertSuffix(marked, g, i, j + 1);
      n.(child := n.child[k := Some(next')])
  }

  /** The outer loop of `insert` from suffix `i` on. */
  function InsertFrom(n: OrfNode, g: seq<char>, i: nat): (r: OrfNode)
    requires WellFormed(n) && IsWord(g) && i <= |g|
    ensures WellFormed(r)
    ensures r.suffix == n.suffix
    decreases |g| - i
  {
    if i == |g| then n else InsertFrom(InsertSuffix(n, g, i, i), g, i + 1)
  }

  /** The trie the `OrfFinder` constructor builds: every suffix of `g`
      inserted into a fresh root, in increasing order of start. */
  function Build(g: seq<char>): (root: OrfNode)
    requires IsWord(g)
    ensures WellFormed(root)
  {
    InsertFrom(NewNode(), g, 0)
  }

  /** The traversal of `search`: follow one child per letter of `q`; `None`
      as soon as a slot is empty. */
  function Walk(n: OrfNode, q: seq<char>): (r: Option<OrfNode>)
    requires WellFormed(n) && IsWord(q)
    ensures r.Some? ==> WellFormed(r.value)
    ensures |q| == 0 ==> r == Some(n)
    decreases |q|
  {
    if |q| == 0 then Some(n)
    else
      match n.child[CharIndex(q[0])]
      case None => None
      case Some(c) => Walk(c, q[1..])
  }

  /** The markers for occurrences starting at `starts` of a word of length `len`. */
  function Markers(starts: seq<nat>, len: nat): (ms: seq<Marker>)
    requires len >= 1
  {
    seq(|starts|, k requires 0 <= k < |starts| => (starts[k], starts[k] + len - 1))
  }

  /** The start component of every marker, in order. */
  function Starts(ms: seq<Marker>): (r: seq<nat>)
  {
    seq(|ms|, k requires 0 <= k < |ms| => ms[k].0)
  }

  // ---------------------------------------------------------------------
  // The trie invariant after the suffixes `0..i-1` have been inserted.
  // `p` is the word spelled by the path from the root to the node.
  // ---------------------------------------------------------------------

  /** Some suffix among `0..i-1` is exactly `p`. */
  ghost predicate SuffixEndsAt(g: seq<char>, p: seq<char>, i: nat) {
    |p| <= |g| && |g| - |p| < i && OccursAt(g, p, |g| - |p|)
  }

  /** Slot `k` is filled exactly when `p` followed by letter `k` occurs at a
      start below `i`, and then the child satisfies the node invariant. */
  ghost predicate SlotInv(n: OrfNode, g: seq<char>, p: seq<char>, i: nat, k: nat)
    requires |n.child| == 4 && k < 4
    decreases n, 0
  {
    && (n.child[k].Some? <==> |Occ(g, p + [Letter(k)], i)| > 0)
    && (n.child[k].Some? ==> NodeInv(n.child[k].value, g, p + [Letter(k)], i))
  }

  ghost predicate ChildrenInv(n: OrfNode, g: seq<char>, p: seq<char>, i: nat)
    decreases n, 1
  {
    && |n.child| == 4
    && forall k :: 0 <= k < 4 ==> SlotInv(n, g, p, i, k)
  }

  /** A non-root node at path `p` holds one marker `(s, s + |p| - 1)` per
      occurrence start `s < i` of `p`, in ascending order, and is marked as
      a suffix end exactly when one of those suffixes is `p` itself. */
  ghost predicate NodeInv(n: OrfNode, g: seq<char>, p: seq<char>, i: nat)
    decreases n, 2
  {
    && |p| > 0
    && n.suffix == Markers(Occ(g, p, i), |p|)
    && (n.genEnd <==> SuffixEndsAt(g, p, i))
    && ChildrenInv(n, g, p, i)
  }

  /** The root carries no markers and is never a suffix end. */
  ghost predicate RootInv(n: OrfNode, g: seq<char>, i: nat) {
    && n.suffix == []
    && !n.genEnd
    && ChildrenInv(n, g, [], i)
  }

  // ---------------------------------------------------------------------
  // Proof of the invariant
  // ---------------------------------------------------------------------

  lemma MarkersAppend(starts: seq<nat>, s: nat, len: nat)
    requires len >= 1
    ensures Markers(starts + [s], len) == Markers(starts, len) + [(s, s + len - 1)]
  {
  }

  lemma MarkersMember(starts: seq<nat>, len: nat)
    requires len >= 1
    ensures forall s, e :: (s, e) in Markers(starts, len) <==> s in starts && e == s + len - 1
  {
    var ms := Markers(starts, len);
    forall s, e
      ensures (s, e) in ms <==> s in starts && e == s + len - 1
    {
      if s in starts && e == s + len - 1 {
        var k :| 0 <= k < |starts| && starts[k] == s;
        assert ms[k] == (s, e);
      }
    }
  }

  lemma StartsOfMarkers(starts: seq<nat>, len: nat)
    requires len >= 1
    ensures Starts(Markers(starts, len)) == starts
  {
  }

  lemma {:induction false} ChildrenInvWellFormed(n: OrfNode, g: seq<char>, p: seq<char>, i: nat)
    requires ChildrenInv(n, g, p, i)
    ensures WellFormed(n)
    decreases n
  {
    forall k | 0 <= k < 4 && n.child[k].Some?
      ensures WellFormed(n.child[k].value)
    {
      assert SlotInv(n, g, p, i, k);
      assert NodeInv(n.child[k].value, g, p + [Letter(k)], i);
      ChildrenInvWellFormed(n.child[k].value, g, p + [Letter(k)], i);
    }
  }

  /** A fresh node is a correct node for a word that does not occur yet. */
  lemma NewNodeInv(g: seq<char>, p: seq<char>, i: nat)
    requires |p| > 0 && Occ(g, p, i) == []
    ensures NodeInv(NewNode(), g, p, i)
  {
    OccInFacts(g, p, 0, i);
    forall k | 0 <= k < 4
      ensures SlotInv(NewNode(), g, p, i, k)
    {
      OccInExtensionEmpty(g, p, [Letter(k)], 0, i);
    }
  }

  /** Inserting a suffix that does not pass through slot `k` leaves that
      slot's invariant intact. */
  lemma {:induction false} SlotStable(n: OrfNode, g: seq<char>, p: seq<char>, i: nat, k: nat)
    requires |n.child| == 4 && k < 4
    requires SlotInv(n, g, p, i, k)
    requires !OccursAt(g, p + [Letter(k)], i)
    ensures SlotInv(n, g, p, i + 1, k)
    decreases n, 0
  {
    var q := p + [Letter(k)];
    assert Occ(g, q, i + 1) == Occ(g, q, i);
    if n.child[k].Some? {
      NodeStable(n.child[k].value, g, q, i);
    }
  }

  /** Inserting a suffix that does not pass through a node leaves the node's
      invariant intact. */
  lemma {:induction false} NodeStable(n: OrfNode, g: seq<char>, p: seq<char>, i: nat)
    requires NodeInv(n, g, p, i)
    requires !OccursAt(g, p, i)
    ensures NodeInv(n, g, p, i + 1)
    decreases n, 1
  {
    var i' := i + 1;
    assert Occ(g, p, i') == Occ(g, p, i);
    forall k | 0 <= k < 4
      ensures SlotInv(n, g, p, i', k)
    {
      OccursAtPrefix(g, p, [Letter(k)], i);
      SlotStable(n, g, p, i, k);
    }
  }

  /** Suffix `i` reaches slot `k` below `g[i..j]` only through letter `g[j]`. */
  lemma SuffixTakesItsLetter(g: seq<char>, i: nat, j: nat, k: nat)
    requires i <= j < |g| && k < 4
    ensures OccursAt(g, g[i..j] + [Letter(k)], i) ==> Letter(k) == g[j]
  {
    var q := g[i..j] + [Letter(k)];
    if OccursAt(g, q, i) {
      assert g[i..i + |q|][j - i] == g[j];
    }
  }

  /** One step of the outer loop: inserting suffix `i` below the node at
      path `g[i..j]` turns the invariant for the suffixes below `i` into the
      invariant for the suffixes below `i + 1`. */
  lemma {:induction false} InsertSuffixInv(n: OrfNode, g: seq<char>, i: nat, j: nat)
    requires IsWord(g) && i <= j <= |g| && i < |g|
    requires WellFormed(n)
    requires ChildrenInv(n, g, g[i..j], i)
    requires n.genEnd <==> SuffixEndsAt(g, g[i..j], i)
    ensures ChildrenInv(InsertSuffix(n, g, i, j), g, g[i..j], i + 1)
    ensures InsertSuffix(n, g, i, j).genEnd <==> SuffixEndsAt(g, g[i..j], i + 1)
    decreases |g| - j
  {
    var p := g[i..j];
    var i' := i + 1;
    var r := InsertSuffix(n, g, i, j);
    if j == |g| {
      assert r.child == n.child;
      forall k | 0 <= k < 4
        ensures SlotInv(r, g, p, i', k)
      {
        SlotStable(n, g, p, i, k);
      }
      assert ChildrenInv(r, g, p, i');
      OccursAtSlice(g, i, j);
    } else {
      var k := CharIndex(g[j]);
      var p' := g[i..j + 1];
      assert p' == p + [Letter(k)];
      assert SlotInv(n, g, p, i, k);
      var next := if n.child[k].Some? then n.child[k].value else NewNode();
      if n.child[k].None? {
        NewNodeInv(g, p', i);
      }
      assert NodeInv(next, g, p', i);
      assert ChildrenInv(next, g, p', i);
      var next1 := next.(suffix := next.suffix + [(i, j)]);
      assert ChildrenInv(next1, g, p', i) by {
        assert next1.child == next.child;
        forall k' | 0 <= k' < 4
          ensures SlotInv(next1, g, p', i, k')
        {
          assert SlotInv(next, g, p', i, k');
        }
      }
      InsertSuffixInv(next1, g, i, j + 1);
      var r1 := InsertSuffix(next1, g, i, j + 1);
      OccursAtSlice(g, i, j + 1);
      assert Occ(g, p', i + 1) == Occ(g, p', i) + [i];
      MarkersAppend(Occ(g, p', i), i, |p'|);
      assert NodeInv(r1, g, p', i + 1);
      assert r == n.(child := n.child[k := Some(r1)]);
      forall k' | 0 <= k' < 4
        ensures SlotInv(r, g, p, i', k')
      {
        if k' != k {
          SuffixTakesItsLetter(g, i, j, k');
          SlotStable(n, g, p, i, k');
        } else {
          assert r.child[k'] == Some(r1);
        }
      }
      assert |r.child| == 4;
      assert ChildrenInv(r, g, p, i');
      assert r.genEnd == n.genEnd;
      assert SuffixEndsAt(g, p, i') == SuffixEndsAt(g, p, i);
    }
  }

  lemma {:induction false} InsertFromInv(n: OrfNode, g: seq<char>, i: nat)
    requires IsWord(g) && i <= |g| && WellFormed(n)
    requires RootInv(n, g, i)
    ensures RootInv(InsertFrom(n, g, i), g, |g|)
    decreases |g| - i
  {
    if i < |g| {
      assert g[i..i] == [];
      InsertSuffixInv(n, g, i, i);
      InsertFromInv(InsertSuffix(n, g, i, i), g, i + 1);
    }
  }

  /** The trie built from `g` satisfies the invariant for all its suffixes. */
  lemma BuildInv(g: seq<char>)
    requires IsWord(g)
    ensures RootInv(Build(g), g, |g|)
  {
    InsertFromInv(NewNode(), g, 0);
  }

  /** Walking `q` from a node at path `p` succeeds exactly when `p + q`
      occurs, and lands on the node of `p + q`. */
  lemma {:induction false} WalkInv(n: OrfNode, g: seq<char>, p: seq<char>, i: nat, q: seq<char>)
    requires WellFormed(n) && IsWord(q) && |q| > 0
    requires ChildrenInv(n, g, p, i)
    ensures Walk(n, q).Some? <==> |Occ(g, p + q, i)| > 0
    ensures Walk(n, q).Some? ==> NodeInv(Walk(n, q).value, g, p + q, i)
    decreases |q|
  {
    var k := CharIndex(q[0]);
    assert SlotInv(n, g, p, i, k);
    var p1 := p + [Letter(k)];
    assert p + q == p1 + q[1..];
    match n.child[k]
    case None =>
      OccInExtensionEmpty(g, p1, q[1..], 0, i);
    case Some(c) =>
      if |q| == 1 {
        assert p + q == p1;
      } else {
        assert NodeInv(c, g, p1, i);
        WalkInv(c, g, p1, i, q[1..]);
      }
  }

  // ---------------------------------------------------------------------
  // What the built trie holds, stated on the genome alone
  // ---------------------------------------------------------------------

  /** For a non-empty word, the path spelling it exists exactly when it is a
      substring of the genome, and its node holds exactly one marker per
      occurrence, with the offsets of its first and last letter, ascending. */
  lemma {:induction false} BuiltNode(g: seq<char>, p: seq<char>)
    requires IsWord(g) && IsWord(p) && |p| > 0
    ensures Walk(Build(g), p).Some? <==> exists s :: OccursAt(g, p, s)
    ensures Walk(Build(g), p).Some? <==> |Occ(g, p, |g|)| > 0
    ensures Walk(Build(g), p).Some? ==> Walk(Build(g), p).value.suffix == Markers(Occ(g, p, |g|), |p|)
  {
    BuildInv(g);
    WalkInv(Build(g), g, [], |g|, p);
    assert [] + p == p;
    var occ := Occ(g, p, |g|);
    OccInFacts(g, p, 0, |g|);
    if |occ| > 0 {
      assert occ[0] in occ;
    }
    if exists s :: OccursAt(g, p, s) {
      var s :| OccursAt(g, p, s);
      assert s in Occ(g, p, |g|);
    }
  }

  /** Every marker `(s, e)` at the node of path `p` has `e = s + |p| - 1`
      and `g[s..e]` (inclusive) spells `p`; every occurrence of `p` has its
      marker there; starts are strictly increasing. */
  lemma MarkersAreOccurrences(root: OrfNode, g: seq<char>, p: seq<char>)
    requires IsWord(g) && IsWord(p) && |p| > 0 && root == Build(g)
    requires Walk(root, p).Some?
    ensures forall s, e :: (s, e) in Walk(root, p).value.suffix <==>
      e == s + |p| - 1 && OccursAt(g, p, s)
    ensures StrictlyIncreasing(Starts(Walk(root, p).value.suffix))
  {
    BuiltNode(g, p);
    var occ := Occ(g, p, |g|);
    OccInFacts(g, p, 0, |g|);
    MarkersMember(occ, |p|);
    StartsOfMarkers(occ, |p|);
  }

  /** For every `0 <= i <= j < |g|` the path spelling `g[i..j]` (inclusive)
      exists and its node holds the marker `(i, j)`. */
  lemma EverySubstringIndexed(g: seq<char>, i: nat, j: nat)
    requires IsWord(g) && i <= j < |g|
    ensures IsWord(g[i..j + 1])
    ensures Walk(Build(g), g[i..j + 1]).Some?
    ensures (i, j) in Walk(Build(g), g[i..j + 1]).value.suffix
  {
    var p := g[i..j + 1];
    OccursAtSlice(g, i, j + 1);
    BuiltNode(g, p);
    MarkersAreOccurrences(Build(g), g, p);
  }

  /** A node is marked as a suffix end exactly when its path is a non-empty
      suffix of the genome; in particular the root never is, and it never
      receives a marker. */
  lemma GenEndMarksSuffixes(g: seq<char>, p: seq<char>)
    requires IsWord(g) && IsWord(p)
    requires Walk(Build(g), p).Some?
    ensures Walk(Build(g), p).value.genEnd <==> 0 < |p| <= |g| && g[|g| - |p|..] == p
    ensures |p| == 0 ==> Walk(Build(g), p).value.suffix == []
  {
    BuildInv(g);
    if |p| > 0 {
      WalkInv(Build(g), g, [], |g|, p);
      assert [] + p == p;
    }
  }
}

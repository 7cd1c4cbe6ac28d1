/** `OrfFinder` of ORF.py: the index built over a genome, and its two
    queries `search` and `find`. */
module Finder {
  import opened Alphabet
  import opened Occurrences
  import opened SuffixTrie

  /** The index: the genome and the root of its all-suffixes trie. The
      source's `length` field is `|genome|`. */
  datatype OrfFinder = OrfFinder(root: OrfNode, genome: seq<char>)
  {
    /** The root is the trie the constructor builds from the genome. */
    ghost predicate Valid() {
      IsWord(genome) && root == Build(genome)
    }
  }

  /** The constructor: store the genome and insert all its suffixes. */
  function NewOrfFinder(genome: seq<char>): (f: OrfFinder)
    requires IsWord(genome)
    ensures f.Valid() && f.genome == genome
  {
    OrfFinder(Build(genome), genome)
  }

  /** What `search` returns for the outcome of its walk: nothing when a slot
      was missing, else the start of every marker at the node reached. */
  function Found(w: Option<OrfNode>): seq<nat> {
    match w
    case None => []
    case Some(m) => Starts(m.suffix)
  }

  /** The walk over the built trie yields the ascending occurrences of a
      non-empty word, and nothing for the empty word (the root has no
      markers). */
  lemma FoundOccurrences(root: OrfNode, g: seq<char>, q: seq<char>)
    requires IsWord(g) && IsWord(q) && root == Build(g)
    ensures Found(Walk(root, q)) == if |q| == 0 then [] else Occ(g, q, |g|)
  {
    if |q| == 0 {
      GenEndMarksSuffixes(g, q);
    } else {
      BuiltNode(g, q);
      if Walk(Build(g), q).Some? {
        StartsOfMarkers(Occ(g, q, |g|), |q|);
      }
    }
  }

  /** `search`: exactly the offsets at which a non-empty `sequence` occurs
      in the genome, ascending and without duplicates; the empty sequence
      finds nothing. */
  function Search(f: OrfFinder, sequence: seq<char>): (r: seq<nat>)
    requires f.Valid() && IsWord(sequence)
    ensures forall s :: s in r <==> |sequence| > 0 && OccursAt(f.genome, sequence, s)
    ensures StrictlyIncreasing(r)
    ensures |sequence| > 0 ==> r == Occ(f.genome, sequence, |f.genome|)
  {
    FoundOccurrences(f.root, f.genome, sequence);
    OccInFacts(f.genome, sequence, 0, |f.genome|);
    Found(Walk(f.root, sequence))
  }

  // ---------------------------------------------------------------------
  // find
  // ---------------------------------------------------------------------

  /** Pairs ordered by first component, then by second, without duplicates. */
  predicate LexIncreasing(ps: seq<(nat, nat)>) {
    forall a, b :: 0 <= a < b < |ps| ==>
      ps[a].0 < ps[b].0 || (ps[a].0 == ps[b].0 && ps[a].1 < ps[b].1)
  }

  /** The pairs `(s, e)` for one start `s` and the ends `es`, in order. */
  function PairsWith(s: nat, es: seq<nat>): (ps: seq<(nat, nat)>)
    ensures |ps| == |es|
    ensures forall k :: 0 <= k < |es| ==> ps[k] == (s, es[k])
  {
    seq(|es|, k requires 0 <= k < |es| => (s, es[k]))
  }

  /** The pairs `find` accepts, in the order it emits them: for each prefix
      offset `s` in turn, every offset `e` in `[s + P, |g| - |end|]` at
      which `end` occurs, ascending. */
  function MatchPairs(g: seq<char>, starts: seq<nat>, P: nat, end: seq<char>): (ps: seq<(nat, nat)>)
    ensures InGenome(g, ps, |end|)
    decreases |starts|
  {
    if starts == [] then []
    else
      var s := starts[|starts| - 1];
      var ends := OccIn(g, end, s + P, |g| - |end| + 1);
      PairsWithInGenome(g, s, P, end, |g| - |end| + 1);
      MatchPairs(g, starts[..|starts| - 1], P, end) + PairsWith(s, ends)
  }

  lemma PairsWithMember(s: nat, es: seq<nat>)
    ensures forall s', e :: (s', e) in PairsWith(s, es) <==> s' == s && e in es
  {
    var ps := PairsWith(s, es);
    forall s', e | s' == s && e in es
      ensures (s', e) in ps
    {
      var k :| 0 <= k < |es| && es[k] == e;
      assert ps[k] == (s, e);
    }
  }

  /** `(s, e)` is accepted exactly when `s` is a prefix offset, `end`
      occurs at `e`, and `e` is at least `s + P`. */
  lemma {:induction false} MatchPairsMember(g: seq<char>, starts: seq<nat>, P: nat, end: seq<char>)
    ensures forall s, e :: (s, e) in MatchPairs(g, starts, P, end) <==>
      s in starts && s + P <= e && OccursAt(g, end, e)
    decreases |starts|
  {
    if starts != [] {
      var s := starts[|starts| - 1];
      var front := starts[..|starts| - 1];
      assert starts == front + [s];
      MatchPairsMember(g, front, P, end);
      PairsWithMember(s, OccIn(g, end, s + P, |g| - |end| + 1));
      OccInFacts(g, end, s + P, |g| - |end| + 1);
    }
  }

  /** For strictly increasing prefix offsets the accepted pairs come in
      ascending `s`, then ascending `e`, without duplicates. */
  lemma {:induction false} MatchPairsSorted(g: seq<char>, starts: seq<nat>, P: nat, end: seq<char>)
    requires StrictlyIncreasing(starts)
    ensures LexIncreasing(MatchPairs(g, starts, P, end))
    decreases |starts|
  {
    if starts != [] {
      var s := starts[|starts| - 1];
      var front := starts[..|starts| - 1];
      var before := MatchPairs(g, front, P, end);
      var here := PairsWith(s, OccIn(g, end, s + P, |g| - |end| + 1));
      assert starts == front + [s];
      MatchPairsSorted(g, front, P, end);
      MatchPairsMember(g, front, P, end);
      OccInFacts(g, end, s + P, |g| - |end| + 1);
      forall a | 0 <= a < |before|
        ensures before[a].0 < s
      {
        assert (before[a].0, before[a].1) in before;
        var b :| 0 <= b < |front| && front[b] == before[a].0;
        assert starts[b] == front[b];
      }
      LexConcat(before, here, s);
    }
  }

  /** Appending pairs that all share a first component larger than every
      first component so far keeps the order. */
  lemma LexConcat(ps: seq<(nat, nat)>, qs: seq<(nat, nat)>, s: nat)
    requires LexIncreasing(ps) && LexIncreasing(qs)
    requires forall a :: 0 <= a < |ps| ==> ps[a].0 < s
    requires forall b :: 0 <= b < |qs| ==> qs[b].0 == s
    ensures LexIncreasing(ps + qs)
  {
    var r := ps + qs;
    forall a, b | 0 <= a < b < |r|
      ensures r[a].0 < r[b].0 || (r[a].0 == r[b].0 && r[a].1 < r[b].1)
    {
      if b < |ps| {
        assert r[a] == ps[a] && r[b] == ps[b];
      } else if a < |ps| {
        assert r[a] == ps[a] && r[b] == qs[b - |ps|];
      } else {
        assert r[a] == qs[a - |ps|] && r[b] == qs[b - |ps|];
      }
    }
  }

  /** Every accepted pair stays inside the genome once the length of `end`
      is added. */
  ghost predicate InGenome(g: seq<char>, ps: seq<(nat, nat)>, S: nat) {
    forall k :: 0 <= k < |ps| ==> ps[k].0 <= ps[k].1 + S <= |g|
  }

  /** The substrings `g[s .. e + S)` for the pairs `(s, e)`, in order. */
  function Render(g: seq<char>, ps: seq<(nat, nat)>, S: nat): (ws: seq<seq<char>>)
    requires InGenome(g, ps, S)
    ensures |ws| == |ps|
    ensures forall k :: 0 <= k < |ps| ==> |ws[k]| == ps[k].1 + S - ps[k].0
  {
    seq(|ps|, k requires 0 <= k < |ps| => g[ps[k].0 .. ps[k].1 + S])
  }

  lemma RenderAppend(g: seq<char>, ps: seq<(nat, nat)>, s: nat, e: nat, S: nat)
    requires InGenome(g, ps, S) && s <= e + S <= |g|
    ensures InGenome(g, ps + [(s, e)], S)
    ensures Render(g, ps + [(s, e)], S) == Render(g, ps, S) + [g[s..e + S]]
  {
  }

  lemma RenderConcat(g: seq<char>, ps: seq<(nat, nat)>, qs: seq<(nat, nat)>, S: nat)
    requires InGenome(g, ps, S) && InGenome(g, qs, S)
    ensures InGenome(g, ps + qs, S)
    ensures Render(g, ps + qs, S) == Render(g, ps, S) + Render(g, qs, S)
  {
  }

  /** The letter-by-letter comparison of `find`: `end` is compared with the
      genome from offset `e` on, stopping at the first mismatch. */
  method MatchesAt(g: seq<char>, end: seq<char>, e: nat) returns (b: bool)
    requires e + |end| <= |g|
    ensures b <==> OccursAt(g, end, e)
  {
    var y := 0;
    while y < |end| && g[e + y] == end[y]
      invariant 0 <= y <= |end|
      invariant forall k :: 0 <= k < y ==> g[e + k] == end[k]
    {
      y := y + 1;
    }
    b := y == |end|;
    if b {
      assert g[e..e + |end|] == end;
    } else {
      assert g[e..e + |end|][y] == g[e + y];
    }
  }

  /** The copy loop of `find`: the letters of the genome from `s` up to,
      not including, `t`, appended one at a time. */
  method CopySlice(g: seq<char>, s: nat, t: nat) returns (w: seq<char>)
    requires s <= t <= |g|
    ensures |w| == t - s
    ensures forall k :: 0 <= k < |w| ==> w[k] == g[s + k]
  {
    w := [];
    var i := s;
    while i < t
      invariant s <= i <= t
      invariant |w| == i - s
      invariant forall k :: 0 <= k < |w| ==> w[k] == g[s + k]
    {
      w := w + [g[i]];
      i := i + 1;
    }
  }

  /** The scan of `find` for one prefix offset `s`: every `e` from `s + P`
      up to `|g| - |end|`, ascending, and for each match of `end` at `e`
      the substring `g[s .. e + |end|)`. */
  method ScanEnds(g: seq<char>, s: nat, P: nat, end: seq<char>) returns (found: seq<seq<char>>)
    ensures InGenome(g, PairsWith(s, OccIn(g, end, s + P, |g| - |end| + 1)), |end|)
    ensures found == Render(g, PairsWith(s, OccIn(g, end, s + P, |g| - |end| + 1)), |end|)
  {
    found := [];
    var e := s + P;
    while e < |g| - |end| + 1
      invariant s + P <= e
      invariant e == s + P || e <= |g| - |end| + 1
      invariant InGenome(g, PairsWith(s, OccIn(g, end, s + P, e)), |end|)
      invariant found == Render(g, PairsWith(s, OccIn(g, end, s + P, e)), |end|)
    {
      var ok := MatchesAt(g, end, e);
      ScanStep(g, s, P, end, e);
      if ok {
        var w := CopySlice(g, s, e + |end|);
        assert w == g[s..e + |end|];
        found := found + [w];
      }
      e := e + 1;
    }
    assert OccIn(g, end, s + P, e) == OccIn(g, end, s + P, |g| - |end| + 1);
  }

  lemma PairsWithInGenome(g: seq<char>, s: nat, P: nat, end: seq<char>, hi: int)
    ensures InGenome(g, PairsWith(s, OccIn(g, end, s + P, hi)), |end|)
  {
    var es := OccIn(g, end, s + P, hi);
    OccInFacts(g, end, s + P, hi);
    forall k | 0 <= k < |es|
      ensures s <= es[k] + |end| <= |g|
    {
      assert es[k] in es;
    }
  }

  /** One step of the scan: offset `e` contributes its substring exactly
      when `end` occurs there. */
  lemma ScanStep(g: seq<char>, s: nat, P: nat, end: seq<char>, e: nat)
    requires s + P <= e
    ensures InGenome(g, PairsWith(s, OccIn(g, end, s + P, e)), |end|)
    ensures InGenome(g, PairsWith(s, OccIn(g, end, s + P, e + 1)), |end|)
    ensures Render(g, PairsWith(s, OccIn(g, end, s + P, e + 1)), |end|) ==
      Render(g, PairsWith(s, OccIn(g, end, s + P, e)), |end|)
      + (if OccursAt(g, end, e) then [g[s..e + |end|]] else [])
  {
    var ends := OccIn(g, end, s + P, e);
    PairsWithInGenome(g, s, P, end, e);
    PairsWithInGenome(g, s, P, end, e + 1);
    if OccursAt(g, end, e) {
      assert OccIn(g, end, s + P, e + 1) == ends + [e];
      assert PairsWith(s, ends + [e]) == PairsWith(s, ends) + [(s, e)];
      RenderAppend(g, PairsWith(s, ends), s, e, |end|);
    }
  }

  /** What `find` returns: the substrings of the accepted pairs, in order,
      taking the prefix offsets from `search`. */
  function Substrings(f: OrfFinder, start: seq<char>, end: seq<char>): seq<seq<char>>
    requires f.Valid() && IsWord(start)
  {
    Render(f.genome, MatchPairs(f.genome, Search(f, start), |start|, end), |end|)
  }

  /** `find`: for each offset `s` at which `start` occurs, ascending, scan
      the later offsets for `end` and collect the substrings from `s` to the
      end of each match. */
  method Find(f: OrfFinder, start: seq<char>, end: seq<char>) returns (substrings: seq<seq<char>>)
    requires f.Valid() && IsWord(start)
    ensures substrings == Substrings(f, start, end)
    ensures forall w :: w in substrings ==>
      && |w| >= |start| + |end|
      && w[..|start|] == start
      && w[|w| - |end|..] == end
    ensures |start| == 0 || |start| + |end| > |f.genome| ==> substrings == []
  {
    var g := f.genome;
    var startPositions := Search(f, start);
    substrings := [];
    var a := 0;
    while a < |startPositions|
      invariant 0 <= a <= |startPositions|
      invariant substrings == Render(g, MatchPairs(g, startPositions[..a], |start|, end), |end|)
    {
      var s := startPositions[a];
      var found := ScanEnds(g, s, |start|, end);
      FindStep(g, startPositions, a, |start|, end);
      substrings := substrings + found;
      a := a + 1;
    }
    assert startPositions[..a] == startPositions;
    FindShape(g, start, startPositions, end);
    FindEmpty(g, start, startPositions, end);
  }

  /** One step of the outer loop: prefix offset `starts[a]` contributes the
      substrings of its scan. */
  lemma FindStep(g: seq<char>, starts: seq<nat>, a: nat, P: nat, end: seq<char>)
    requires a < |starts|
    ensures InGenome(g, PairsWith(starts[a], OccIn(g, end, starts[a] + P, |g| - |end| + 1)), |end|)
    ensures Render(g, MatchPairs(g, starts[..a + 1], P, end), |end|) ==
      Render(g, MatchPairs(g, starts[..a], P, end), |end|)
      + Render(g, PairsWith(starts[a], OccIn(g, end, starts[a] + P, |g| - |end| + 1)), |end|)
  {
    var s := starts[a];
    var here := PairsWith(s, OccIn(g, end, s + P, |g| - |end| + 1));
    assert starts[..a + 1][..a] == starts[..a];
    assert MatchPairs(g, starts[..a + 1], P, end) == MatchPairs(g, starts[..a], P, end) + here;
    PairsWithInGenome(g, s, P, end, |g| - |end| + 1);
    RenderConcat(g, MatchPairs(g, starts[..a], P, end), here, |end|);
  }

  /** The substring from an occurrence of `start` at `s` to the end of an
      occurrence of `end` at `e >= s + |start|` begins with `start`, ends
      with `end`, and is at least as long as both together. */
  lemma MatchShape(g: seq<char>, start: seq<char>, end: seq<char>, s: nat, e: nat)
    requires OccursAt(g, start, s) && s + |start| <= e && OccursAt(g, end, e)
    ensures |g[s..e + |end|]| >= |start| + |end|
    ensures g[s..e + |end|][..|start|] == start
    ensures g[s..e + |end|][e + |end| - s - |end|..] == end
  {
    var w := g[s..e + |end|];
    assert w[..|start|] == g[s..s + |start|];
    assert w[e - s..] == g[e..e + |end|];
  }

  lemma RenderedShape(g: seq<char>, start: seq<char>, end: seq<char>, ps: seq<(nat, nat)>)
    requires InGenome(g, ps, |end|)
    requires forall k :: 0 <= k < |ps| ==>
      OccursAt(g, start, ps[k].0) && ps[k].0 + |start| <= ps[k].1 && OccursAt(g, end, ps[k].1)
    ensures forall w :: w in Render(g, ps, |end|) ==>
      && |w| >= |start| + |end|
      && w[..|start|] == start
      && w[|w| - |end|..] == end
  {
    var ws := Render(g, ps, |end|);
    forall w | w in ws
      ensures |w| >= |start| + |end| && w[..|start|] == start && w[|w| - |end|..] == end
    {
      var k :| 0 <= k < |ws| && ws[k] == w;
      MatchShape(g, start, end, ps[k].0, ps[k].1);
    }
  }

  /** Each substring `find` emits begins with `start`, ends with `end` and is
      at least as long as both together. */
  lemma FindShape(g: seq<char>, start: seq<char>, starts: seq<nat>, end: seq<char>)
    requires forall s :: s in starts <==> |start| > 0 && OccursAt(g, start, s)
    ensures forall w :: w in Render(g, MatchPairs(g, starts, |start|, end), |end|) ==>
      && |w| >= |start| + |end|
      && w[..|start|] == start
      && w[|w| - |end|..] == end
  {
    var ps := MatchPairs(g, starts, |start|, end);
    MatchPairsMember(g, starts, |start|, end);
    forall k | 0 <= k < |ps|
      ensures OccursAt(g, start, ps[k].0) && ps[k].0 + |start| <= ps[k].1 && OccursAt(g, end, ps[k].1)
    {
      assert (ps[k].0, ps[k].1) in ps;
    }
    RenderedShape(g, start, end, ps);
  }

  /** `find` accepts no pair when `start` is empty (`search` finds nothing)
      or when `start` and `end` cannot both fit in the genome. */
  lemma FindEmpty(g: seq<char>, start: seq<char>, starts: seq<nat>, end: seq<char>)
    requires forall s :: s in starts <==> |start| > 0 && OccursAt(g, start, s)
    ensures |start| == 0 || |start| + |end| > |g| ==> MatchPairs(g, starts, |start|, end) == []
  {
    var ps := MatchPairs(g, starts, |start|, end);
    MatchPairsMember(g, starts, |start|, end);
    if |ps| > 0 {
      assert (ps[0].0, ps[0].1) in ps;
    }
  }

  /** A substring is emitted by `find` for the pair `(s, e)` exactly when
      `start` occurs at `s`, `end` occurs at `e`, and the `end` match begins
      no earlier than right after the `start` match; the pairs come in
      ascending `s`, then ascending `e`. */
  lemma FindPairs(f: OrfFinder, start: seq<char>, end: seq<char>)
    requires f.Valid() && IsWord(start)
    ensures forall s, e :: (s, e) in MatchPairs(f.genome, Search(f, start), |start|, end) <==>
      && |start| > 0
      && OccursAt(f.genome, start, s)
      && s + |start| <= e
      && OccursAt(f.genome, end, e)
    ensures LexIncreasing(MatchPairs(f.genome, Search(f, start), |start|, end))
  {
    MatchPairsMember(f.genome, Search(f, start), |start|, end);
    MatchPairsSorted(f.genome, Search(f, start), |start|, end);
  }
}

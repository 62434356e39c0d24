/**
 * The two helpers every BPE round uses: collecting the adjacent pairs of a
 * split, and fusing every left-to-right, non-overlapping occurrence of one
 * pair.  Replaying a list of merges in order is the encoder's core step.
 */
module Merging {
  import opened Symbols

  /** The pair that starts at position i of w. */
  function PairAt(w: Word, i: nat): Pair
    requires i + 1 < |w|
  {
    (w[i], w[i + 1])
  }

  /** The set of adjacent symbol pairs of a word (reference definition). */
  function AdjacentPairs(w: Word): set<Pair>
  {
    set i | 0 <= i < |w| - 1 :: PairAt(w, i)
  }

  /** Collects the adjacent pairs of `word` into a set, position by position. */
  method GetBytePairs(word: Word) returns (pairs: set<Pair>)
    ensures pairs == AdjacentPairs(word)
    ensures forall i :: 0 <= i < |word| - 1 ==> PairAt(word, i) in pairs
    ensures forall p :: p in pairs ==> exists i :: 0 <= i < |word| - 1 && PairAt(word, i) == p
    ensures |word| <= 1 ==> pairs == {}
  {
    pairs := {};
    var i := 0;
    while i < |word| - 1
      invariant 0 <= i && (i == 0 || i <= |word| - 1)
      invariant pairs == set j | 0 <= j < i && j + 1 < |word| :: PairAt(word, j)
    {
      pairs := pairs + {PairAt(word, i)};
      i := i + 1;
    }
  }

  lemma AdjacentPairsUnfold(w: Word)
    requires |w| >= 1
    ensures AdjacentPairs(w) == (if |w| >= 2 then {(w[0], w[1])} else {}) + AdjacentPairs(w[1..])
  {
    var t := w[1..];
    if |w| >= 2 {
      assert PairAt(w, 0) in AdjacentPairs(w);
    }
    forall p | p in AdjacentPairs(w)
      ensures p in (if |w| >= 2 then {(w[0], w[1])} else {}) + AdjacentPairs(t)
    {
      var i :| 0 <= i < |w| - 1 && p == PairAt(w, i);
      if i > 0 {
        assert p == PairAt(t, i - 1);
      }
    }
    forall p | p in AdjacentPairs(t)
      ensures p in AdjacentPairs(w)
    {
      var i :| 0 <= i < |t| - 1 && p == PairAt(t, i);
      assert p == PairAt(w, i + 1);
    }
  }

  /** The merged word: scanning left to right, an occurrence of `p` is fused
      into the single symbol p.0 + p.1 and scanning resumes after it. */
  function Merged(w: Word, p: Pair): Word
  {
    if |w| >= 2 && w[0] == p.0 && w[1] == p.1 then [p.0 + p.1] + Merged(w[2..], p)
    else if w == [] then []
    else [w[0]] + Merged(w[1..], p)
  }

  /** Builds the merged word in a fresh list with an index-driven scan. */
  method MergePair(word: Word, pair: Pair) returns (newWord: Word)
    ensures newWord == Merged(word, pair)
  {
    newWord := [];
    var i := 0;
    while i < |word|
      invariant 0 <= i <= |word|
      invariant newWord + Merged(word[i..], pair) == Merged(word, pair)
    {
      if i < |word| - 1 && word[i] == pair.0 && word[i + 1] == pair.1 {
        assert word[i..][2..] == word[i + 2..];
        newWord := newWord + [pair.0 + pair.1];
        i := i + 2;
      } else {
        assert word[i..][1..] == word[i + 1..];
        newWord := newWord + [word[i]];
        i := i + 1;
      }
    }
    assert word[i..] == [];
  }

  /** Merging never changes the text the word spells. */
  lemma {:induction false} MergedPreservesText(w: Word, p: Pair)
    ensures Concat(Merged(w, p)) == Concat(w)
  {
    if |w| >= 2 && w[0] == p.0 && w[1] == p.1 {
      MergedPreservesText(w[2..], p);
      assert w[1..][1..] == w[2..];
      assert ([p.0 + p.1] + Merged(w[2..], p))[1..] == Merged(w[2..], p);
    } else if w != [] {
      MergedPreservesText(w[1..], p);
      assert ([w[0]] + Merged(w[1..], p))[1..] == Merged(w[1..], p);
    }
  }

  /** Merging never lengthens a word; it shortens it exactly when the pair
      occurs adjacently, and otherwise leaves it unchanged. */
  lemma {:induction false} MergedLength(w: Word, p: Pair)
    ensures |Merged(w, p)| <= |w|
    ensures p in AdjacentPairs(w) <==> |Merged(w, p)| < |w|
    ensures p !in AdjacentPairs(w) <==> Merged(w, p) == w
  {
    if w != [] {
      AdjacentPairsUnfold(w);
      if |w| >= 2 && w[0] == p.0 && w[1] == p.1 {
        MergedLength(w[2..], p);
      } else {
        MergedLength(w[1..], p);
        assert [w[0]] + w[1..] == w;
      }
    }
  }

  /** Every symbol of a merged word was already in it or is the fused pair. */
  lemma {:induction false} MergedSymbols(w: Word, p: Pair)
    ensures forall s :: s in Merged(w, p) ==> s in w || s == p.0 + p.1
  {
    if |w| >= 2 && w[0] == p.0 && w[1] == p.1 {
      MergedSymbols(w[2..], p);
      assert forall s :: s in w[2..] ==> s in w;
    } else if w != [] {
      MergedSymbols(w[1..], p);
      assert forall s :: s in w[1..] ==> s in w;
    }
  }

  /** Fusion is left to right and non-overlapping: three equal symbols
      merged on their own pair keep the last one apart. */
  lemma MergeIsLeftToRight()
    ensures Merged(["a", "a", "a"], ("a", "a")) == ["aa", "a"]
    ensures Merged(["a", "a", "a", "a"], ("a", "a")) == ["aa", "aa"]
  {
    var p: Pair := ("a", "a");
    assert p.0 + p.1 == "aa";
    var a: Word := ["a", "a", "a"];
    assert a[2..] == ["a"];
    assert Merged(["a"], p) == ["a"] by {
      assert ["a"][1..] == [];
    }
    assert Merged(a, p) == ["aa"] + Merged(["a"], p);
    var b: Word := ["a", "a", "a", "a"];
    assert b[2..] == ["a", "a"];
    assert Merged(["a", "a"], p) == ["aa"] by {
      assert ["a", "a"][2..] == [];
    }
    assert Merged(b, p) == ["aa"] + Merged(["a", "a"], p);
  }

  /** Applies the merges in recorded order, one full pass per merge. */
  function Replay(w: Word, merges: seq<Pair>): Word
  {
    if merges == [] then w
    else Merged(Replay(w, merges[..|merges| - 1]), merges[|merges| - 1])
  }

  /** The symbols merges can create: one fused symbol per merge. */
  function Fused(merges: seq<Pair>): (r: set<Symbol>)
    ensures |r| <= |merges|
    ensures forall i :: 0 <= i < |merges| ==> merges[i].0 + merges[i].1 in r
    ensures forall s :: s in r ==> exists i :: 0 <= i < |merges| && s == merges[i].0 + merges[i].1
  {
    if merges == [] then {}
    else
      var last := merges[|merges| - 1];
      Fused(merges[..|merges| - 1]) + {last.0 + last.1}
  }

  /** Replaying merges never changes the text the word spells. */
  lemma {:induction false} ReplayPreservesText(w: Word, merges: seq<Pair>)
    ensures Concat(Replay(w, merges)) == Concat(w)
  {
    if merges != [] {
      ReplayPreservesText(w, merges[..|merges| - 1]);
      MergedPreservesText(Replay(w, merges[..|merges| - 1]), merges[|merges| - 1]);
    }
  }

  /** Replaying merges never lengthens a word. */
  lemma {:induction false} ReplayLength(w: Word, merges: seq<Pair>)
    ensures |Replay(w, merges)| <= |w|
  {
    if merges != [] {
      ReplayLength(w, merges[..|merges| - 1]);
      MergedLength(Replay(w, merges[..|merges| - 1]), merges[|merges| - 1]);
    }
  }

  /** After replaying merges, every symbol is an original one or a fused one. */
  lemma {:induction false} ReplaySymbols(w: Word, merges: seq<Pair>)
    ensures forall s :: s in Replay(w, merges) ==> s in w || s in Fused(merges)
  {
    if merges != [] {
      var init := merges[..|merges| - 1];
      ReplaySymbols(w, init);
      MergedSymbols(Replay(w, init), merges[|merges| - 1]);
      assert forall s :: s in Fused(init) ==> s in Fused(merges);
    }
  }
}

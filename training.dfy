/**
 * The reduction loop both trainers share: count pairs, stop when there are
 * none, otherwise record a pair of maximal weight and merge it in every
 * unit's split, at most `numMerges` times.
 */
module Training {
  import opened Symbols
  import opened Merging
  import opened PairCounting
  import opened Vocabulary

  predicate Distinct<T(==)>(xs: seq<T>)
  {
    forall i, j :: 0 <= i < j < |xs| ==> xs[i] != xs[j]
  }

  /** The distinct elements of `xs` in order of first occurrence: the key
      order of a dictionary filled from `xs`. */
  function Dedup(xs: seq<Chunk>): (r: seq<Chunk>)
    ensures Distinct(r)
    ensures |r| <= |xs|
    ensures forall x :: x in r <==> x in xs
  {
    if xs == [] then []
    else
      var d := Dedup(xs[..|xs| - 1]);
      var last := xs[|xs| - 1];
      assert forall x :: x in xs <==> x in xs[..|xs| - 1] || x == last by {
        assert xs == xs[..|xs| - 1] + [last];
      }
      if last in d then d else d + [last]
  }

  /** Two equal entries become one key: the deduplicated list is strictly
      shorter than a list with a repeated element. */
  lemma {:induction false} DedupCollapsesDuplicates(xs: seq<Chunk>, i: nat, j: nat)
    requires i < j < |xs| && xs[i] == xs[j]
    ensures |Dedup(xs)| < |xs|
  {
    var init := xs[..|xs| - 1];
    if j == |xs| - 1 {
      assert xs[i] == init[i];
    } else {
      DedupCollapsesDuplicates(init, i, j);
    }
  }

  /** The training state is well formed: distinct units, each with a weight
      and a split, and nothing else. */
  predicate Tracked(order: seq<Chunk>, freqs: map<Chunk, nat>, splits: map<Chunk, Word>)
  {
    && Distinct(order)
    && freqs.Keys == (set k | k in order)
    && splits.Keys == (set k | k in order)
  }

  /** Every unit split into one symbol per byte. */
  ghost function InitialSplits(units: seq<Chunk>): map<Chunk, Word>
  {
    map k | k in units :: Split(k)
  }

  /** Fills the split dictionary, one entry per listed unit. */
  method SplitAll(units: seq<Chunk>) returns (splits: map<Chunk, Word>)
    ensures splits.Keys == (set k | k in units)
    ensures forall k :: k in splits ==> splits[k] == Split(k)
    ensures splits == InitialSplits(units)
  {
    splits := map[];
    for i := 0 to |units|
      invariant splits.Keys == (set k | k in units[..i])
      invariant forall k :: k in splits ==> splits[k] == Split(k)
    {
      assert units[..i + 1] == units[..i] + [units[i]];
      splits := splits[units[i] := Split(units[i])];
    }
    assert units[..|units|] == units;
  }

  /** Every split after one merge. */
  ghost function MergeEach(splits: map<Chunk, Word>, p: Pair): map<Chunk, Word>
  {
    map k | k in splits :: Merged(splits[k], p)
  }

  /** Every split after replaying `merges` in order. */
  ghost function ReplayEach(splits: map<Chunk, Word>, merges: seq<Pair>): map<Chunk, Word>
  {
    map k | k in splits :: Replay(splits[k], merges)
  }

  lemma ReplayEachStep(splits: map<Chunk, Word>, merges: seq<Pair>, p: Pair)
    ensures ReplayEach(splits, merges + [p]) == MergeEach(ReplayEach(splits, merges), p)
    ensures forall i :: 0 <= i <= |merges| ==> (merges + [p])[..i] == merges[..i]
  {
    assert (merges + [p])[..|merges|] == merges;
  }

  /** Rewrites every unit's split with the pair merged, key by key. */
  method MergeAll(splits: map<Chunk, Word>, pair: Pair) returns (merged: map<Chunk, Word>)
    ensures merged == MergeEach(splits, pair)
  {
    merged := splits;
    var rest := splits.Keys;
    while rest != {}
      invariant rest <= splits.Keys
      invariant merged.Keys == splits.Keys
      invariant forall k :: k in merged ==> merged[k] == if k in rest then splits[k] else Merged(splits[k], pair)
    {
      var word :| word in rest;
      var w := MergePair(merged[word], pair);
      merged := merged[word := w];
      rest := rest - {word};
    }
  }

  /** Every recorded merge had maximal weight in the splits as they stood
      when it was chosen: the last one after replaying the others, and so
      on back to the first. */
  ghost predicate AllBest(order: seq<Chunk>, freqs: map<Chunk, nat>, initial: map<Chunk, Word>, merges: seq<Pair>)
    requires Tracked(order, freqs, initial)
  {
    merges != [] ==>
      var init := merges[..|merges| - 1];
      && AllBest(order, freqs, initial, init)
      && IsBest(merges[|merges| - 1], order, freqs, ReplayEach(initial, init))
  }

  /** Recording a pair of maximal weight keeps every recorded merge maximal. */
  lemma AllBestSnoc(order: seq<Chunk>, freqs: map<Chunk, nat>, initial: map<Chunk, Word>, merges: seq<Pair>, best: Pair)
    requires Tracked(order, freqs, initial)
    requires AllBest(order, freqs, initial, merges)
    requires IsBest(best, order, freqs, ReplayEach(initial, merges))
    ensures AllBest(order, freqs, initial, merges + [best])
  {
    assert (merges + [best])[..|merges|] == merges;
  }

  /** Each recorded merge had maximal weight in the splits produced by the
      merges recorded before it. */
  lemma {:induction false} AllBestEach(order: seq<Chunk>, freqs: map<Chunk, nat>, initial: map<Chunk, Word>, merges: seq<Pair>, i: nat)
    requires Tracked(order, freqs, initial)
    requires AllBest(order, freqs, initial, merges)
    requires i < |merges|
    ensures IsBest(merges[i], order, freqs, ReplayEach(initial, merges[..i]))
  {
    var n := |merges| - 1;
    var init := merges[..n];
    if i < n {
      AllBestEach(order, freqs, initial, init, i);
      PrefixOfPrefix(merges, n, i);
    } else {
      PrefixOfPrefix(merges, n, n);
    }
  }

  lemma PrefixOfPrefix(merges: seq<Pair>, n: nat, i: nat)
    requires i <= n <= |merges|
    ensures merges[..n][..i] == merges[..i]
    ensures i < n ==> merges[..n][i] == merges[i]
    ensures merges[..n][..n] == merges[..n]
  {
  }

  /** `merges` is what greedy training may record: at most `numMerges`
      pairs, each of maximal weight in the splits as they stood when it was
      chosen, and fewer than `numMerges` only if no pair was left. */
  ghost predicate GreedyRun(order: seq<Chunk>, freqs: map<Chunk, nat>, initial: map<Chunk, Word>, numMerges: nat, merges: seq<Pair>)
    requires Tracked(order, freqs, initial)
  {
    && |merges| <= numMerges
    && AllBest(order, freqs, initial, merges)
    && (|merges| < numMerges ==> AllPairs(order, ReplayEach(initial, merges)) == {})
  }

  /** The training loop: count, stop if no pair is left, pick a maximal pair,
      record it and merge it in every split. */
  method LearnMerges(order: seq<Chunk>, freqs: map<Chunk, nat>, initial: map<Chunk, Word>, numMerges: nat)
    returns (merges: seq<Pair>, splits: map<Chunk, Word>)
    requires Tracked(order, freqs, initial)
    ensures GreedyRun(order, freqs, initial, numMerges, merges)
    ensures splits == ReplayEach(initial, merges)
  {
    merges, splits := [], initial;
    assert splits == ReplayEach(initial, merges);
    var round := 0;
    while round < numMerges
      invariant round == |merges| <= numMerges
      invariant splits == ReplayEach(initial, merges)
      invariant AllBest(order, freqs, initial, merges)
    {
      var pairFreqs := CountPairs(order, freqs, splits);
      if pairFreqs.Keys == {} {
        break;
      }
      var best := MostFrequent(pairFreqs);
      AllBestSnoc(order, freqs, initial, merges, best);
      ReplayEachStep(initial, merges, best);
      merges := merges + [best];
      splits := MergeAll(splits, best);
      round := round + 1;
    }
  }

  /** The distinct symbols across the splits of the listed units. */
  ghost function SymbolsOf(order: seq<Chunk>, splits: map<Chunk, Word>): set<Symbol>
    requires forall i :: 0 <= i < |order| ==> order[i] in splits
  {
    set i, s | 0 <= i < |order| && s in splits[order[i]] :: s
  }

  /** Gathers every symbol of every split into one set. */
  method CollectSymbols(order: seq<Chunk>, splits: map<Chunk, Word>) returns (symbols: set<Symbol>)
    requires forall i :: 0 <= i < |order| ==> order[i] in splits
    ensures symbols == SymbolsOf(order, splits)
  {
    symbols := {};
    for i := 0 to |order|
      invariant symbols == SymbolsOf(order[..i], splits)
    {
      var word := splits[order[i]];
      symbols := symbols + (set s | s in word);
      assert order[..i + 1] == order[..i] + [order[i]];
      assert SymbolsOf(order[..i + 1], splits) == SymbolsOf(order[..i], splits) + (set s | s in word) by {
        var o := order[..i + 1];
        forall s | s in SymbolsOf(o, splits)
          ensures s in SymbolsOf(order[..i], splits) || s in word
        {
          var j :| 0 <= j < |o| && s in splits[o[j]];
          if j < i {
            assert o[j] == order[..i][j];
          }
        }
        forall s | s in SymbolsOf(order[..i], splits)
          ensures s in SymbolsOf(o, splits)
        {
          var j :| 0 <= j < i && s in splits[order[..i][j]];
          assert o[j] == order[..i][j];
        }
        forall s | s in word
          ensures s in SymbolsOf(o, splits)
        {
          assert o[i] == order[i];
        }
      }
    }
    assert order[..|order|] == order;
  }

  /** The number of symbols across the splits of the listed units. */
  ghost function TotalLength(order: seq<Chunk>, splits: map<Chunk, Word>): nat
    requires forall i :: 0 <= i < |order| ==> order[i] in splits
  {
    if order == [] then 0
    else TotalLength(order[..|order| - 1], splits) + |splits[order[|order| - 1]]|
  }

  /** One merge never adds symbols, and removes at least one when the pair is
      adjacent somewhere. */
  lemma {:induction false} MergeShrinksTotal(order: seq<Chunk>, splits: map<Chunk, Word>, p: Pair)
    requires forall i :: 0 <= i < |order| ==> order[i] in splits
    ensures TotalLength(order, MergeEach(splits, p)) <= TotalLength(order, splits)
    ensures p in AllPairs(order, splits) ==> TotalLength(order, MergeEach(splits, p)) < TotalLength(order, splits)
  {
    if order != [] {
      var init, k := order[..|order| - 1], order[|order| - 1];
      MergeShrinksTotal(init, splits, p);
      MergedLength(splits[k], p);
      assert init + [k] == order;
      AllPairsSnoc(init, splits, k);
    }
  }

  lemma DropLast(merges: seq<Pair>)
    requires merges != []
    ensures merges[..|merges| - 1] + [merges[|merges| - 1]] == merges
  {
  }

  /** Each recorded merge removed at least one symbol, so a run can record no
      more merges than the symbols it started with allow. */
  lemma {:induction false} GreedyRunShrinks(order: seq<Chunk>, freqs: map<Chunk, nat>, initial: map<Chunk, Word>, merges: seq<Pair>)
    requires Tracked(order, freqs, initial)
    requires AllBest(order, freqs, initial, merges)
    ensures |merges| + TotalLength(order, ReplayEach(initial, merges)) <= TotalLength(order, initial)
  {
    if merges == [] {
      assert ReplayEach(initial, merges) == initial;
    } else {
      var init, p := merges[..|merges| - 1], merges[|merges| - 1];
      DropLast(merges);
      var prev := ReplayEach(initial, init);
      assert p in AllPairs(order, prev);
      ReplayEachStep(initial, init, p);
      GreedyRunShrinks(order, freqs, initial, init);
      MergeShrinksTotal(order, prev, p);
    }
  }

  /** Each merge introduces at most one new symbol: after n merges there are
      at most n more distinct symbols than before training. */
  lemma VocabularyGrowth(order: seq<Chunk>, initial: map<Chunk, Word>, merges: seq<Pair>)
    requires forall i :: 0 <= i < |order| ==> order[i] in initial
    ensures |SymbolsOf(order, ReplayEach(initial, merges))| <= |SymbolsOf(order, initial)| + |merges|
  {
    var final := ReplayEach(initial, merges);
    forall s | s in SymbolsOf(order, final)
      ensures s in SymbolsOf(order, initial) + Fused(merges)
    {
      var i :| 0 <= i < |order| && s in final[order[i]];
      ReplaySymbols(initial[order[i]], merges);
    }
    SubsetCardinality(SymbolsOf(order, final), SymbolsOf(order, initial) + Fused(merges));
  }

  /** A single unit of n >= 1 bytes trained with a budget of at least n - 1
      merges ends as one symbol spelling the whole unit. */
  lemma SingleUnitCollapses(k: Chunk, freqs: map<Chunk, nat>, initial: map<Chunk, Word>, numMerges: nat, merges: seq<Pair>)
    requires Tracked([k], freqs, initial) && initial[k] == Split(k)
    requires GreedyRun([k], freqs, initial, numMerges, merges)
    requires k != [] && numMerges + 1 >= |k|
    ensures ReplayEach(initial, merges)[k] == [Rendered(k)]
  {
    var final := ReplayEach(initial, merges);
    var w := final[k];
    assert [k][..0] == [];
    GreedyRunShrinks([k], freqs, initial, merges);
    assert |merges| + |w| <= |k|;
    ReplayPreservesText(Split(k), merges);
    SplitJoin(k);
    assert Concat(w) == Rendered(k);
    assert w != [];
    AdjacentPairsUnfold(w);
    UnitPairsCounted([k], final, 0);
    assert w == [w[0]];
    ConcatSingle(w[0]);
  }
}

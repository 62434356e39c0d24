/**
 * Pair counting and best-pair selection.
 *
 * The training state is a list of distinct corpus units (the keys of the
 * trainer's frequency dictionary, in its iteration order), the weight of
 * each unit and its current split.  Each unit votes its weight ONCE for
 * every distinct adjacent pair of its split, however often the pair
 * repeats inside it.
 */
module PairCounting {
  import opened Symbols
  import opened Merging

  /** A corpus unit, identified by its text (here: its bytes). */
  type Chunk = seq<Byte>

  /** Every listed unit has a weight and a split. */
  predicate Covers(order: seq<Chunk>, freqs: map<Chunk, nat>, splits: map<Chunk, Word>)
  {
    forall i :: 0 <= i < |order| ==> order[i] in freqs && order[i] in splits
  }

  /** Every pair adjacent in the split of some listed unit. */
  ghost function AllPairs(order: seq<Chunk>, splits: map<Chunk, Word>): set<Pair>
    requires forall i :: 0 <= i < |order| ==> order[i] in splits
  {
    set i, p | 0 <= i < |order| && p in AdjacentPairs(splits[order[i]]) :: p
  }

  /** The aggregate weight of `p`: the sum of the weights of the units whose
      split contains `p` at least once. */
  ghost function PairWeight(p: Pair, order: seq<Chunk>, freqs: map<Chunk, nat>, splits: map<Chunk, Word>): nat
    requires Covers(order, freqs, splits)
  {
    if order == [] then 0
    else
      var k := order[|order| - 1];
      PairWeight(p, order[..|order| - 1], freqs, splits) + (if p in AdjacentPairs(splits[k]) then freqs[k] else 0)
  }

  lemma AllPairsSnoc(order: seq<Chunk>, splits: map<Chunk, Word>, k: Chunk)
    requires forall i :: 0 <= i < |order| ==> order[i] in splits
    requires k in splits
    ensures AllPairs(order + [k], splits) == AllPairs(order, splits) + AdjacentPairs(splits[k])
  {
    var o := order + [k];
    forall p | p in AllPairs(o, splits)
      ensures p in AllPairs(order, splits) + AdjacentPairs(splits[k])
    {
      var i :| 0 <= i < |o| && p in AdjacentPairs(splits[o[i]]);
      if i < |order| {
        assert o[i] == order[i];
      }
    }
    forall p | p in AllPairs(order, splits)
      ensures p in AllPairs(o, splits)
    {
      var i :| 0 <= i < |order| && p in AdjacentPairs(splits[order[i]]);
      assert o[i] == order[i];
    }
    forall p | p in AdjacentPairs(splits[k])
      ensures p in AllPairs(o, splits)
    {
      assert o[|order|] == k;
    }
  }

  /** The pairs of every listed unit are among all pairs. */
  lemma UnitPairsCounted(order: seq<Chunk>, splits: map<Chunk, Word>, j: nat)
    requires forall i :: 0 <= i < |order| ==> order[i] in splits
    requires j < |order|
    ensures AdjacentPairs(splits[order[j]]) <= AllPairs(order, splits)
  {
  }

  /** A pair adjacent in no unit weighs nothing. */
  lemma {:induction false} WeightOutsidePairs(p: Pair, order: seq<Chunk>, freqs: map<Chunk, nat>, splits: map<Chunk, Word>)
    requires Covers(order, freqs, splits)
    requires p !in AllPairs(order, splits)
    ensures PairWeight(p, order, freqs, splits) == 0
  {
    if order != [] {
      var init := order[..|order| - 1];
      AllPairsSnoc(init, splits, order[|order| - 1]);
      assert init + [order[|order| - 1]] == order;
      WeightOutsidePairs(p, init, freqs, splits);
    }
  }

  /** A unit votes its weight once for a pair, however often the pair
      repeats in it: "aaaa" gives ("a", "a") the weight 1, not 3. */
  lemma OneVotePerUnit()
    ensures PairWeight(("a", "a"), [[97, 97, 97, 97]], map[[97, 97, 97, 97] := 1],
                       map[[97, 97, 97, 97] := Split([97, 97, 97, 97])]) == 1
  {
    var w := Split([97, 97, 97, 97]);
    assert w[0] == "a" && w[1] == "a";
    assert PairAt(w, 0) in AdjacentPairs(w);
  }

  /** Hand-traced first round of "aa aa aa bb": the units "aa" (weight 1),
      " aa" (weight 2) and " bb" (weight 1) give ("a", "a") the weight 3. */
  lemma WeightsAcrossUnits()
    ensures var order: seq<Chunk> := [[97, 97], [32, 97, 97], [32, 98, 98]];
            var freqs := map[order[0] := 1, order[1] := 2, order[2] := 1];
            var splits := map k | k in order :: Split(k);
            PairWeight(("a", "a"), order, freqs, splits) == 3
  {
    var order: seq<Chunk> := [[97, 97], [32, 97, 97], [32, 98, 98]];
    var freqs := map[order[0] := 1, order[1] := 2, order[2] := 1];
    var splits := map k | k in order :: Split(k);
    var a := ("a", "a");
    assert a in AdjacentPairs(splits[order[0]]) by {
      assert PairAt(splits[order[0]], 0) == a;
    }
    assert a in AdjacentPairs(splits[order[1]]) by {
      assert PairAt(splits[order[1]], 1) == a;
    }
    assert a !in AdjacentPairs(splits[order[2]]) by {
      assert splits[order[2]] == [" ", "b", "b"];
    }
    var o1, o2 := order[..1], order[..2];
    assert o1[..0] == [] && o1[0] == order[0];
    assert PairWeight(a, o1, freqs, splits) == 1;
    assert o2[..1] == o1 && o2[1] == order[1];
    assert PairWeight(a, o2, freqs, splits) == 3;
    assert order[..2] == o2;
  }

  /** Adds `freq` to the count of every pair of `pairs`; a missing entry
      counts as zero. */
  method AddWeight(pairFreqs: map<Pair, nat>, pairs: set<Pair>, freq: nat) returns (updated: map<Pair, nat>)
    ensures updated.Keys == pairFreqs.Keys + pairs
    ensures forall p :: p in updated ==>
      updated[p] == (if p in pairFreqs then pairFreqs[p] else 0) + (if p in pairs then freq else 0)
  {
    updated := pairFreqs;
    var rest := pairs;
    while rest != {}
      invariant rest <= pairs
      invariant updated.Keys == pairFreqs.Keys + (pairs - rest)
      invariant forall p :: p in updated ==>
        updated[p] == (if p in pairFreqs then pairFreqs[p] else 0) + (if p in pairs - rest then freq else 0)
    {
      var pair :| pair in rest;
      updated := updated[pair := (if pair in updated then updated[pair] else 0) + freq];
      rest := rest - {pair};
    }
  }

  /** Adding the pairs of one more unit turns the counts of the units
      before it into the counts including it. */
  lemma CountStep(order: seq<Chunk>, freqs: map<Chunk, nat>, splits: map<Chunk, Word>, i: nat,
                  pairFreqs: map<Pair, nat>, updated: map<Pair, nat>)
    requires Covers(order, freqs, splits) && i < |order|
    requires pairFreqs.Keys == AllPairs(order[..i], splits)
    requires forall p :: p in pairFreqs ==> pairFreqs[p] == PairWeight(p, order[..i], freqs, splits)
    requires updated.Keys == pairFreqs.Keys + AdjacentPairs(splits[order[i]])
    requires forall p :: p in updated ==>
      updated[p] == (if p in pairFreqs then pairFreqs[p] else 0) + (if p in AdjacentPairs(splits[order[i]]) then freqs[order[i]] else 0)
    ensures updated.Keys == AllPairs(order[..i + 1], splits)
    ensures forall p :: p in updated ==> updated[p] == PairWeight(p, order[..i + 1], freqs, splits)
  {
    var prefix := order[..i];
    assert order[..i + 1] == prefix + [order[i]];
    AllPairsSnoc(prefix, splits, order[i]);
    forall p | p in updated
      ensures updated[p] == PairWeight(p, order[..i + 1], freqs, splits)
    {
      if p !in pairFreqs {
        WeightOutsidePairs(p, prefix, freqs, splits);
      }
    }
  }

  /** Counts, for every pair of every unit's split, the units' weights into a
      fresh dictionary. */
  method CountPairs(order: seq<Chunk>, freqs: map<Chunk, nat>, splits: map<Chunk, Word>)
    returns (pairFreqs: map<Pair, nat>)
    requires Covers(order, freqs, splits)
    ensures pairFreqs.Keys == AllPairs(order, splits)
    ensures forall p :: p in pairFreqs ==> pairFreqs[p] == PairWeight(p, order, freqs, splits)
  {
    pairFreqs := map[];
    for i := 0 to |order|
      invariant pairFreqs.Keys == AllPairs(order[..i], splits)
      invariant forall p :: p in pairFreqs ==> pairFreqs[p] == PairWeight(p, order[..i], freqs, splits)
    {
      var word := order[i];
      var pairs := GetBytePairs(splits[word]);
      var updated := AddWeight(pairFreqs, pairs, freqs[word]);
      CountStep(order, freqs, splits, i, pairFreqs, updated);
      pairFreqs := updated;
    }
    assert order[..|order|] == order;
  }

  /** `p` has the greatest aggregate weight of all pairs present. */
  ghost predicate IsBest(p: Pair, order: seq<Chunk>, freqs: map<Chunk, nat>, splits: map<Chunk, Word>)
    requires Covers(order, freqs, splits)
  {
    && p in AllPairs(order, splits)
    && forall q :: q in AllPairs(order, splits) ==> PairWeight(q, order, freqs, splits) <= PairWeight(p, order, freqs, splits)
  }

  /** The key `max` returns when it visits the keys in the order `visit`:
      a later key replaces the current best only when its count is strictly
      greater, so among equal counts the first visited wins. */
  function MaxBy(visit: seq<Pair>, counts: map<Pair, nat>): (r: Pair)
    requires visit != []
    requires forall i :: 0 <= i < |visit| ==> visit[i] in counts
    ensures r in visit
  {
    if |visit| == 1 then visit[0]
    else
      var prev := MaxBy(visit[..|visit| - 1], counts);
      var k := visit[|visit| - 1];
      if counts[k] > counts[prev] then k else prev
  }

  /** `MaxBy` picks a visited key of maximal count, and every key visited
      before it has a strictly smaller count. */
  lemma {:induction false} MaxByIsFirstMax(visit: seq<Pair>, counts: map<Pair, nat>)
    requires visit != []
    requires forall i :: 0 <= i < |visit| ==> visit[i] in counts
    ensures exists j ::
      && 0 <= j < |visit|
      && visit[j] == MaxBy(visit, counts)
      && (forall i :: 0 <= i < j ==> counts[visit[i]] < counts[MaxBy(visit, counts)])
    ensures forall i :: 0 <= i < |visit| ==> counts[visit[i]] <= counts[MaxBy(visit, counts)]
  {
    var r := MaxBy(visit, counts);
    if |visit| == 1 {
      assert visit[0] == r;
    } else {
      var front := visit[..|visit| - 1];
      var k := visit[|visit| - 1];
      MaxByIsFirstMax(front, counts);
      var prev := MaxBy(front, counts);
      var j :| 0 <= j < |front| && front[j] == prev && forall i :: 0 <= i < j ==> counts[front[i]] < counts[prev];
      if counts[k] > counts[prev] {
        assert r == k;
        forall i | 0 <= i < |visit| - 1
          ensures counts[visit[i]] < counts[r]
        {
          assert visit[i] == front[i];
        }
        assert visit[|visit| - 1] == r;
      } else {
        assert r == prev;
        forall i | 0 <= i < j
          ensures counts[visit[i]] < counts[r]
        {
          assert visit[i] == front[i];
        }
        assert visit[j] == r;
        forall i | 0 <= i < |visit|
          ensures counts[visit[i]] <= counts[r]
        {
          if i < |visit| - 1 {
            assert visit[i] == front[i];
          }
        }
      }
    }
  }

  /** When no two keys share a count, `max` returns the same key whatever
      order it visits them in. */
  lemma TieFreeChoiceIgnoresOrder(v1: seq<Pair>, v2: seq<Pair>, counts: map<Pair, nat>)
    requires v1 != [] && forall i :: 0 <= i < |v1| ==> v1[i] in counts
    requires forall k :: k in v1 <==> k in v2
    requires forall a, b :: a in counts && b in counts && a != b ==> counts[a] != counts[b]
    ensures v2 != [] && forall i :: 0 <= i < |v2| ==> v2[i] in counts
    ensures MaxBy(v1, counts) == MaxBy(v2, counts)
  {
    assert v1[0] in v2;
    forall i | 0 <= i < |v2|
      ensures v2[i] in counts
    {
      assert v2[i] in v1;
    }
    MaxByIsFirstMax(v1, counts);
    MaxByIsFirstMax(v2, counts);
    var r1 := MaxBy(v1, counts);
    var r2 := MaxBy(v2, counts);
    assert r1 in v2 && r2 in v1;
  }

  /** `visit` lists every key of `counts` exactly once. */
  predicate VisitsEachKeyOnce(visit: seq<Pair>, counts: map<Pair, nat>)
  {
    && visit != []
    && (forall i :: 0 <= i < |visit| ==> visit[i] in counts)
    && (forall q :: q in counts ==> q in visit)
    && (forall i, j :: 0 <= i < j < |visit| ==> visit[i] != visit[j])
  }

  /** Picks the pair `max` returns for some order of visiting the keys.  The
      dictionary's own order (units first, hashing within a unit) is left
      open. */
  method MostFrequent(pairFreqs: map<Pair, nat>) returns (best: Pair)
    requires pairFreqs.Keys != {}
    ensures best in pairFreqs
    ensures forall q :: q in pairFreqs ==> pairFreqs[q] <= pairFreqs[best]
    ensures exists visit: seq<Pair> :: VisitsEachKeyOnce(visit, pairFreqs) && best == MaxBy(visit, pairFreqs)
  {
    var rest := pairFreqs.Keys;
    best :| best in rest;
    ghost var visit := [best];
    rest := rest - {best};
    while rest != {}
      invariant rest <= pairFreqs.Keys
      invariant visit != [] && forall i :: 0 <= i < |visit| ==> visit[i] in pairFreqs
      invariant forall q :: q in pairFreqs ==> (q in visit <==> q !in rest)
      invariant forall i, j :: 0 <= i < j < |visit| ==> visit[i] != visit[j]
      invariant best == MaxBy(visit, pairFreqs)
      invariant best in pairFreqs
      invariant forall q :: q in pairFreqs && q !in rest ==> pairFreqs[q] <= pairFreqs[best]
      decreases rest
    {
      var q :| q in rest;
      assert (visit + [q])[..|visit|] == visit;
      if pairFreqs[q] > pairFreqs[best] {
        best := q;
      }
      visit := visit + [q];
      rest := rest - {q};
    }
  }
}

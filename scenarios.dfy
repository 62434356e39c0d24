/**
 * Hand-traced training and encoding runs of both tokenizers, derived from
 * the general definitions: each run's recorded merges, final vocabulary
 * symbols and encodings are forced by the greedy specification alone.
 */
module Scenarios {
  import opened Symbols
  import opened Merging
  import opened PairCounting
  import opened Training
  import opened WordBounded
  import opened BoundaryFree

  // ----- small worked facts about two- and three-symbol words -----

  lemma PairsOfTwo(x: Symbol, y: Symbol)
    ensures AdjacentPairs([x, y]) == {(x, y)}
  {
    assert PairAt([x, y], 0) == (x, y);
  }

  lemma PairsOfThree(x: Symbol, y: Symbol, z: Symbol)
    ensures AdjacentPairs([x, y, z]) == {(x, y), (y, z)}
  {
    assert PairAt([x, y, z], 0) == (x, y);
    assert PairAt([x, y, z], 1) == (y, z);
  }

  lemma MergedOne(x: Symbol, p: Pair)
    ensures Merged([x], p) == [x]
  {
    assert [x][1..] == [];
  }

  lemma MergedTwo(x: Symbol, y: Symbol, p: Pair)
    ensures Merged([x, y], p) == if (x, y) == p then [x + y] else [x, y]
  {
    assert [x, y][2..] == [] && [x, y][1..] == [y];
    assert Merged([], p) == [];
    MergedOne(y, p);
  }

  lemma MergedThree(x: Symbol, y: Symbol, z: Symbol, p: Pair)
    ensures Merged([x, y, z], p) ==
      if (x, y) == p then [x + y, z]
      else if (y, z) == p then [x, y + z]
      else [x, y, z]
  {
    assert [x, y, z][2..] == [z] && [x, y, z][1..] == [y, z];
    assert [z][1..] == [];
    MergedTwo(y, z, p);
  }

  lemma ReplayTwo(w: Word, p: Pair, q: Pair)
    ensures Replay(w, [p]) == Merged(w, p)
    ensures Replay(w, [p, q]) == Merged(Merged(w, p), q)
  {
    assert [p][..0] == [] && [p, q][..1] == [p];
  }

  /** Aggregate weights over three units, unit by unit. */
  lemma {:induction false} WeightOfThree(p: Pair, a: Chunk, b: Chunk, c: Chunk, freqs: map<Chunk, nat>, splits: map<Chunk, Word>)
    requires a in freqs && b in freqs && c in freqs && a in splits && b in splits && c in splits
    ensures Covers([a, b, c], freqs, splits)
    ensures PairWeight(p, [a, b, c], freqs, splits) ==
      (if p in AdjacentPairs(splits[a]) then freqs[a] else 0) +
      (if p in AdjacentPairs(splits[b]) then freqs[b] else 0) +
      (if p in AdjacentPairs(splits[c]) then freqs[c] else 0)
    ensures AllPairs([a, b, c], splits) == AdjacentPairs(splits[a]) + AdjacentPairs(splits[b]) + AdjacentPairs(splits[c])
  {
    var o: seq<Chunk> := [a, b, c];
    assert Covers(o, freqs, splits) && Covers([a, b], freqs, splits) && Covers([a], freqs, splits);
    assert o[..2] == [a, b] && [a, b][..1] == [a] && [a][..0] == [];
    AllPairsSnoc([], splits, a);
    AllPairsSnoc([a], splits, b);
    AllPairsSnoc([a, b], splits, c);
    assert [] + [a] == [a] && [a] + [b] == [a, b] && [a, b] + [c] == o;
    assert PairWeight(p, [a], freqs, splits) == (if p in AdjacentPairs(splits[a]) then freqs[a] else 0);
    assert PairWeight(p, [a, b], freqs, splits) == PairWeight(p, [a], freqs, splits) + (if p in AdjacentPairs(splits[b]) then freqs[b] else 0);
  }

  /** A run with a budget of at least one whose first round has a single
      pair of maximal weight records that pair first. */
  lemma FirstRound(order: seq<Chunk>, freqs: map<Chunk, nat>, initial: map<Chunk, Word>, numMerges: nat, merges: seq<Pair>, p: Pair)
    requires Tracked(order, freqs, initial)
    requires numMerges >= 1
    requires GreedyRun(order, freqs, initial, numMerges, merges)
    requires p in AllPairs(order, initial)
    requires forall m :: IsBest(m, order, freqs, initial) ==> m == p
    ensures |merges| >= 1 && merges[..1] == [p]
  {
    assert ReplayEach(initial, []) == initial;
    assert |merges| == 0 ==> merges == [];
    assert |merges| >= 1;
    AllBestEach(order, freqs, initial, merges, 0);
    assert merges[..0] == [];
  }

  /** A run with a budget of at least two that recorded `p` first, and whose
      second round has a single pair of maximal weight, records that pair
      second. */
  lemma SecondRound(order: seq<Chunk>, freqs: map<Chunk, nat>, initial: map<Chunk, Word>, numMerges: nat, merges: seq<Pair>, p: Pair, q: Pair)
    requires Tracked(order, freqs, initial)
    requires numMerges >= 2
    requires GreedyRun(order, freqs, initial, numMerges, merges)
    requires |merges| >= 1 && merges[..1] == [p]
    requires q in AllPairs(order, ReplayEach(initial, [p]))
    requires forall m :: IsBest(m, order, freqs, ReplayEach(initial, [p])) ==> m == q
    ensures |merges| >= 2 && merges[..2] == [p, q]
  {
    assert merges[..|merges|] == merges;
    assert |merges| >= 2;
    AllBestEach(order, freqs, initial, merges, 1);
    assert merges[..2] == merges[..1] + [merges[1]];
  }

  /** A run with a budget of two merges in which each round has a single
      pair of maximal weight records exactly those two pairs. */
  lemma ForcedRun(order: seq<Chunk>, freqs: map<Chunk, nat>, initial: map<Chunk, Word>, merges: seq<Pair>, p: Pair, q: Pair)
    requires Tracked(order, freqs, initial)
    requires GreedyRun(order, freqs, initial, 2, merges)
    requires p in AllPairs(order, initial)
    requires forall m :: IsBest(m, order, freqs, initial) ==> m == p
    requires q in AllPairs(order, ReplayEach(initial, [p]))
    requires forall m :: IsBest(m, order, freqs, ReplayEach(initial, [p])) ==> m == q
    ensures merges == [p, q]
  {
    FirstRound(order, freqs, initial, 2, merges, p);
    SecondRound(order, freqs, initial, 2, merges, p, q);
    assert merges == merges[..2];
  }

  /** A run whose first two rounds each have a single pair of maximal
      weight, after which no pair is left, records exactly those two pairs
      and stops, whatever its budget of at least two merges. */
  lemma ForcedStop(order: seq<Chunk>, freqs: map<Chunk, nat>, initial: map<Chunk, Word>, numMerges: nat, merges: seq<Pair>, p: Pair, q: Pair)
    requires Tracked(order, freqs, initial)
    requires numMerges >= 2
    requires GreedyRun(order, freqs, initial, numMerges, merges)
    requires p in AllPairs(order, initial)
    requires forall m :: IsBest(m, order, freqs, initial) ==> m == p
    requires q in AllPairs(order, ReplayEach(initial, [p]))
    requires forall m :: IsBest(m, order, freqs, ReplayEach(initial, [p])) ==> m == q
    requires AllPairs(order, ReplayEach(initial, [p, q])) == {}
    ensures merges == [p, q]
  {
    FirstRound(order, freqs, initial, numMerges, merges, p);
    SecondRound(order, freqs, initial, numMerges, merges, p, q);
    if 2 < |merges| {
      AllBestEach(order, freqs, initial, merges, 2);
    }
    assert |merges| == 2;
    assert merges == merges[..2];
  }

  // ----- word-bounded training on "aa aa aa bb" with two merges -----

  const AA: Chunk := [97, 97]
  const SpaceAA: Chunk := [32, 97, 97]
  const SpaceBB: Chunk := [32, 98, 98]

  /** The byte text "aa aa aa bb". */
  const AaText: seq<Byte> := [97, 97, 32, 97, 97, 32, 97, 97, 32, 98, 98]

  lemma InitialSymbols()
    ensures Split(AA) == ["a", "a"]
    ensures Split(SpaceAA) == [" ", "a", "a"]
    ensures Split(SpaceBB) == [" ", "b", "b"]
  {
  }

  /** The distinct chunks of the pretokenized corpus, in first-seen order. */
  lemma HandTracedOrder(words: seq<Chunk>)
    requires words == [AA, SpaceAA, SpaceAA, SpaceBB]
    ensures Dedup(words) == [AA, SpaceAA, SpaceBB]
  {
    assert AA != SpaceAA && SpaceAA != SpaceBB && AA != SpaceBB;
    assert words[..3] == [AA, SpaceAA, SpaceAA];
    assert [AA, SpaceAA, SpaceAA][..2] == [AA, SpaceAA];
    assert [AA, SpaceAA][..1] == [AA] && [AA][..0] == [];
    assert Dedup([AA]) == [AA];
    assert Dedup([AA, SpaceAA]) == [AA, SpaceAA];
    assert Dedup([AA, SpaceAA, SpaceAA]) == [AA, SpaceAA];
  }

  /** The chunk counts of the pretokenized corpus. */
  lemma HandTracedCounts(words: seq<Chunk>)
    requires words == [AA, SpaceAA, SpaceAA, SpaceBB]
    ensures Occurrences(words) == map[AA := 1, SpaceAA := 2, SpaceBB := 1]
  {
    assert AA != SpaceAA && SpaceAA != SpaceBB && AA != SpaceBB;
    var m := multiset(words);
    assert m == multiset{AA} + multiset{SpaceAA} + multiset{SpaceAA} + multiset{SpaceBB};
    assert m[AA] == 1 && m[SpaceAA] == 2 && m[SpaceBB] == 1;
  }

  const HandOrder: seq<Chunk> := [AA, SpaceAA, SpaceBB]
  const HandFreqs: map<Chunk, nat> := map[AA := 1, SpaceAA := 2, SpaceBB := 1]

  /** Round one: ("a", "a") weighs 3 (1 from "aa", 2 from " aa"), every
      other pair at most 2, so it is the only pair of maximal weight. */
  lemma HandRoundOne(m: Pair)
    ensures Covers(HandOrder, HandFreqs, InitialSplits(HandOrder))
    ensures ("a", "a") in AllPairs(HandOrder, InitialSplits(HandOrder))
    ensures IsBest(m, HandOrder, HandFreqs, InitialSplits(HandOrder)) ==> m == ("a", "a")
  {
    var initial := InitialSplits(HandOrder);
    InitialSymbols();
    assert initial[AA] == ["a", "a"] && initial[SpaceAA] == [" ", "a", "a"] && initial[SpaceBB] == [" ", "b", "b"];
    PairsOfTwo("a", "a");
    PairsOfThree(" ", "a", "a");
    PairsOfThree(" ", "b", "b");
    WeightOfThree(("a", "a"), AA, SpaceAA, SpaceBB, HandFreqs, initial);
    WeightOfThree(m, AA, SpaceAA, SpaceBB, HandFreqs, initial);
  }

  /** The splits after ("a", "a"): ["aa"], [" ", "aa"], [" ", "b", "b"]. */
  lemma HandSplitsOne()
    ensures var s1 := ReplayEach(InitialSplits(HandOrder), [("a", "a")]);
            s1[AA] == ["aa"] && s1[SpaceAA] == [" ", "aa"] && s1[SpaceBB] == [" ", "b", "b"]
  {
    var aa: Pair := ("a", "a");
    assert aa.0 + aa.1 == "aa";
    InitialSymbols();
    MergedTwo("a", "a", aa);
    MergedThree(" ", "a", "a", aa);
    MergedThree(" ", "b", "b", aa);
    ReplayTwo(Split(AA), aa, aa);
    ReplayTwo(Split(SpaceAA), aa, aa);
    ReplayTwo(Split(SpaceBB), aa, aa);
  }

  /** Round two: (" ", "aa") weighs 2, every other pair 1. */
  lemma HandRoundTwo(m: Pair)
    ensures Covers(HandOrder, HandFreqs, ReplayEach(InitialSplits(HandOrder), [("a", "a")]))
    ensures (" ", "aa") in AllPairs(HandOrder, ReplayEach(InitialSplits(HandOrder), [("a", "a")]))
    ensures IsBest(m, HandOrder, HandFreqs, ReplayEach(InitialSplits(HandOrder), [("a", "a")])) ==> m == (" ", "aa")
  {
    var s1 := ReplayEach(InitialSplits(HandOrder), [("a", "a")]);
    HandSplitsOne();
    assert AdjacentPairs(["aa"]) == {};
    PairsOfTwo(" ", "aa");
    PairsOfThree(" ", "b", "b");
    WeightOfThree((" ", "aa"), AA, SpaceAA, SpaceBB, HandFreqs, s1);
    WeightOfThree(m, AA, SpaceAA, SpaceBB, HandFreqs, s1);
  }

  /** The final splits: ["aa"], [" aa"], [" ", "b", "b"]. */
  lemma HandSplitsTwo()
    ensures var s2 := ReplayEach(InitialSplits(HandOrder), [("a", "a"), (" ", "aa")]);
            s2[AA] == ["aa"] && s2[SpaceAA] == [" aa"] && s2[SpaceBB] == [" ", "b", "b"]
  {
    var aa: Pair := ("a", "a");
    var spaceAa: Pair := (" ", "aa");
    assert spaceAa.0 + spaceAa.1 == " aa";
    var initial := InitialSplits(HandOrder);
    HandSplitsOne();
    ReplayTwo(initial[AA], aa, spaceAa);
    ReplayTwo(initial[SpaceAA], aa, spaceAa);
    ReplayTwo(initial[SpaceBB], aa, spaceAa);
    MergedOne("aa", spaceAa);
    MergedTwo(" ", "aa", spaceAa);
    MergedThree(" ", "b", "b", spaceAa);
  }

  /** The final splits hold the symbols " ", " aa", "aa" and "b". */
  lemma HandFinalSymbols()
    ensures SymbolsOf(HandOrder, ReplayEach(InitialSplits(HandOrder), [("a", "a"), (" ", "aa")])) == {" ", " aa", "aa", "b"}
  {
    var s2 := ReplayEach(InitialSplits(HandOrder), [("a", "a"), (" ", "aa")]);
    HandSplitsTwo();
    forall s | s in SymbolsOf(HandOrder, s2)
      ensures s in {" ", " aa", "aa", "b"}
    {
      var i :| 0 <= i < |HandOrder| && s in s2[HandOrder[i]];
    }
    assert "aa" in s2[HandOrder[0]];
    assert " aa" in s2[HandOrder[1]];
    assert " " in s2[HandOrder[2]] && "b" in s2[HandOrder[2]];
  }

  /** Any greedy run with a budget of two on the hand-traced units records
      ("a", "a") then (" ", "aa"). */
  lemma HandGreedy(merges: seq<Pair>)
    requires Tracked(HandOrder, HandFreqs, InitialSplits(HandOrder))
    requires GreedyRun(HandOrder, HandFreqs, InitialSplits(HandOrder), 2, merges)
    ensures merges == [("a", "a"), (" ", "aa")]
  {
    var initial := InitialSplits(HandOrder);
    HandRoundOne(("a", "a"));
    forall m | IsBest(m, HandOrder, HandFreqs, initial)
      ensures m == ("a", "a")
    {
      HandRoundOne(m);
    }
    HandRoundTwo((" ", "aa"));
    forall m | IsBest(m, HandOrder, HandFreqs, ReplayEach(initial, [("a", "a")]))
      ensures m == (" ", "aa")
    {
      HandRoundTwo(m);
    }
    ForcedRun(HandOrder, HandFreqs, initial, merges, ("a", "a"), (" ", "aa"));
  }

  /** With a pretokenizer that cuts "aa aa aa bb" into "aa", " aa", " aa",
      " bb" and a budget of two merges, training records exactly
      ("a", "a") then (" ", "aa"), and the vocabulary holds " ", " aa", "aa"
      and "b". */
  lemma WordBoundedHandTraced(pretokenize: seq<Byte> -> seq<Chunk>, merges: seq<Pair>)
    requires pretokenize(AaText) == [AA, SpaceAA, SpaceAA, SpaceBB]
    requires var words := CorpusWords([AaText], pretokenize);
             var order := Dedup(words);
             && Tracked(order, Occurrences(words), InitialSplits(order))
             && GreedyRun(order, Occurrences(words), InitialSplits(order), 2, merges)
    ensures merges == [("a", "a"), (" ", "aa")]
    ensures var order := Dedup(CorpusWords([AaText], pretokenize));
            SymbolsOf(order, ReplayEach(InitialSplits(order), merges)) == {" ", " aa", "aa", "b"}
  {
    var words := CorpusWords([AaText], pretokenize);
    assert [AaText][..0] == [];
    assert words == [AA, SpaceAA, SpaceAA, SpaceBB];
    HandTracedOrder(words);
    HandTracedCounts(words);
    HandGreedy(merges);
    HandFinalSymbols();
  }

  /** Encoding single chunks with the merges ("a", "a"), (" ", "aa"). */
  lemma HandChunkEncodings()
    ensures EncodeChunk(AA, [("a", "a"), (" ", "aa")]) == ["aa"]
    ensures EncodeChunk(SpaceAA, [("a", "a"), (" ", "aa")]) == [" aa"]
    ensures EncodeChunk(SpaceBB, [("a", "a"), (" ", "aa")]) == [" ", "b", "b"]
    ensures EncodeChunk([98, 98], [("a", "a"), (" ", "aa")]) == ["b", "b"]
  {
    HandSplitsTwo();
    var aa: Pair := ("a", "a");
    var spaceAa: Pair := (" ", "aa");
    assert Split([98, 98]) == ["b", "b"];
    ReplayTwo(["b", "b"], aa, spaceAa);
    MergedTwo("b", "b", aa);
    MergedTwo("b", "b", spaceAa);
  }

  /** A one-chunk list encodes as its chunk. */
  lemma EncodeOne(a: Chunk, merges: seq<Pair>)
    ensures Encode([a], merges) == EncodeChunk(a, merges)
  {
    assert [a][..0] == [];
  }

  /** A two-chunk list encodes chunk by chunk. */
  lemma EncodeTwo(a: Chunk, b: Chunk, merges: seq<Pair>)
    ensures Encode([a, b], merges) == EncodeChunk(a, merges) + EncodeChunk(b, merges)
  {
    assert [a, b][..1] == [a];
    EncodeOne(a, merges);
  }

  /** Encoding with the merges ("a", "a"), (" ", "aa"): "aa", " aa" gives
      ["aa", " aa"]; the unseen "bb" stays byte by byte; "aa", " bb" gives
      ["aa", " ", "b", "b"]. */
  lemma WordBoundedEncodings()
    ensures Encode([AA, SpaceAA], [("a", "a"), (" ", "aa")]) == ["aa", " aa"]
    ensures Encode([[98, 98]], [("a", "a"), (" ", "aa")]) == ["b", "b"]
    ensures Encode([AA, SpaceBB], [("a", "a"), (" ", "aa")]) == ["aa", " ", "b", "b"]
  {
    var ms := [("a", "a"), (" ", "aa")];
    HandChunkEncodings();
    EncodeTwo(AA, SpaceAA, ms);
    EncodeOne([98, 98], ms);
    EncodeTwo(AA, SpaceBB, ms);
  }

  // ----- word-bounded training on "ab ab": the run stops early -----

  const Ab: Chunk := [97, 98]
  const SpaceAb: Chunk := [32, 97, 98]
  const AbOrder: seq<Chunk> := [Ab, SpaceAb]
  const AbFreqs: map<Chunk, nat> := map[Ab := 1, SpaceAb := 1]

  /** Aggregate weights over two units, unit by unit. */
  lemma {:induction false} WeightOfTwo(p: Pair, a: Chunk, b: Chunk, freqs: map<Chunk, nat>, splits: map<Chunk, Word>)
    requires a in freqs && b in freqs && a in splits && b in splits
    ensures Covers([a, b], freqs, splits)
    ensures PairWeight(p, [a, b], freqs, splits) ==
      (if p in AdjacentPairs(splits[a]) then freqs[a] else 0) +
      (if p in AdjacentPairs(splits[b]) then freqs[b] else 0)
    ensures AllPairs([a, b], splits) == AdjacentPairs(splits[a]) + AdjacentPairs(splits[b])
  {
    assert Covers([a, b], freqs, splits) && Covers([a], freqs, splits);
    assert [a, b][..1] == [a] && [a][..0] == [];
    AllPairsSnoc([], splits, a);
    AllPairsSnoc([a], splits, b);
    assert [] + [a] == [a] && [a] + [b] == [a, b];
    assert PairWeight(p, [a], freqs, splits) == (if p in AdjacentPairs(splits[a]) then freqs[a] else 0);
  }

  /** The chunks "ab" and " ab" are two units of weight 1. */
  lemma AbUnits(words: seq<Chunk>)
    requires words == [Ab, SpaceAb]
    ensures Dedup(words) == AbOrder
    ensures Occurrences(words) == AbFreqs
  {
    assert Ab != SpaceAb;
    assert words[..1] == [Ab] && [Ab][..0] == [];
    assert multiset(words) == multiset{Ab} + multiset{SpaceAb};
  }

  /** The splits of "ab" and " ab" before, between and after the merges
      ("a", "b") and (" ", "ab"). */
  lemma AbSplits()
    ensures var initial := InitialSplits(AbOrder);
            initial[Ab] == ["a", "b"] && initial[SpaceAb] == [" ", "a", "b"]
    ensures var s1 := ReplayEach(InitialSplits(AbOrder), [("a", "b")]);
            s1[Ab] == ["ab"] && s1[SpaceAb] == [" ", "ab"]
    ensures var s2 := ReplayEach(InitialSplits(AbOrder), [("a", "b"), (" ", "ab")]);
            s2[Ab] == ["ab"] && s2[SpaceAb] == [" ab"]
  {
    var ab: Pair := ("a", "b");
    var spaceAb: Pair := (" ", "ab");
    assert ab.0 + ab.1 == "ab" && spaceAb.0 + spaceAb.1 == " ab";
    assert Split(Ab) == ["a", "b"] && Split(SpaceAb) == [" ", "a", "b"];
    MergedTwo("a", "b", ab);
    MergedThree(" ", "a", "b", ab);
    MergedOne("ab", spaceAb);
    MergedTwo(" ", "ab", spaceAb);
    ReplayTwo(Split(Ab), ab, spaceAb);
    ReplayTwo(Split(SpaceAb), ab, spaceAb);
  }

  /** Round one: ("a", "b") weighs 2, (" ", "a") weighs 1. */
  lemma AbRoundOne(m: Pair)
    ensures Covers(AbOrder, AbFreqs, InitialSplits(AbOrder))
    ensures ("a", "b") in AllPairs(AbOrder, InitialSplits(AbOrder))
    ensures IsBest(m, AbOrder, AbFreqs, InitialSplits(AbOrder)) ==> m == ("a", "b")
  {
    var initial := InitialSplits(AbOrder);
    AbSplits();
    PairsOfTwo("a", "b");
    PairsOfThree(" ", "a", "b");
    WeightOfTwo(("a", "b"), Ab, SpaceAb, AbFreqs, initial);
    WeightOfTwo(m, Ab, SpaceAb, AbFreqs, initial);
  }

  /** Round two: (" ", "ab") is the only pair left. */
  lemma AbRoundTwo(m: Pair)
    ensures Covers(AbOrder, AbFreqs, ReplayEach(InitialSplits(AbOrder), [("a", "b")]))
    ensures AllPairs(AbOrder, ReplayEach(InitialSplits(AbOrder), [("a", "b")])) == {(" ", "ab")}
  {
    var s1 := ReplayEach(InitialSplits(AbOrder), [("a", "b")]);
    AbSplits();
    assert AdjacentPairs(["ab"]) == {};
    PairsOfTwo(" ", "ab");
    WeightOfTwo(m, Ab, SpaceAb, AbFreqs, s1);
  }

  /** After both merges no pair is left. */
  lemma AbExhausted()
    ensures AllPairs(AbOrder, ReplayEach(InitialSplits(AbOrder), [("a", "b"), (" ", "ab")])) == {}
  {
    var s2 := ReplayEach(InitialSplits(AbOrder), [("a", "b"), (" ", "ab")]);
    AbSplits();
    assert AdjacentPairs(["ab"]) == {} && AdjacentPairs([" ab"]) == {};
    WeightOfTwo(("a", "b"), Ab, SpaceAb, AbFreqs, s2);
  }

  /** Any greedy run with a budget of two or more on "ab", " ab" records
      ("a", "b") then (" ", "ab") and stops. */
  lemma AbGreedy(numMerges: nat, merges: seq<Pair>)
    requires numMerges >= 2
    requires Tracked(AbOrder, AbFreqs, InitialSplits(AbOrder))
    requires GreedyRun(AbOrder, AbFreqs, InitialSplits(AbOrder), numMerges, merges)
    ensures merges == [("a", "b"), (" ", "ab")]
  {
    var initial := InitialSplits(AbOrder);
    AbRoundOne(("a", "b"));
    forall m | IsBest(m, AbOrder, AbFreqs, initial)
      ensures m == ("a", "b")
    {
      AbRoundOne(m);
    }
    AbRoundTwo((" ", "ab"));
    AbExhausted();
    ForcedStop(AbOrder, AbFreqs, initial, numMerges, merges, ("a", "b"), (" ", "ab"));
  }

  /** With a pretokenizer that cuts "ab ab" into "ab", " ab" and a budget of
      two merges or more, training records ("a", "b") then (" ", "ab") and
      stops early, and "ab ab" encodes as ["ab", " ab"]: no token spans the
      space. */
  lemma WordBoundaryRespected(pretokenize: seq<Byte> -> seq<Chunk>, numMerges: nat, merges: seq<Pair>)
    requires pretokenize(AbAb) == [Ab, SpaceAb]
    requires numMerges >= 2
    requires var words := CorpusWords([AbAb], pretokenize);
             var order := Dedup(words);
             && Tracked(order, Occurrences(words), InitialSplits(order))
             && GreedyRun(order, Occurrences(words), InitialSplits(order), numMerges, merges)
    ensures merges == [("a", "b"), (" ", "ab")]
    ensures Encode(pretokenize(AbAb), merges) == ["ab", " ab"]
  {
    var words := CorpusWords([AbAb], pretokenize);
    assert [AbAb][..0] == [];
    assert words == [Ab, SpaceAb];
    AbUnits(words);
    AbGreedy(numMerges, merges);
    AbEncoding();
  }

  /** Encoding "ab", " ab" with the merges ("a", "b"), (" ", "ab") gives
      ["ab", " ab"]. */
  lemma AbEncoding()
    ensures Encode([Ab, SpaceAb], [("a", "b"), (" ", "ab")]) == ["ab", " ab"]
  {
    var ms := [("a", "b"), (" ", "ab")];
    AbSplits();
    var final := ReplayEach(InitialSplits(AbOrder), ms);
    assert EncodeChunk(Ab, ms) == final[Ab];
    assert EncodeChunk(SpaceAb, ms) == final[SpaceAb];
    EncodeTwo(Ab, SpaceAb, ms);
  }

  // ----- boundary-free training on "aaaa" with two merges -----

  const Aaaa: seq<Byte> := [97, 97, 97, 97]
  const SpOrder: seq<Chunk> := [Aaaa]
  const SpFreqs: map<Chunk, nat> := map[Aaaa := 1]

  lemma SingleChunk(text: seq<Byte>)
    requires text != [] && CharCount(text) <= ChunkSize
    ensures Chunks(text) == [text]
    ensures Dedup(Chunks(text)) == [text]
  {
    CharPrefixWhole(text, ChunkSize);
    assert text[..|text|] == text && text[|text|..] == [];
    assert [text][..0] == [];
  }

  /** The corpus ["aaaa"] is one chunk of weight 1. */
  lemma SpUnits()
    ensures Dedup(Chunks(JoinCorpus([Aaaa]))) == SpOrder
    ensures UnitWeights(Chunks(JoinCorpus([Aaaa]))) == SpFreqs
  {
    assert JoinCorpus([Aaaa]) == Aaaa;
    assert CharCount(Aaaa) == 4;
    SingleChunk(Aaaa);
  }

  /** The split of "aaaa" before, between and after the two merges. */
  lemma SpSplits()
    ensures InitialSplits(SpOrder)[Aaaa] == ["a", "a", "a", "a"]
    ensures ReplayEach(InitialSplits(SpOrder), [("a", "a")])[Aaaa] == ["aa", "aa"]
    ensures ReplayEach(InitialSplits(SpOrder), [("a", "a"), ("aa", "aa")])[Aaaa] == ["aaaa"]
  {
    var aa: Pair := ("a", "a");
    var aaaa: Pair := ("aa", "aa");
    assert aaaa.0 + aaaa.1 == "aaaa";
    var w0: Word := ["a", "a", "a", "a"];
    assert Split(Aaaa) == w0;
    ReplayTwo(w0, aa, aaaa);
    MergeIsLeftToRight();
    MergedTwo("aa", "aa", aaaa);
  }

  lemma PairsOfFour()
    ensures AdjacentPairs(["a", "a", "a", "a"]) == {("a", "a")}
  {
    var w: Word := ["a", "a", "a", "a"];
    assert PairAt(w, 0) == ("a", "a");
    forall p | p in AdjacentPairs(w) ensures p == ("a", "a") {
      var i :| 0 <= i < |w| - 1 && p == PairAt(w, i);
    }
  }

  /** The only pair of a single unit is the best one. */
  lemma OnlyPairIsBest(m: Pair, q: Pair, splits: map<Chunk, Word>)
    requires Aaaa in splits && AdjacentPairs(splits[Aaaa]) == {q}
    ensures Covers(SpOrder, SpFreqs, splits)
    ensures AllPairs(SpOrder, splits) == {q}
    ensures IsBest(m, SpOrder, SpFreqs, splits) ==> m == q
  {
    assert SpOrder[0] == Aaaa;
  }

  /** Any greedy run with a budget of two on "aaaa" records ("a", "a") then
      ("aa", "aa"). */
  lemma SpGreedy(merges: seq<Pair>)
    requires Tracked(SpOrder, SpFreqs, InitialSplits(SpOrder))
    requires GreedyRun(SpOrder, SpFreqs, InitialSplits(SpOrder), 2, merges)
    ensures merges == [("a", "a"), ("aa", "aa")]
  {
    var initial := InitialSplits(SpOrder);
    var s1 := ReplayEach(initial, [("a", "a")]);
    SpSplits();
    PairsOfFour();
    PairsOfTwo("aa", "aa");
    OnlyPairIsBest(("a", "a"), ("a", "a"), initial);
    forall m | IsBest(m, SpOrder, SpFreqs, initial)
      ensures m == ("a", "a")
    {
      OnlyPairIsBest(m, ("a", "a"), initial);
    }
    OnlyPairIsBest(("aa", "aa"), ("aa", "aa"), s1);
    forall m | IsBest(m, SpOrder, SpFreqs, s1)
      ensures m == ("aa", "aa")
    {
      OnlyPairIsBest(m, ("aa", "aa"), s1);
    }
    ForcedRun(SpOrder, SpFreqs, initial, merges, ("a", "a"), ("aa", "aa"));
  }

  /** Training on "aaaa" with a budget of two merges records ("a", "a") then
      ("aa", "aa"), and the vocabulary holds "aaaa" alone. */
  lemma BoundaryFreeHandTraced(merges: seq<Pair>)
    requires var chunks := Chunks(JoinCorpus([Aaaa]));
             var order := Dedup(chunks);
             && Tracked(order, UnitWeights(chunks), InitialSplits(order))
             && GreedyRun(order, UnitWeights(chunks), InitialSplits(order), 2, merges)
    ensures merges == [("a", "a"), ("aa", "aa")]
    ensures var order := Dedup(Chunks(JoinCorpus([Aaaa])));
            SymbolsOf(order, ReplayEach(InitialSplits(order), merges)) == {"aaaa"}
  {
    SpUnits();
    SpGreedy(merges);
    SpSplits();
    var final := ReplayEach(InitialSplits(SpOrder), merges);
    forall s | s in SymbolsOf(SpOrder, final)
      ensures s == "aaaa"
    {
      var i :| 0 <= i < |SpOrder| && s in final[SpOrder[i]];
    }
    assert "aaaa" in final[SpOrder[0]];
  }

  /** Encoding with the merges ("a", "a"), ("aa", "aa"): "aaaa" becomes one
      token, "aa" stays ["aa"], and "aaa" becomes ["aa", "a"]. */
  lemma BoundaryFreeEncodings()
    ensures Replay(Split([97, 97, 97, 97]), [("a", "a"), ("aa", "aa")]) == ["aaaa"]
    ensures Replay(Split([97, 97]), [("a", "a"), ("aa", "aa")]) == ["aa"]
    ensures Replay(Split([97, 97, 97]), [("a", "a"), ("aa", "aa")]) == ["aa", "a"]
  {
    var aa: Pair := ("a", "a");
    var aaaa: Pair := ("aa", "aa");
    assert Split([97, 97, 97, 97]) == ["a", "a", "a", "a"];
    assert Split([97, 97]) == ["a", "a"];
    assert Split([97, 97, 97]) == ["a", "a", "a"];
    ReplayTwo(["a", "a", "a", "a"], aa, aaaa);
    ReplayTwo(["a", "a"], aa, aaaa);
    ReplayTwo(["a", "a", "a"], aa, aaaa);
    assert aa.0 + aa.1 == "aa" && aaaa.0 + aaaa.1 == "aaaa";
    MergeIsLeftToRight();
    MergedTwo("a", "a", aa);
    MergedTwo("aa", "aa", aaaa);
    MergedTwo("aa", "a", aaaa);
    assert Merged(["aa"], aaaa) == ["aa"] by {
      assert ["aa"][1..] == [];
    }
  }

  /** The byte text "ab ab". */
  const AbAb: seq<Byte> := [97, 98, 32, 97, 98]

  lemma AbAbFacts()
    ensures JoinCorpus([AbAb]) == AbAb
    ensures CharCount(AbAb) == 5
    ensures Rendered(AbAb) == "ab ab"
  {
    assert AbAb[1..][1..][1..][1..][1..] == [];
  }

  /** Training on "ab ab" with a budget of five merges makes the encoding of
      "ab ab" one token that spans the space. */
  lemma CrossesSpaces(merges: seq<Pair>)
    requires var chunks := Chunks(JoinCorpus([AbAb]));
             var order := Dedup(chunks);
             && Tracked(order, UnitWeights(chunks), InitialSplits(order))
             && GreedyRun(order, UnitWeights(chunks), InitialSplits(order), 5, merges)
    ensures Replay(Split(AbAb), merges) == ["ab ab"]
  {
    AbAbFacts();
    SingleChunkBecomesOneToken([AbAb], 5, merges);
  }
}

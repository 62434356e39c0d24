/**
 * The boundary-free tokenizer (SentencePieceBPE).  The corpus is joined
 * with single spaces and sliced into chunks of 1000 characters, each of
 * weight 1; chunks are keyed by their text, so textually identical chunks
 * are one unit.  Encoding replays the merges over the whole text at once,
 * so tokens may span spaces.
 */
module BoundaryFree {
  import opened Symbols
  import opened Merging
  import opened PairCounting
  import opened Training
  import opened Vocabulary

  /** Characters per training chunk. */
  const ChunkSize: nat := 1000

  /** The separator placed between the texts of the corpus: a space. */
  const Separator: Byte := 32

  /** The corpus texts joined with single spaces. */
  function JoinCorpus(corpus: seq<seq<Byte>>): seq<Byte>
  {
    if corpus == [] then []
    else if |corpus| == 1 then corpus[0]
    else JoinCorpus(corpus[..|corpus| - 1]) + [Separator] + corpus[|corpus| - 1]
  }

  /** A UTF-8 continuation byte: it does not start a character. */
  predicate IsContinuation(b: Byte)
  {
    128 <= b < 192
  }

  /** The number of characters in UTF-8 text: its non-continuation bytes. */
  function CharCount(bytes: seq<Byte>): nat
  {
    if bytes == [] then 0
    else (if IsContinuation(bytes[0]) then 0 else 1) + CharCount(bytes[1..])
  }

  /** The number of bytes of the first `n` characters of `bytes`. */
  function CharPrefixLength(bytes: seq<Byte>, n: nat): (k: nat)
    ensures k <= |bytes|
    ensures n > 0 && bytes != [] ==> k > 0
  {
    if bytes == [] then 0
    else if IsContinuation(bytes[0]) then 1 + CharPrefixLength(bytes[1..], n)
    else if n == 0 then 0
    else 1 + CharPrefixLength(bytes[1..], n - 1)
  }

  /** The prefix holds at most `n` characters, exactly `n` when text is left
      over, and the rest starts at a character boundary. */
  lemma {:induction false} CharPrefixSlices(bytes: seq<Byte>, n: nat)
    ensures var k := CharPrefixLength(bytes, n);
            && CharCount(bytes[..k]) <= n
            && (k < |bytes| ==> CharCount(bytes[..k]) == n && !IsContinuation(bytes[k]))
  {
    if bytes != [] {
      var k := CharPrefixLength(bytes, n);
      if IsContinuation(bytes[0]) {
        CharPrefixSlices(bytes[1..], n);
        assert bytes[..k][1..] == bytes[1..][..k - 1];
      } else if n > 0 {
        CharPrefixSlices(bytes[1..], n - 1);
        assert bytes[..k][1..] == bytes[1..][..k - 1];
      }
    }
  }

  /** Text of at most `n` characters fits in one slice. */
  lemma {:induction false} CharPrefixWhole(bytes: seq<Byte>, n: nat)
    requires CharCount(bytes) <= n
    ensures CharPrefixLength(bytes, n) == |bytes|
  {
    if bytes != [] {
      if IsContinuation(bytes[0]) {
        CharPrefixWhole(bytes[1..], n);
      } else {
        CharPrefixWhole(bytes[1..], n - 1);
      }
    }
  }

  /** The text sliced into consecutive chunks of `ChunkSize` characters. */
  function Chunks(bytes: seq<Byte>): (chunks: seq<Chunk>)
    ensures Concat(chunks) == bytes
    ensures forall i :: 0 <= i < |chunks| ==> chunks[i] != []
    decreases |bytes|
  {
    if bytes == [] then []
    else
      var k := CharPrefixLength(bytes, ChunkSize);
      assert bytes[..k] + bytes[k..] == bytes;
      [bytes[..k]] + Chunks(bytes[k..])
  }

  /** Every chunk holds at most `ChunkSize` characters, every chunk but the
      last exactly `ChunkSize`, and every chunk after the first starts at a
      character boundary. */
  predicate CharacterSlices(chunks: seq<Chunk>)
  {
    forall i :: 0 <= i < |chunks| ==> SliceAt(chunks, i)
  }

  predicate SliceAt(chunks: seq<Chunk>, i: nat)
    requires i < |chunks|
  {
    && CharCount(chunks[i]) <= ChunkSize
    && (i + 1 < |chunks| ==> CharCount(chunks[i]) == ChunkSize && chunks[i + 1] != [] && !IsContinuation(chunks[i + 1][0]))
  }

  lemma {:induction false} ChunksAreCharacterSlices(bytes: seq<Byte>)
    ensures CharacterSlices(Chunks(bytes))
    decreases |bytes|
  {
    if bytes != [] {
      var k := CharPrefixLength(bytes, ChunkSize);
      CharPrefixSlices(bytes, ChunkSize);
      var rest := Chunks(bytes[k..]);
      ChunksAreCharacterSlices(bytes[k..]);
      assert CharacterSlices(rest);
      var chunks := Chunks(bytes);
      assert chunks == [bytes[..k]] + rest;
      forall i | 0 <= i < |chunks|
        ensures SliceAt(chunks, i)
      {
        if i == 0 {
          if 1 < |chunks| {
            assert chunks[1] == rest[0];
            assert rest[0][0] == bytes[k..][0] by {
              assert Concat(rest) == rest[0] + Concat(rest[1..]);
            }
          }
        } else {
          assert SliceAt(rest, i - 1);
          assert chunks[i] == rest[i - 1];
          if i + 1 < |chunks| {
            assert chunks[i + 1] == rest[i];
          }
        }
      }
      assert CharacterSlices(chunks);
    }
  }

  /** Weight 1 for every chunk, however often its text occurs. */
  function UnitWeights(chunks: seq<Chunk>): (freqs: map<Chunk, nat>)
    ensures freqs.Keys == (set c | c in chunks)
  {
    map c | c in chunks :: 1
  }

  class SentencePieceBPE {
    const numMerges: nat
    var merges: seq<Pair>
    var vocab: map<Symbol, nat>

    constructor (numMerges: nat)
      ensures this.numMerges == numMerges
      ensures merges == [] && vocab == map[]
    {
      this.numMerges := numMerges;
      merges := [];
      vocab := map[];
    }

    /** Learns merges over the 1000-character chunks of the joined corpus
        and appends them to `merges`; the vocabulary is rebuilt from the
        final splits of this corpus. */
    method Train(corpus: seq<seq<Byte>>)
      modifies this
      ensures |merges| >= |old(merges)| && merges[..|old(merges)|] == old(merges)
      ensures var chunks := Chunks(JoinCorpus(corpus));
              var order := Dedup(chunks);
              var initial := InitialSplits(order);
              && Tracked(order, UnitWeights(chunks), initial)
              && GreedyRun(order, UnitWeights(chunks), initial, numMerges, merges[|old(merges)|..])
              && vocab == Indexed(SymbolsOf(order, ReplayEach(initial, merges[|old(merges)|..])))
    {
      var fullText := JoinCorpus(corpus);
      var chunks := Chunks(fullText);
      var splits := SplitAll(chunks);
      var chunkFreqs := UnitWeights(chunks);
      var order := Dedup(chunks);
      assert splits == InitialSplits(order);
      var learned, finalSplits := LearnMerges(order, chunkFreqs, splits, numMerges);
      ghost var before := merges;
      merges := merges + learned;
      assert merges[|before|..] == learned;
      var symbols := CollectSymbols(order, finalSplits);
      vocab := Indexed(symbols);
    }

    /** Encodes the whole text at once: bytes, then every recorded merge in
        training order, one pass per merge. */
    method Tokenize(text: seq<Byte>) returns (tokens: seq<Symbol>)
      ensures tokens == Replay(Split(text), merges)
    {
      tokens := Split(text);
      for j := 0 to |merges|
        invariant tokens == Replay(Split(text), merges[..j])
      {
        assert merges[..j + 1][..j] == merges[..j];
        tokens := MergePair(tokens, merges[j]);
      }
      assert merges[..|merges|] == merges;
    }
  }

  /** Round trip: the tokens join to the byte-wise decoding of the text, and
      to the text itself when it is ASCII. */
  lemma TokenizeRoundTrip(text: seq<Byte>, merges: seq<Pair>)
    ensures Concat(Replay(Split(text), merges)) == Rendered(text)
    ensures forall t :: IsAsciiText(t) && text == AsciiEncode(t) ==> Concat(Replay(Split(text), merges)) == t
  {
    ReplayPreservesText(Split(text), merges);
    SplitJoin(text);
    forall t | IsAsciiText(t) && text == AsciiEncode(t)
      ensures Rendered(text) == t
    {
      AsciiRoundTrip(t);
    }
  }

  /** The empty text has no tokens. */
  lemma TokenizeEmpty(merges: seq<Pair>)
    ensures Replay(Split([]), merges) == []
  {
    ReplayLength(Split([]), merges);
  }

  /** Boundary-free merging crosses spaces: a non-empty corpus text of at
      most `ChunkSize` characters, trained with a budget of at least one
      merge fewer than its bytes, encodes as a single token. */
  lemma SingleChunkBecomesOneToken(corpus: seq<seq<Byte>>, numMerges: nat, merges: seq<Pair>)
    requires var chunks := Chunks(JoinCorpus(corpus));
             var order := Dedup(chunks);
             && Tracked(order, UnitWeights(chunks), InitialSplits(order))
             && GreedyRun(order, UnitWeights(chunks), InitialSplits(order), numMerges, merges)
    requires JoinCorpus(corpus) != [] && CharCount(JoinCorpus(corpus)) <= ChunkSize
    requires numMerges + 1 >= |JoinCorpus(corpus)|
    ensures Replay(Split(JoinCorpus(corpus)), merges) == [Rendered(JoinCorpus(corpus))]
  {
    var text := JoinCorpus(corpus);
    CharPrefixWhole(text, ChunkSize);
    assert text[..|text|] == text && text[|text|..] == [];
    var chunks := Chunks(text);
    assert chunks == [text];
    assert Dedup(chunks) == [text] by {
      assert chunks[..0] == [];
    }
    SingleUnitCollapses(text, UnitWeights(chunks), InitialSplits([text]), numMerges, merges);
  }
}

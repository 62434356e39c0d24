/**
 * The word-bounded tokenizer (BPETokenizer).  Text is first cut into
 * word-like chunks by a pretokenizer; merges are learned and replayed inside
 * each chunk separately, so no token ever spans two chunks.
 *
 * The pretokenizer (a Unicode regular expression in the source) is a
 * parameter here.  Where a property needs it, it is assumed to cut a text
 * into chunks that concatenate back to the text.
 */
module WordBounded {
  import opened Symbols
  import opened Merging
  import opened PairCounting
  import opened Training
  import opened Vocabulary

  /** All chunks of all texts of the corpus, in order. */
  function CorpusWords(corpus: seq<seq<Byte>>, pretokenize: seq<Byte> -> seq<Chunk>): seq<Chunk>
  {
    if corpus == [] then []
    else CorpusWords(corpus[..|corpus| - 1], pretokenize) + pretokenize(corpus[|corpus| - 1])
  }

  /** Occurrence count of every distinct chunk. */
  function Occurrences(words: seq<Chunk>): (freqs: map<Chunk, nat>)
    ensures freqs.Keys == (set w | w in words)
    ensures forall w :: w in freqs ==> freqs[w] >= 1
  {
    map w | w in words :: multiset(words)[w]
  }

  /** One chunk split into bytes with every merge replayed in order. */
  function EncodeChunk(chunk: Chunk, merges: seq<Pair>): Word
  {
    Replay(Split(chunk), merges)
  }

  /** The encoder's result: the chunks encoded independently, concatenated. */
  function Encode(chunks: seq<Chunk>, merges: seq<Pair>): seq<Symbol>
  {
    if chunks == [] then []
    else Encode(chunks[..|chunks| - 1], merges) + EncodeChunk(chunks[|chunks| - 1], merges)
  }

  class BPETokenizer {
    const numMerges: nat
    const pretokenize: seq<Byte> -> seq<Chunk>
    var merges: seq<Pair>
    var vocab: map<Symbol, nat>

    constructor (numMerges: nat, pretokenize: seq<Byte> -> seq<Chunk>)
      ensures this.numMerges == numMerges && this.pretokenize == pretokenize
      ensures merges == [] && vocab == map[]
    {
      this.numMerges := numMerges;
      this.pretokenize := pretokenize;
      merges := [];
      vocab := map[];
    }

    /** Learns merges from the corpus and appends them to `merges`; the
        vocabulary is rebuilt from the final splits of this corpus. */
    method Train(corpus: seq<seq<Byte>>)
      modifies this
      ensures |merges| >= |old(merges)| && merges[..|old(merges)|] == old(merges)
      ensures var words := CorpusWords(corpus, pretokenize);
              var order := Dedup(words);
              var initial := InitialSplits(order);
              && Tracked(order, Occurrences(words), initial)
              && GreedyRun(order, Occurrences(words), initial, numMerges, merges[|old(merges)|..])
              && vocab == Indexed(SymbolsOf(order, ReplayEach(initial, merges[|old(merges)|..])))
    {
      var words: seq<Chunk> := [];
      for i := 0 to |corpus|
        invariant words == CorpusWords(corpus[..i], pretokenize)
      {
        assert corpus[..i + 1][..i] == corpus[..i];
        words := words + pretokenize(corpus[i]);
      }
      assert corpus[..|corpus|] == corpus;
      var wordFreqs := Occurrences(words);
      var order := Dedup(words);
      var splits := SplitAll(order);
      var learned, finalSplits := LearnMerges(order, wordFreqs, splits, numMerges);
      ghost var before := merges;
      merges := merges + learned;
      assert merges[|before|..] == learned;
      var symbols := CollectSymbols(order, finalSplits);
      vocab := Indexed(symbols);
    }

    /** Cuts the text into chunks and encodes each one with the recorded
        merges, in training order, one pass per merge. */
    method Tokenize(text: seq<Byte>) returns (tokens: seq<Symbol>)
      ensures tokens == Encode(pretokenize(text), merges)
    {
      var words := pretokenize(text);
      tokens := [];
      for i := 0 to |words|
        invariant tokens == Encode(words[..i], merges)
      {
        var split := Split(words[i]);
        for j := 0 to |merges|
          invariant split == Replay(Split(words[i]), merges[..j])
        {
          assert merges[..j + 1][..j] == merges[..j];
          split := MergePair(split, merges[j]);
        }
        assert merges[..|merges|] == merges;
        assert words[..i + 1][..i] == words[..i];
        tokens := tokens + split;
      }
      assert words[..|words|] == words;
    }
  }

  lemma {:induction false} EncodeAppend(a: seq<Chunk>, b: seq<Chunk>, merges: seq<Pair>)
    ensures Encode(a + b, merges) == Encode(a, merges) + Encode(b, merges)
  {
    if b == [] {
      assert a + b == a;
    } else {
      var init := b[..|b| - 1];
      assert (a + b)[..|a + b| - 1] == a + init;
      EncodeAppend(a, init, merges);
    }
  }

  /** Joining the tokens gives back the byte-wise decoding of the chunks. */
  lemma {:induction false} EncodePreservesText(chunks: seq<Chunk>, merges: seq<Pair>)
    ensures Concat(Encode(chunks, merges)) == Rendered(Concat(chunks))
  {
    if chunks != [] {
      var init, last := chunks[..|chunks| - 1], chunks[|chunks| - 1];
      EncodePreservesText(init, merges);
      ConcatAppend(Encode(init, merges), EncodeChunk(last, merges));
      ReplayPreservesText(Split(last), merges);
      SplitJoin(last);
      assert chunks == init + [last];
      ConcatAppend(init, [last]);
      ConcatSingle(last);
      RenderedAppend(Concat(init), last);
    }
  }

  /** Round trip: with a pretokenizer whose chunks concatenate to the text,
      the tokens join to the text's byte-wise decoding, and to the text
      itself when it is ASCII. */
  lemma TokenizeRoundTrip(text: seq<Byte>, pretokenize: seq<Byte> -> seq<Chunk>, merges: seq<Pair>)
    requires Concat(pretokenize(text)) == text
    ensures Concat(Encode(pretokenize(text), merges)) == Rendered(text)
    ensures forall t :: IsAsciiText(t) && text == AsciiEncode(t) ==> Concat(Encode(pretokenize(text), merges)) == t
  {
    EncodePreservesText(pretokenize(text), merges);
    forall t | IsAsciiText(t) && text == AsciiEncode(t)
      ensures Rendered(text) == t
    {
      AsciiRoundTrip(t);
    }
  }

  /** No token spans two chunks: the first j chunks are encoded as exactly a
      prefix of the tokens, and those tokens spell exactly those chunks. */
  lemma ChunkBoundariesAreTokenBoundaries(chunks: seq<Chunk>, merges: seq<Pair>, j: nat)
    requires j <= |chunks|
    ensures var tokens := Encode(chunks, merges);
            var n := |Encode(chunks[..j], merges)|;
            && n <= |tokens|
            && tokens[..n] == Encode(chunks[..j], merges)
            && Concat(tokens[..n]) == Rendered(Concat(chunks[..j]))
  {
    assert chunks == chunks[..j] + chunks[j..];
    EncodeAppend(chunks[..j], chunks[j..], merges);
    EncodePreservesText(chunks[..j], merges);
  }

  /** The empty text has no tokens. */
  lemma {:induction false} EncodeEmpty(chunks: seq<Chunk>, merges: seq<Pair>)
    requires Concat(chunks) == []
    ensures Encode(chunks, merges) == []
  {
    if chunks != [] {
      var init, last := chunks[..|chunks| - 1], chunks[|chunks| - 1];
      assert chunks == init + [last];
      ConcatAppend(init, [last]);
      ConcatSingle(last);
      EncodeEmpty(init, merges);
      ReplayLength(Split(last), merges);
    }
  }

  /** Without merges every byte is its own token. */
  lemma {:induction false} UntrainedIsPerByte(chunks: seq<Chunk>)
    ensures Encode(chunks, []) == Split(Concat(chunks))
  {
    if chunks != [] {
      var init, last := chunks[..|chunks| - 1], chunks[|chunks| - 1];
      assert chunks == init + [last];
      ConcatAppend(init, [last]);
      ConcatSingle(last);
      UntrainedIsPerByte(init);
      SplitAppend(Concat(init), last);
    }
  }

  /** A sequence of sequences splits around its k-th element. */
  lemma ConcatAround<T>(ws: seq<seq<T>>, k: nat)
    requires k < |ws|
    ensures Concat(ws) == Concat(ws[..k]) + (ws[k] + Concat(ws[k + 1..]))
  {
    var rest := [ws[k]] + ws[k + 1..];
    SplitAround(ws, k);
    ConcatAppend(ws[..k], rest);
    ConcatCons(ws[k], ws[k + 1..]);
  }

  lemma SplitAround<T>(ws: seq<T>, k: nat)
    requires k < |ws|
    ensures ws == ws[..k] + ([ws[k]] + ws[k + 1..])
  {
  }

  lemma ConcatCons<T>(x: seq<T>, xs: seq<seq<T>>)
    ensures Concat([x] + xs) == x + Concat(xs)
  {
    assert ([x] + xs)[1..] == xs;
  }

  /** The space byte. */
  const Space: Byte := 32

  /** A chunk with no space after its first byte. */
  predicate SpaceOnlyFirst(c: Chunk)
  {
    forall i :: 1 <= i < |c| ==> c[i] != Space
  }

  /** Tokens stay inside their chunk: when no chunk holds a space after its
      first byte, no token holds a space after its first character. */
  lemma {:induction false} NoSpaceInsideTokens(chunks: seq<Chunk>, merges: seq<Pair>)
    requires forall j :: 0 <= j < |chunks| ==> SpaceOnlyFirst(chunks[j])
    ensures forall t :: t in Encode(chunks, merges) ==> forall i :: 1 <= i < |t| ==> t[i] != ' '
  {
    if chunks != [] {
      var init, last := chunks[..|chunks| - 1], chunks[|chunks| - 1];
      NoSpaceInsideTokens(init, merges);
      var ws := EncodeChunk(last, merges);
      ReplayPreservesText(Split(last), merges);
      SplitJoin(last);
      forall k, i | 0 <= k < |ws| && 1 <= i < |ws[k]|
        ensures ws[k][i] != ' '
      {
        var at := TokenCharAt(ws, last, k, i);
        assert last[at] != Space;
      }
    }
  }

  /** The i-th character of the k-th token sits at position i or later of
      the joined tokens. */
  lemma TokenOffset(ws: seq<Symbol>, k: nat, i: nat) returns (at: nat)
    requires k < |ws| && i < |ws[k]|
    ensures i <= at < |Concat(ws)| && Concat(ws)[at] == ws[k][i]
  {
    ConcatAround(ws, k);
    var before, from := Concat(ws[..k]), ws[k] + Concat(ws[k + 1..]);
    at := |before| + i;
    assert from[i] == ws[k][i];
    assert (before + from)[at] == from[i];
  }

  /** The i-th character of the k-th token is the decoding of a byte of the
      text at position i or later. */
  lemma TokenCharAt(ws: seq<Symbol>, text: seq<Byte>, k: nat, i: nat) returns (at: nat)
    requires Concat(ws) == Rendered(text)
    requires k < |ws| && i < |ws[k]|
    ensures i <= at < |text| && ws[k][i] == ByteChar(text[at])
  {
    at := TokenOffset(ws, k, i);
  }
}

# BPE tokenizers, modelled and verified in Dafny

This project models the two byte-pair-encoding tokenizers of
`src/part2_tokenization.py` and proves properties of the model.

- **Word-bounded tokenizer (`BPETokenizer`).** It cuts each text into
  word-like chunks with a pretokenizer, weights every distinct chunk by how
  often it occurs, and learns merges inside chunks only.
- **Boundary-free tokenizer (`SentencePieceBPE`).** It joins the corpus with
  single spaces and slices it into chunks of 1000 characters, each of
  weight 1. Its merges may span spaces.

Both share one training loop. The loop counts adjacent symbol pairs, with
each unit voting its weight once for every distinct pair in its split. It
stops when no pair is left. Otherwise it records a pair of maximal weight
and merges it in every split, at most `num_merges` times. The vocabulary
maps every final symbol to its position in sorted order. Encoding splits a
text into one symbol per byte and replays the recorded merges in training
order, one left-to-right pass per merge. The word-bounded tokenizer encodes
chunk by chunk; the boundary-free one encodes the whole text at once.

Modules, one per part of the program:

- `Symbols` (`symbols.dfy`): bytes, symbols and the per-byte splitter. A byte
  decoded on its own with replacement is that ASCII character, or U+FFFD for
  any byte of 128 or more.
- `Merging` (`merging.dfy`): `get_byte_pairs`, `merge_pair` and replaying a
  list of merges.
- `PairCounting` (`pair_counting.dfy`): pair weights, the counting loop and
  the choice of a maximal pair.
- `Training` (`training.dfy`): the shared training loop, specified by the
  predicate `GreedyRun`, plus symbol collection.
- `Vocabulary` (`vocabulary.dfy`): the sorted-index vocabulary.
- `WordBounded` (`word_bounded.dfy`): the class `BPETokenizer` and its encoder.
- `BoundaryFree` (`boundary_free.dfy`): the class `SentencePieceBPE`, the
  corpus join and the character chunking.
- `Scenarios` (`scenarios.dfy`): the hand-traced runs from `tests.py`,
  derived from the general specification.

Modelling choices:

- **Input is bytes.** Texts are their UTF-8 bytes (`seq<Byte>`). A character
  of the boundary-free chunking is a byte that is not a UTF-8 continuation
  byte (not in 128..191), so 1000-character chunks are measured in those.
- **Dictionary order.** Python dictionaries iterate in insertion order. The
  units of training are therefore the distinct chunks in order of first
  occurrence (`Training.Dedup`).
- **Tie-breaking is left open.** `max` returns the first maximal key in the
  pair dictionary's iteration order (`src/part2_tokenization.py:98, 176`).
  The dictionary is filled one unit at a time, in unit order
  (`src/part2_tokenization.py:88-92, 166-170`). So its keys come first in
  the order of the first unit that contains each pair. Only among pairs
  first seen in the same unit does the hash order of that unit's set of
  pairs decide. A tie between pairs first seen in different units thus goes
  to the earlier unit: for the units "ab" then "cd", each of weight 1, the
  program records ("a", "b"). The model only promises that each recorded
  merge had maximal weight when it was chosen, so it also allows ("c", "d")
  there. Where a
  round has a single maximal pair, the recorded merges are fully determined
  (`Scenarios.ForcedRun`, `Scenarios.ForcedStop`).
- **Identical boundary-free chunks collapse.** The boundary-free trainer
  keys its split and weight dictionaries by chunk text
  (`src/part2_tokenization.py:154-160`), so two identical chunks are a
  single unit of weight 1 (`Training.DedupCollapsesDuplicates`).
- **The pretokenizer is a parameter.** It is a function given to the
  `BPETokenizer` constructor. Properties that need it to cut a text into
  chunks that concatenate back to the text state that as a precondition.

## Model

| member | source | states |
|---|---|---|
| Symbols.Split | src/part2_tokenization.py:78-82 | the initial split has one symbol per byte |
| Symbols.SplitJoin | src/part2_tokenization.py:78-82 | joining the initial split of a unit gives its byte-wise decoding with replacement |
| Symbols.AsciiRoundTrip | src/part2_tokenization.py:119-121 | for ASCII text, the per-byte split joins back to the text itself |
| Merging.GetBytePairs | src/part2_tokenization.py:29-36 | the result is exactly the set of adjacent pairs: every adjacent pair is in it, every member occurs adjacently, and a word of at most one symbol has none |
| Merging.MergePair | src/part2_tokenization.py:39-52 | the index scan builds the left-to-right, non-overlapping fusion `Merged` of the pair |
| Merging.MergedPreservesText | src/part2_tokenization.py:39-52 | merging never changes the text the word spells |
| Merging.MergedLength | src/part2_tokenization.py:39-52 | merging never lengthens a word; it shortens it if and only if the pair is adjacent in it, and leaves it unchanged otherwise |
| Merging.MergedSymbols | src/part2_tokenization.py:46-50 | every symbol after merging was already present or is the fused pair |
| Merging.MergeIsLeftToRight | src/part2_tokenization.py:44-51 | fusion resumes after each match: three equal symbols give the fused pair and the last symbol alone; four give two fused pairs |
| Merging.Fused | src/part2_tokenization.py:47 | the symbols a merge list can create: one per merge, each fused pair in it, nothing else |
| Merging.ReplayPreservesText | src/part2_tokenization.py:124-125 | replaying merges in order never changes the spelled text |
| Merging.ReplayLength | src/part2_tokenization.py:124-125 | replaying merges never lengthens a word |
| Merging.ReplaySymbols | src/part2_tokenization.py:124-125 | after replaying, every symbol is an original one or a fused one of the merge list |
| PairCounting.AddWeight | src/part2_tokenization.py:91-92 | the updated counts have every old key plus the new pairs; each new pair gains the unit's weight once and a missing entry counts as zero |
| PairCounting.CountPairs | src/part2_tokenization.py:87-92 | the counted keys are exactly the pairs adjacent in some unit, each mapped to the sum of the weights of the units containing it |
| PairCounting.WeightOutsidePairs | src/part2_tokenization.py:87-92 | a pair adjacent in no unit weighs nothing |
| PairCounting.OneVotePerUnit | src/part2_tokenization.py:90-92 | a unit votes once per distinct pair: "aaaa" gives ("a", "a") weight 1, not 3 |
| PairCounting.WeightsAcrossUnits | tests.py:360-365 | in the hand-traced first round, ("a", "a") weighs 1 + 2 = 3 |
| PairCounting.MaxByIsFirstMax | src/part2_tokenization.py:98 | `max` over keys visited in a given order returns a key of maximal count, and every key visited before it has a strictly smaller count |
| PairCounting.TieFreeChoiceIgnoresOrder | src/part2_tokenization.py:98 | when no two keys share a count, `max` returns the same key for any order of visiting the same keys |
| PairCounting.MostFrequent | src/part2_tokenization.py:98 | the chosen pair is a key of maximal count, and it is what `max` returns when visiting every key once in some order |
| Training.Dedup | src/part2_tokenization.py:75-77 | the dictionary keys: distinct, no more than the inputs, and the same elements |
| Training.DedupCollapsesDuplicates | src/part2_tokenization.py:154-160 | two equal chunks become one key, so there are fewer units than chunks |
| Training.SplitAll | src/part2_tokenization.py:76-82 | every unit is a key, mapped to its per-byte split, and there are no other keys |
| Training.MergeAll | src/part2_tokenization.py:102-103 | every split is replaced by its merged form, and there are no other changes |
| Training.AllBestEach | src/part2_tokenization.py:97-99 | each recorded merge had maximal weight in the splits produced by the merges recorded before it |
| Training.LearnMerges | src/part2_tokenization.py:85-103 | the recorded merges satisfy `GreedyRun`: at most the budget, each maximal when chosen, and fewer than the budget only when no pair was left; the returned splits are the initial ones with all merges replayed |
| Training.CollectSymbols | src/part2_tokenization.py:106-108 | the result is exactly the set of symbols across all final splits |
| Training.MergeShrinksTotal | src/part2_tokenization.py:102-103 | one merge never adds symbols overall, and removes at least one when the pair is adjacent somewhere |
| Training.GreedyRunShrinks | src/part2_tokenization.py:85-103 | every recorded merge removed a symbol, so merges plus remaining symbols never exceed the initial symbol count |
| Training.VocabularyGrowth | src/part2_tokenization.py:105-109 | n merges add at most n distinct symbols |
| Training.SingleUnitCollapses | src/part2_tokenization.py:163-181 | a single unit of n bytes with a budget of at least n - 1 merges ends as one symbol spelling the whole unit |
| Vocabulary.LexLessIrreflexive | src/part2_tokenization.py:109 | string order is irreflexive |
| Vocabulary.LexLessTransitive | src/part2_tokenization.py:109 | string order is transitive |
| Vocabulary.LexLessTotal | src/part2_tokenization.py:109 | any two different strings are ordered one way or the other |
| Vocabulary.RanksFollowOrder | src/part2_tokenization.py:109 | a symbol sorts before another if and only if it has fewer symbols below it; every rank is below the symbol count |
| Vocabulary.Indexed | src/part2_tokenization.py:109 | the vocabulary's keys are exactly the symbols; its indices follow sorted order in both directions and stay below the symbol count |
| Vocabulary.IndexedIsInjective | src/part2_tokenization.py:109 | distinct symbols get distinct indices |
| Vocabulary.IndexedIsOnto | src/part2_tokenization.py:109 | the indices used are exactly 0 .. n-1 |
| WordBounded.Occurrences | src/part2_tokenization.py:75 | every distinct chunk is a key with a count of at least one, and there are no other keys |
| WordBounded.BPETokenizer.constructor | src/part2_tokenization.py:60-63 | keeps the budget and starts with no merges and an empty vocabulary |
| WordBounded.BPETokenizer.Train | src/part2_tokenization.py:65-109 | appends a `GreedyRun` over the distinct pretokenized chunks, weighted by occurrences, to the merges; the vocabulary indexes the symbols of this corpus's final splits |
| WordBounded.BPETokenizer.Tokenize | src/part2_tokenization.py:111-129 | each chunk is encoded on its own by replaying every merge in order, and the results are concatenated |
| WordBounded.EncodeAppend | src/part2_tokenization.py:118-127 | encoding distributes over concatenation of chunk lists |
| WordBounded.EncodePreservesText | src/part2_tokenization.py:118-127 | joining the tokens gives the byte-wise decoding of the joined chunks |
| WordBounded.TokenizeRoundTrip | tests.py:445-455 | with a concatenation-preserving pretokenizer, the tokens join to the text's decoding, and to the text itself when it is ASCII |
| WordBounded.ChunkBoundariesAreTokenBoundaries | src/part2_tokenization.py:118-127 | the first j chunks encode to exactly a prefix of the tokens, and that prefix spells exactly those chunks |
| WordBounded.EncodeEmpty | tests.py:486-492 | chunks that spell nothing encode to no tokens |
| WordBounded.UntrainedIsPerByte | tests.py:457-466 | without merges every byte is its own token |
| WordBounded.NoSpaceInsideTokens | tests.py:587-596 | when no chunk has a space after its first byte, no token has a space after its first character |
| BoundaryFree.CharPrefixLength | src/part2_tokenization.py:150-152 | the byte length of a character prefix fits in the text, and is positive for a positive count and a non-empty text |
| BoundaryFree.CharPrefixSlices | src/part2_tokenization.py:150-152 | the prefix holds at most n characters, exactly n when text is left over, and the rest starts at a character boundary |
| BoundaryFree.CharPrefixWhole | src/part2_tokenization.py:150-152 | text of at most n characters is taken whole |
| BoundaryFree.Chunks | src/part2_tokenization.py:149-152 | the chunks concatenate back to the text and none is empty |
| BoundaryFree.ChunksAreCharacterSlices | src/part2_tokenization.py:149-152 | every chunk has at most 1000 characters, every chunk but the last exactly 1000, and every later chunk starts at a character boundary |
| BoundaryFree.UnitWeights | src/part2_tokenization.py:160 | the weight table's keys are exactly the chunk texts |
| BoundaryFree.SentencePieceBPE.constructor | src/part2_tokenization.py:137-140 | keeps the budget and starts with no merges and an empty vocabulary |
| BoundaryFree.SentencePieceBPE.Train | src/part2_tokenization.py:142-187 | appends a `GreedyRun` over the distinct 1000-character chunks of the space-joined corpus, each of weight 1, to the merges; the vocabulary indexes the symbols of the final splits |
| BoundaryFree.SentencePieceBPE.Tokenize | src/part2_tokenization.py:189-198 | the whole text is split per byte and every merge is replayed in order |
| BoundaryFree.TokenizeRoundTrip | tests.py:598-608 | the tokens join to the text's decoding, and to the text itself when it is ASCII |
| BoundaryFree.TokenizeEmpty | src/part2_tokenization.py:189-198 | the empty text has no tokens |
| BoundaryFree.SingleChunkBecomesOneToken | tests.py:573-585 | a corpus of at most 1000 characters, trained with a budget of at least its length minus one, encodes as one token even across spaces |
| Scenarios.FirstRound | src/part2_tokenization.py:85-99 | a single maximal pair in round one is the first merge recorded |
| Scenarios.SecondRound | src/part2_tokenization.py:85-99 | a single maximal pair in round two is the second merge recorded |
| Scenarios.ForcedRun | src/part2_tokenization.py:85-99 | with a budget of two and a single maximal pair per round, exactly those two pairs are recorded |
| Scenarios.ForcedStop | src/part2_tokenization.py:85-99 | two forced rounds followed by no pairs give exactly two merges, whatever the budget of two or more |
| Scenarios.HandTracedOrder | tests.py:349-353 | the pretokenized chunks "aa", " aa", " aa", " bb" give the units "aa", " aa", " bb" |
| Scenarios.HandTracedCounts | tests.py:352-353 | their counts are 1, 2 and 1 |
| Scenarios.HandRoundOne | tests.py:360-365 | round one's only maximal pair is ("a", "a") |
| Scenarios.HandSplitsOne | tests.py:367-370 | the splits after ("a", "a") |
| Scenarios.HandRoundTwo | tests.py:372-376 | round two's only maximal pair is (" ", "aa") |
| Scenarios.HandSplitsTwo | tests.py:378-381 | the splits after (" ", "aa") |
| Scenarios.HandFinalSymbols | tests.py:384 | the final symbols are " ", " aa", "aa" and "b" |
| Scenarios.HandGreedy | tests.py:383 | any greedy run over these units records ("a", "a") then (" ", "aa") |
| Scenarios.WordBoundedHandTraced | tests.py:345-401 | training on "aa aa aa bb" with two merges records ("a", "a"), (" ", "aa") and gives the vocabulary symbols " ", " aa", "aa", "b" |
| Scenarios.HandChunkEncodings | tests.py:403-422 | the trained merges encode "aa", " aa", " bb" and "bb" as traced |
| Scenarios.WordBoundedEncodings | tests.py:424-443 | "aa aa" encodes as ["aa", " aa"], "bb" as ["b", "b"], and "aa bb" as ["aa", " ", "b", "b"] |
| Scenarios.AbUnits | tests.py:468-470 | the chunks "ab", " ab" are two units of count 1 |
| Scenarios.AbSplits | tests.py:468-477 | the splits before, between and after ("a", "b") and (" ", "ab") |
| Scenarios.AbRoundOne | tests.py:468-477 | round one's only maximal pair is ("a", "b") |
| Scenarios.AbRoundTwo | tests.py:468-477 | round two's only pair is (" ", "ab") |
| Scenarios.AbExhausted | tests.py:468-477 | after both merges no pair is left |
| Scenarios.AbGreedy | tests.py:468-477 | any greedy run with a budget of two or more records ("a", "b"), (" ", "ab") and stops early |
| Scenarios.AbEncoding | tests.py:479-484 | "ab", " ab" encode as ["ab", " ab"] |
| Scenarios.WordBoundaryRespected | tests.py:468-484 | training on "ab ab" with a budget of two or more records two merges, and "ab ab" encodes as ["ab", " ab"], no token spanning the space |
| Scenarios.SpUnits | tests.py:496-499 | the corpus "aaaa" is one chunk of weight 1 |
| Scenarios.SpSplits | tests.py:498-513 | the chunk's split before, between and after the two merges |
| Scenarios.OnlyPairIsBest | tests.py:501-510 | a unit with one distinct pair makes that pair the only maximal one |
| Scenarios.SpGreedy | tests.py:515 | any greedy run on "aaaa" with two merges records ("a", "a") then ("aa", "aa") |
| Scenarios.BoundaryFreeHandTraced | tests.py:494-533 | training on "aaaa" with two merges records ("a", "a"), ("aa", "aa") and gives the vocabulary symbol "aaaa" alone |
| Scenarios.BoundaryFreeEncodings | tests.py:535-571 | "aaaa" encodes as ["aaaa"], "aa" as ["aa"], and "aaa" as ["aa", "a"] |
| Scenarios.CrossesSpaces | tests.py:573-585 | training on "ab ab" with five merges makes "ab ab" a single token spanning the space |

## Left out

- `gpt2_pretokenize` and its regular expression (`src/part2_tokenization.py:13-26`) are not part of this model. The pretokenizer is a function parameter of `BPETokenizer`. Lemmas that need it to partition the text take that as a precondition, and the hand-traced runs state the chunks it yields.
- UTF-8 encoding of `str` input is not modelled: inputs are byte sequences. Decoding back to text is stated for ASCII input only.
- PairCounting.MostFrequent: promises the first maximal pair of some order of visiting the keys, not of the dictionary's own order. That order is unit order first (by the first unit containing each pair) and hash order only within one unit's set of pairs. The model therefore also allows a maximal pair first seen in a later unit than the pair the program picks.
- Training.LearnMerges: promises that each recorded merge was maximal when chosen, not which of several maximal pairs was recorded. Like `MostFrequent`, it also allows a maximal pair first seen in a later unit than the one the program picks.
- WordBounded.BPETokenizer.Train: leaves the tie winner open in the same way, including ties between pairs first seen in different units.
- BoundaryFree.SentencePieceBPE.Train: leaves the tie winner open in the same way, including ties between pairs first seen in different units.
- The default argument `num_merges=1000` is not modelled: both constructors take the budget explicitly.
- `space_tokenize`, the module-level demonstration code, and the other parts of the repository (`src/part1_regex.py`, `src/part3_analysis.py`) are not part of this model.

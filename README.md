# tevr-asr-tool: CTC beam search with n-gram language-model fusion

This project models the decoder of `tevr_asr_tool`, a German speech recogniser. The acoustic
model emits one score per token for every frame of audio. The vocabulary has 256 word-piece
tokens; id 1 is end-of-sentence and id 2 is the word space.

The decoder turns those frames into text in one of two ways:

- **Greedy.** Take each frame's best token. Print its surface whenever it differs from the
  previous frame's pick.
- **Beam search.** Extend every surviving hypothesis by every token above a probability floor.
  A repeated token continues the current symbol (the CTC collapse rule); any other token appends
  its surface. Each new emission is re-scored with a KenLM n-gram model over the words its text
  has completed. Hypotheses that reach the same text with the same last surface are merged by
  log-sum-exp. After every frame, the best 500 are kept.

The modules follow `tevr_asr_tool.cc`:

- `Vocabulary` (`vocabulary.dfy`): the token table and `ConcatWithoutDuplicateSpaces`, the one
  text-building rule.
- `Beams` (`beams.dfy`): `LanguageModelBeam` and its score merge `AddLogp`.
- `LanguageModel` (`language_model.dfy`): how a text is scored. It is cut at spaces, and the
  closed words are scored left to right through the KenLM oracle. The unfinished last word is
  ignored.
- `Decoding` (`decoder.dfy`): `LanguageModelDecoder` as a class.
  - Its fields are `beams` (active hypotheses), `newBeams` (the merge map of the next
    generation) and `cache` (memoised text scores).
  - Its methods are `AddToken`, `AddOrSumBeam`, `Reduce`, `GetScoreForText`,
    `CalculateScoreForText` and `AddScoreForWord`.
  - Each method is proved against specification functions on values: `Extend`,
    `MergeCandidate`, `MergeExtensions` and `ScoreForText`.
- `Drivers` (`drivers.dfy`): the greedy and beam-search loops of `main`.

**Representation choices.**

- Scores are `real`.
- `std::log(1.0 + std::exp(x))` is a function parameter, `log1pExp`. It is constrained only where
  a lemma needs it, for example `log1pExp(x) >= 0`.
- KenLM is seen only through the calls the decoder makes: `BeginSentenceState`, `Score` with its
  out-state, `GetVocabulary().Index` and `NotFound`. These are the fields of the datatype
  `KenLm<S>`, over an abstract state type `S`.
- The decoder and the drivers take the token table as a parameter of type `TokenTable`. That
  type fixes its size (256), entry 0 as `""`, and entries 1 and 2 as `" "`.
  - `Vocabulary.Tokens()` is the literal table of the source.
  - A proof about it establishes `HasWordPieces`: every other entry is non-empty and holds no
    space and no `'|'`.
  - Lemmas that depend on that property require it.

**Two consequences of the code worth knowing:**

- **The merge key uses the surface.** `AddOrSumBeam` files a candidate under
  `text + "|" + tokens[last_token_idx]` (tevr_asr_tool.cc:105), the last token's surface rather
  than its id. Tokens 1 and 2 both have the surface `" "`, so their candidates collide. The merged
  entry keeps the id of whichever candidate was merged first (`SpaceSurfacesCollide`,
  `CollidingCandidatesKeepFirstToken`).
- **End-of-sentence can double a space.** `ConcatWithoutDuplicateSpaces` suppresses only token 2
  after a space (tevr_asr_tool.cc:100). Without token 1 no text gets two spaces in a row
  (`NoDoubleSpaceWithoutEndOfSentence`). Token 1, whose surface is also `" "`, is appended even
  after a space, so a word piece, then the space token, then end-of-sentence gives the word
  followed by `"  "` (`EndOfSentenceCanDoubleSpace`).

## Model

| member | source | states |
|---|---|---|
| Vocabulary.Tokens | tevr_asr_tool.cc:36-50 | the literal 256-entry token table is a `TokenTable` whose word pieces (ids 3..255) are non-empty and contain no space and no bar character |
| Vocabulary.TokensShape | tevr_asr_tool.cc:36-50 | the table has 256 entries, `""` at 0, `" "` at the end-of-sentence and space ids (52-53), and word pieces elsewhere |
| Vocabulary.ConcatWithoutDuplicateSpaces | tevr_asr_tool.cc:98-102 | the result extends the prefix; it is `prefix + tokens[idx]` exactly when the prefix does not end in a space or the token is not the space token, and otherwise the prefix unchanged |
| Vocabulary.Transcribe | tevr_asr_tool.cc:98-102 | the text built from "" by appending the emitted tokens one by one with `ConcatWithoutDuplicateSpaces` |
| Vocabulary.ConcatKeepsSingleSpaces | tevr_asr_tool.cc:98-102 | appending any token but end-of-sentence to a text with no two consecutive spaces keeps it so |
| Vocabulary.NoDoubleSpaceWithoutEndOfSentence | tevr_asr_tool.cc:98-102 | building a text from any token sequence without end-of-sentence never produces two consecutive spaces |
| Vocabulary.EndOfSentenceCanDoubleSpace | tevr_asr_tool.cc:98-102 | a word piece, the space token and end-of-sentence build the word followed by two spaces |
| Beams.Beam.AddLogp | tevr_asr_tool.cc:65-70 | both branches compute max + log1pExp(min - max) of the two scores; text and last token are kept |
| Beams.AddLogpSymmetric | tevr_asr_tool.cc:65-70 | the merged score does not depend on which score the beam already held |
| Beams.AddLogpAtLeastMax | tevr_asr_tool.cc:65-70 | when log1pExp is non-negative, the merged score is at least each of the two scores |
| LanguageModel.WordScore | tevr_asr_tool.cc:152-157 | one word's score after a state: the raw KenLM score times ln 10 times ALPHA, plus BETA, plus -10 when the word is unknown |
| LanguageModel.ScoreWord | tevr_asr_tool.cc:150-160 | what `AddScoreForWord` does to state and score: nothing for an empty or single-space word, otherwise add the word's score and move to KenLM's next state |
| LanguageModel.ScoringOf | tevr_asr_tool.cc:136-148 | state and score after the space-closed words of the text, scored in order from the begin-of-sentence state with score 0 |
| LanguageModel.ScoreForText | tevr_asr_tool.cc:136-148 | the score part of `ScoringOf`: what `CalculateScoreForText` returns |
| LanguageModel.FindSpace | tevr_asr_tool.cc:141 | `text.find(' ', from)`: the first space at or after `from`, or none when none exists |
| LanguageModel.WordsFrom | tevr_asr_tool.cc:141-144 | the segments the scoring loop hands to `AddScoreForWord`: from `from`, each segment up to the next space found by `find(' ')`, in order, and resuming just after that space |
| LanguageModel.TrailingWordFrom | tevr_asr_tool.cc:145-146 | the segment after the last space, which the loop drops when `find` reports no further space |
| LanguageModel.CompletedWords | tevr_asr_tool.cc:141-144 | the space-closed segments of the whole text, from position 0 |
| LanguageModel.TrailingWord | tevr_asr_tool.cc:145-146 | the unscored tail of the whole text, after its last space |
| LanguageModel.ScoreWords | tevr_asr_tool.cc:141-144 | the loop's state and score threaded left to right: each word applied with `ScoreWord` to what the words before it left |
| LanguageModel.SplitFrom | tevr_asr_tool.cc:141-146 | the text from `from` is its space-terminated words followed by the trailing segment; no word and not the trailing segment contains a space |
| LanguageModel.SplitUnique | tevr_asr_tool.cc:141-146 | any decomposition of a text into space-free terminated words plus a space-free tail is the one the scoring loop walks |
| LanguageModel.ScoreWordsAppend | tevr_asr_tool.cc:141-144 | scoring words one after another threads the accumulated score and KenLM state left to right |
| LanguageModel.NoSpaceScoresZero | tevr_asr_tool.cc:136-148 | a text without a space has no completed word and scores 0 |
| LanguageModel.TrailingWordNotScored | tevr_asr_tool.cc:145-146 | appending space-free characters changes neither the completed words nor the score or state |
| LanguageModel.CompletingWordAddsItsScore | tevr_asr_tool.cc:141-144 | appending a space completes the trailing word, which is then scored after the state the earlier words left |
| LanguageModel.RepeatedSpaceScoresNothing | tevr_asr_tool.cc:151 | after a text ending in a space, another space completes only an empty word and changes neither score nor state |
| LanguageModel.UnknownWordPenalty | tevr_asr_tool.cc:156-157 | with equal raw KenLM scores, an unknown word scores exactly 10 below a known word |
| Decoding.DedupKey | tevr_asr_tool.cc:105 | the merge key `AddOrSumBeam` builds: the text, then a '|', then the surface |
| Decoding.KeyOf | tevr_asr_tool.cc:105 | a beam's merge key: its text with the surface of its last token |
| Decoding.DedupKeyInjective | tevr_asr_tool.cc:105 | when surfaces hold no bar character, two keys are equal exactly when texts and surfaces are equal |
| Decoding.SameKeyIffSameTextAndSurface | tevr_asr_tool.cc:105 | two beams share a merge key exactly when they have the same text and the same last surface |
| Decoding.SpaceSurfacesCollide | tevr_asr_tool.cc:105 | a beam ending in end-of-sentence and one ending in the space token, with the same text, have the same key |
| Decoding.Extend | tevr_asr_tool.cc:87-95 | the candidate one old beam yields for a token: a repeat keeps the text and adds the token score; another token extends the text and also adds the change in LM score |
| Decoding.ExtendProperties | tevr_asr_tool.cc:87-95 | the candidate ends in the token and extends the old text; a repeat keeps the text and adds just the token score; otherwise the score also gains the LM score difference; a space-closed beam gives a space-closed candidate |
| Decoding.MergeCandidate | tevr_asr_tool.cc:104-112 | a new key receives the candidate; an existing entry keeps text and last token and log-sum-exps in the candidate's score; every other entry is unchanged |
| Decoding.MergeCandidateSize | tevr_asr_tool.cc:104-112 | the map grows by one exactly when the key is new |
| Decoding.MergeCandidateKeysConsistent | tevr_asr_tool.cc:104-112 | merging keeps every entry filed under its own key |
| Decoding.CollidingCandidatesKeepFirstToken | tevr_asr_tool.cc:104-112 | merging an end-of-sentence and a space candidate with the same text, in either order: one entry, same score, and the last token of whichever came first |
| Decoding.MergeExtensions | tevr_asr_tool.cc:86-96 | the working map after each active beam's candidate has been merged in, in order |
| Decoding.LookedUpTexts | tevr_asr_tool.cc:88-93 | the texts a round scores: for each beam the token does not repeat, its extended text and its own text |
| Decoding.LookedUpTextsMembers | tevr_asr_tool.cc:88-93 | a text is looked up exactly when some non-repeating beam has it as its text or as its extended text |
| Decoding.RepeatsLookUpNothing | tevr_asr_tool.cc:88-89 | when every beam already ends in the token, the round scores no text |
| Decoding.MergeExtensionsKeys | tevr_asr_tool.cc:86-96 | the keys after a round are the old keys plus one key per old beam's candidate |
| Decoding.MergeExtensionsGrows | tevr_asr_tool.cc:86-96 | a round keeps every old key and leaves the map non-empty when there were beams |
| Decoding.MergeExtensionsSize | tevr_asr_tool.cc:86-96 | a round adds at most one entry per active beam |
| Decoding.MergeExtensionsKeysConsistent | tevr_asr_tool.cc:86-96 | a round keeps every entry under its own key |
| Decoding.MergeExtensionsWellFormed | tevr_asr_tool.cc:86-96 | a round over space-closed beams leaves every entry space-closed |
| Decoding.MergeExtensionsLastToken | tevr_asr_tool.cc:86-96 | a round for token t into a map whose entries all end in t leaves them all ending in t |
| Decoding.InsertByLogp | tevr_asr_tool.cc:118-120 | inserting adds exactly the new beam to the multiset of beams |
| Decoding.InsertByLogpSorted | tevr_asr_tool.cc:118-120 | inserting into a list in non-increasing score order keeps that order |
| Decoding.SortByLogpDescending | tevr_asr_tool.cc:118-120 | the result is a permutation of the input in non-increasing score order |
| Decoding.CollectBeams | tevr_asr_tool.cc:116 | the map's values, each once: as many as entries, every value present, and nothing else |
| Decoding.SortedPrefixIsBest | tevr_asr_tool.cc:121-123 | a prefix of a sorted list is sorted, and no dropped element outscores a kept one |
| Decoding.KeptBeams | tevr_asr_tool.cc:121-123 | the first n of the sorted values are sorted, distinct, entries of the map, and outscore every dropped entry |
| Decoding.ReducedFrom | tevr_asr_tool.cc:114-123 | what a reduction may keep of a map: min(entries, 500) distinct entries of the map, in non-increasing score order, none outscored by an entry left out |
| Decoding.BestBeams | tevr_asr_tool.cc:114-123 | the result is a reduction of the map (`ReducedFrom`), and space-closed entries give space-closed beams |
| Decoding.LanguageModelDecoder.constructor | tevr_asr_tool.cc:73-78 | a decoder with no beams, an empty merge map and an empty cache |
| Decoding.LanguageModelDecoder.AddToken | tevr_asr_tool.cc:86-96 | the merge map becomes the old map with one candidate per active beam merged in order; beams are untouched; the cache gains exactly the texts looked up for the beams the token does not repeat, so a repeat makes no lookup |
| Decoding.LanguageModelDecoder.ExtendOne | tevr_asr_tool.cc:88-94 | the body of the loop: one beam's candidate is merged into the map; a repeat leaves the cache's keys alone, and a new emission adds the extended and the old text |
| Decoding.LanguageModelDecoder.AddOrSumBeam | tevr_asr_tool.cc:104-112 | the merge map becomes the old map with the beam merged under its key |
| Decoding.LanguageModelDecoder.Reduce | tevr_asr_tool.cc:114-123 | the map is emptied and the beams become a reduction of the old map (`ReducedFrom`): min(n, 500) distinct entries, sorted by non-increasing score, none outscored by one dropped |
| Decoding.LanguageModelDecoder.GetScoreForText | tevr_asr_tool.cc:127-134 | the result is the text's LM score; a hit leaves the cache unchanged; a miss stores the score under the text |
| Decoding.LanguageModelDecoder.CalculateScoreForText | tevr_asr_tool.cc:136-148 | the result is the score of the text's space-closed words, threaded from the begin-sentence state |
| Decoding.LanguageModelDecoder.AddScoreForWord | tevr_asr_tool.cc:150-160 | an empty or single-space word changes nothing; any other word adds raw·ln10·ALPHA + BETA, plus -10 if unknown, and moves to KenLM's next state |
| Drivers.Frame | tevr_asr_tool.cc:247 | frame t is entries t·256 .. t·256+255 of the score buffer |
| Drivers.IsPick | tevr_asr_tool.cc:244-252 | the pick of a frame: the lowest index of a maximal score when some score exceeds -5e17, else 0 |
| Drivers.PickUnique | tevr_asr_tool.cc:244-252 | a frame has exactly one argmax pick |
| Drivers.ScanArgmax | tevr_asr_tool.cc:244-252 | the pick is the lowest index of a maximal score, or 0 when no score exceeds -5e17 |
| Drivers.GreedyText | tevr_asr_tool.cc:253-256 | the printed text for a sequence of picks: each pick's surface, when it differs from the previous pick (initially 0) |
| Drivers.GreedyIgnoresRepeats | tevr_asr_tool.cc:253-256 | a pick equal to the previous frame's adds nothing wherever it occurs |
| Drivers.GreedyExample | tevr_asr_tool.cc:242-256 | picks 3,3,3,5,5,2 print tokens[3] + tokens[5] + tokens[2] |
| Drivers.GreedyDecode | tevr_asr_tool.cc:242-258 | returns one pick per frame, each the frame's argmax, and the output is the repeat-collapsed text of the picks starting from last token 0 |
| Drivers.FeedTokens | tevr_asr_tool.cc:265-268 | the working map after tokens 0 .. n-1 of a frame are offered in order: one below the floor is skipped, any other runs a whole `AddToken` round |
| Drivers.FeedTokensNonEmpty | tevr_asr_tool.cc:265-268 | with at least one beam, a token at or above the floor leaves the map non-empty |
| Drivers.FeedFrame | tevr_asr_tool.cc:264-268 | the working map becomes `FeedTokens` of the frame over the active beams, so it is non-empty; the decoder stays consistent and its beams space-closed |
| Drivers.RoundsFollow | tevr_asr_tool.cc:264-269 | each round of active beams is a reduction of `FeedTokens` of its frame over the round before, from an empty working map |
| Drivers.RoundsFollowExtend | tevr_asr_tool.cc:264-269 | one more frame fed and reduced extends the rounds by one |
| Drivers.Finish | tevr_asr_tool.cc:272-275 | the final map is the end-of-sentence round over the active beams; every entry ends in end-of-sentence; the working map is emptied and the beams become a reduction of the final map (`ReducedFrom`); the text is that of the first beam, an entry nobody outscores, and it ends in a space |
| Drivers.BestOfFinals | tevr_asr_tool.cc:121-123 | the head of the kept beams outscores every entry of the map |
| Drivers.BeamDecode | tevr_asr_tool.cc:259-275 | the rounds start from the seed ("", 0, 0), and each one is a reduction of `FeedTokens` of its frame over the previous; the final map is the end-of-sentence round over the last one; the result is the text of an entry of it that nobody outscores, and it ends in a space so no word is left unscored |

## Left out

- Audio loading and validation, TFLite model loading and inference, and flag parsing: file I/O
  and foreign libraries. The acoustic scores are the input `logits`, and the frame count is
  `frames`.
- KenLM model loading, the vocabulary sanity check, and the n-gram scoring itself: KenLM appears
  only as the oracle functions of `KenLm<S>`.
- `float` rounding and the real `std::log` / `std::exp`: scores are exact reals and
  `log(1 + exp(x))` is the parameter `log1pExp`. Nothing claims the merge equals
  `ln(e^a + e^b)`.
- The `TFLITE_LOG_PROD` line in `Reduce` and all `std::cout` output: logging. This includes the
  greedy driver's per-frame `endl`. `GreedyDecode` returns the printed tokens as one string.
  `Reduce` requires a non-empty map because the log line reads `beams[0]`.
- The iteration order of `std::map` in `Reduce` and the tie order of the unstable `std::sort`.
  The values are collected in an unspecified order (`:|`) and sorted by insertion. Contracts
  state only sortedness, the kept/dropped split and membership.
- `Drivers.BeamDecode`, `Drivers.FeedFrame`: require that every frame has a token at or above
  `MIN_TOKEN_LOGP`. Without one, the source's `Reduce` reads `beams[0]` of an empty vector, which
  is undefined behaviour.
- `Decoding.LanguageModelDecoder`: the language-model pointer and `log1pExp` are fixed at
  construction. The source assigns `language_model` after construction.
- The decoder and the drivers take the token table as a parameter. `Vocabulary.Tokens()` is shown
  to be such a table, with the word-piece property the space and key lemmas need.

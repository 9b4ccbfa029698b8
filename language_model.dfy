/**
 * Language-model scoring of a hypothesis text, as the decoder computes it in
 * `CalculateScoreForText` and `AddScoreForWord` (tevr_asr_tool.cc:136-160): the text is cut at
 * every ' ', each segment that a space closes is looked up in the n-gram model, left to right,
 * and the segment after the last space (a word still being spelled) is not scored.
 *
 * The n-gram model itself (KenLM) is outside the model: it is seen only through the calls the
 * decoder makes, as the function-valued fields of `KenLm`.
 */
module LanguageModel {
  import opened Wrappers

  /**
   * The part of KenLM's `TrieModel` the decoder uses. `score(s, w)` is the log10 probability of
   * word index `w` after state `s` and `nextState(s, w)` is the state that same call writes to
   * `out_state`; `index` is the vocabulary lookup and `notFound` its answer for unknown words.
   */
  datatype KenLm<!S> = KenLm(
    beginSentenceState: S,
    score: (S, nat) -> real,
    nextState: (S, nat) -> S,
    index: string -> nat,
    notFound: nat)

  /** Tuning constants of `LanguageModelDecoder` (tevr_asr_tool.cc:80-84). */
  const ALPHA: real := 0.7
  const BETA: real := 0.75
  /** M_LN10, converting KenLM's base-10 scores to natural logarithms. */
  const KENLM_TO_LOGITS: real := 2.302585092994046
  const UNK_LOGP_OFFSET: real := -10.0

  /** The two variables `AddScoreForWord` updates through its pointer arguments. */
  datatype Scoring<S> = Scoring(state: S, score: real)

  /** The contribution of one scored word after `state`. */
  function WordScore<S>(lm: KenLm<S>, state: S, word: string): real {
    var idx := lm.index(word);
    var wordScore := lm.score(state, idx) * KENLM_TO_LOGITS * ALPHA + BETA;
    if idx == lm.notFound then wordScore + UNK_LOGP_OFFSET else wordScore
  }

  /** What `AddScoreForWord` does to state and score: nothing for an empty or blank word. */
  function ScoreWord<S>(lm: KenLm<S>, acc: Scoring<S>, word: string): Scoring<S> {
    if word == "" || word == " " then acc
    else Scoring(lm.nextState(acc.state, lm.index(word)), acc.score + WordScore(lm, acc.state, word))
  }

  /** Feed `words` to the model left to right, starting from `acc`. */
  function ScoreWords<S>(lm: KenLm<S>, acc: Scoring<S>, words: seq<string>): Scoring<S>
    decreases |words|
  {
    if words == [] then acc else ScoreWords(lm, ScoreWord(lm, acc, words[0]), words[1..])
  }

  /** `text.find(' ', from)`: the first space at or after `from`, or None for `npos`. */
  function FindSpace(text: string, from: nat): (r: Option<nat>)
    ensures r.Some? ==> from <= r.value < |text| && text[r.value] == ' '
    ensures r.Some? ==> forall j :: from <= j < r.value ==> text[j] != ' '
    ensures r.None? ==> forall j :: from <= j < |text| ==> text[j] != ' '
    decreases |text| - from
  {
    if from >= |text| then None
    else if text[from] == ' ' then Some(from)
    else FindSpace(text, from + 1)
  }

  /** The segments of `text[from..]` that a space closes, in order. */
  function WordsFrom(text: string, from: nat): seq<string>
    requires from <= |text|
    decreases |text| - from
  {
    match FindSpace(text, from)
    case None => []
    case Some(next) => [text[from..next]] + WordsFrom(text, next + 1)
  }

  /** What follows the last space of `text[from..]`: the word not yet finished. */
  function TrailingWordFrom(text: string, from: nat): string
    requires from <= |text|
    decreases |text| - from
  {
    match FindSpace(text, from)
    case None => text[from..]
    case Some(next) => TrailingWordFrom(text, next + 1)
  }

  function CompletedWords(text: string): seq<string> {
    WordsFrom(text, 0)
  }

  function TrailingWord(text: string): string {
    TrailingWordFrom(text, 0)
  }

  /** State and score after the completed words of `text`, from the begin-of-sentence state. */
  function ScoringOf<S>(lm: KenLm<S>, text: string): Scoring<S> {
    ScoreWords(lm, Scoring(lm.beginSentenceState, 0.0), CompletedWords(text))
  }

  /** The language-model score of a hypothesis text: what `CalculateScoreForText` returns. */
  function ScoreForText<S>(lm: KenLm<S>, text: string): real {
    ScoringOf(lm, text).score
  }

  /** Words each followed by one space. */
  function Terminated(words: seq<string>): string
    decreases |words|
  {
    if words == [] then "" else words[0] + " " + Terminated(words[1..])
  }

  ghost predicate SpaceFree(words: seq<string>) {
    forall i :: 0 <= i < |words| ==> ' ' !in words[i]
  }

  /**
   * The cut is a faithful decomposition: `text[from..]` is its completed words, each closed by a
   * space, followed by the trailing word, and none of these pieces holds a space.
   */
  lemma SplitFrom(text: string, from: nat)
    requires from <= |text|
    ensures text[from..] == Terminated(WordsFrom(text, from)) + TrailingWordFrom(text, from)
    ensures SpaceFree(WordsFrom(text, from)) && ' ' !in TrailingWordFrom(text, from)
  {
    SplitFromJoins(text, from);
    SplitFromSpaceFree(text, from);
  }

  /** One step of the cut: the first completed word, and the cut of what follows its space. */
  lemma WordsFromStep(text: string, from: nat, next: nat)
    requires from <= |text| && FindSpace(text, from) == Some(next)
    ensures WordsFrom(text, from) == [text[from..next]] + WordsFrom(text, next + 1)
    ensures TrailingWordFrom(text, from) == TrailingWordFrom(text, next + 1)
  {
  }

  /** A text cut at one of its spaces is the part before, the space, and the part after. */
  lemma CutAtSpace(text: string, from: nat, next: nat)
    requires from <= next < |text| && text[next] == ' '
    ensures text[from..] == text[from..next] + " " + text[next + 1..]
  {
    assert text[from..] == text[from..next] + [text[next]] + text[next + 1..];
  }

  /** Scoring the completed words from `from` on scores the first one, then the rest. */
  lemma ScoreWordsStep<S>(lm: KenLm<S>, acc: Scoring<S>, text: string, from: nat, next: nat)
    requires from <= |text| && FindSpace(text, from) == Some(next)
    ensures ScoreWords(lm, acc, WordsFrom(text, from))
         == ScoreWords(lm, ScoreWord(lm, acc, text[from..next]), WordsFrom(text, next + 1))
  {
    WordsFromStep(text, from, next);
    var ws := WordsFrom(text, next + 1);
    assert ([text[from..next]] + ws)[1..] == ws;
  }

  lemma {:induction false} SplitFromJoins(text: string, from: nat)
    requires from <= |text|
    ensures text[from..] == Terminated(WordsFrom(text, from)) + TrailingWordFrom(text, from)
    decreases |text| - from
  {
    var found := FindSpace(text, from);
    if found.None? {
      WordsFromDone(text, from);
      EmptyJoin(text[from..]);
    } else {
      var next := found.value;
      var ws := WordsFrom(text, next + 1);
      WordsFromStep(text, from, next);
      CutAtSpace(text, from, next);
      SplitFromJoins(text, next + 1);
      TerminatedCons(text[from..next], ws);
      SpaceJoin(text[from..], text[from..next], text[next + 1..], Terminated(ws), TrailingWordFrom(text, next + 1));
    }
  }

  /** Without a further space, nothing is completed and everything is trailing. */
  lemma WordsFromDone(text: string, from: nat)
    requires from <= |text| && FindSpace(text, from) == None
    ensures WordsFrom(text, from) == [] && TrailingWordFrom(text, from) == text[from..]
  {
  }

  lemma EmptyJoin(s: string)
    ensures s == Terminated([]) + s
  {
  }

  lemma TerminatedCons(w: string, ws: seq<string>)
    ensures Terminated([w] + ws) == w + " " + Terminated(ws)
  {
    assert ([w] + ws)[1..] == ws;
  }

  /** Re-associating the concatenation at a space. */
  lemma SpaceJoin(whole: string, w: string, rest: string, done: string, trailing: string)
    requires whole == w + " " + rest && rest == done + trailing
    ensures whole == (w + " " + done) + trailing
  {
  }

  lemma {:induction false} SplitFromSpaceFree(text: string, from: nat)
    requires from <= |text|
    ensures SpaceFree(WordsFrom(text, from)) && ' ' !in TrailingWordFrom(text, from)
    decreases |text| - from
  {
    match FindSpace(text, from)
    case None =>
      assert forall c :: c in text[from..] ==> c != ' ';
    case Some(next) =>
      var w, ws := text[from..next], WordsFrom(text, next + 1);
      WordsFromStep(text, from, next);
      SplitFromSpaceFree(text, next + 1);
      assert forall c :: c in w ==> c != ' ';
      assert ([w] + ws)[0] == w && forall i :: 1 <= i < |[w] + ws| ==> ([w] + ws)[i] == ws[i - 1];
  }

  /** The first space at or after `from` is the one `FindSpace` finds. */
  lemma FindSpaceFinds(text: string, from: nat, next: nat)
    requires from <= next < |text| && text[next] == ' '
    requires forall j :: from <= j < next ==> text[j] != ' '
    ensures FindSpace(text, from) == Some(next)
  {
  }

  /** With no further space, nothing is completed and everything is trailing. */
  lemma NoSpaceFindsNothing(text: string, from: nat)
    requires from <= |text| && ' ' !in text[from..]
    ensures FindSpace(text, from) == None
    ensures WordsFrom(text, from) == [] && TrailingWordFrom(text, from) == text[from..]
  {
  }

  /**
   * A text cut into space-free words, each closed by a space, and a space-free tail is cut that
   * way by `WordsFrom` and `TrailingWordFrom`: the cut is the only such decomposition.
   */
  lemma {:induction false} SplitUniqueFrom(text: string, from: nat, words: seq<string>, trailing: string)
    requires from <= |text|
    requires text[from..] == Terminated(words) + trailing
    requires SpaceFree(words) && ' ' !in trailing
    ensures WordsFrom(text, from) == words && TrailingWordFrom(text, from) == trailing
    decreases |words|
  {
    if words == [] {
      NoSpaceFindsNothing(text, from);
    } else {
      var w, rest := words[0], words[1..];
      var tail := Terminated(rest) + trailing;
      var next := from + |w|;
      TerminatedFirst(text[from..], words, trailing);
      FirstWordCut(text, from, w, tail);
      SplitUniqueFrom(text, next + 1, rest, trailing);
      WordsFromStep(text, from, next);
      assert words == [w] + rest;
    }
  }

  /** A decomposition with a first word: that word, a space, then the decomposition of the rest. */
  lemma TerminatedFirst(s: string, words: seq<string>, trailing: string)
    requires words != [] && s == Terminated(words) + trailing && SpaceFree(words)
    ensures s == words[0] + " " + (Terminated(words[1..]) + trailing)
    ensures ' ' !in words[0] && SpaceFree(words[1..])
  {
    assert words[0] in words;
    forall i | 0 <= i < |words[1..]| ensures ' ' !in words[1..][i] {
      assert words[1..][i] == words[i + 1];
    }
  }

  lemma FirstWordCut(text: string, from: nat, w: string, tail: string)
    requires from <= |text| && text[from..] == w + " " + tail && ' ' !in w
    ensures FindSpace(text, from) == Some(from + |w|)
    ensures text[from..from + |w|] == w && text[from + |w| + 1..] == tail
  {
    var next := from + |w|;
    assert text[next] == ' ' by {
      assert text[from..][|w|] == ' ';
    }
    forall j | from <= j < next ensures text[j] != ' ' {
      assert text[j] == text[from..][j - from] == w[j - from];
      assert w[j - from] in w;
    }
    FindSpaceFinds(text, from, next);
    assert text[from..next] == text[from..][..|w|];
    assert text[next + 1..] == text[from..][|w| + 1..];
  }

  lemma SplitUnique(text: string, words: seq<string>, trailing: string)
    requires text == Terminated(words) + trailing
    requires SpaceFree(words) && ' ' !in trailing
    ensures CompletedWords(text) == words && TrailingWord(text) == trailing
  {
    SplitUniqueFrom(text, 0, words, trailing);
  }

  lemma {:induction false} TerminatedAppend(words: seq<string>, w: string)
    ensures Terminated(words + [w]) == Terminated(words) + w + " "
    decreases |words|
  {
    if words != [] {
      assert (words + [w])[1..] == words[1..] + [w];
      TerminatedAppend(words[1..], w);
    }
  }

  lemma {:induction false} ScoreWordsAppend<S>(lm: KenLm<S>, acc: Scoring<S>, words: seq<string>, w: string)
    ensures ScoreWords(lm, acc, words + [w]) == ScoreWord(lm, ScoreWords(lm, acc, words), w)
    decreases |words|
  {
    if words != [] {
      assert (words + [w])[1..] == words[1..] + [w];
      ScoreWordsAppend(lm, ScoreWord(lm, acc, words[0]), words[1..], w);
    }
  }

  /** A text without a space has no completed word and scores 0. */
  lemma NoSpaceScoresZero<S>(lm: KenLm<S>, text: string)
    requires ' ' !in text
    ensures CompletedWords(text) == []
    ensures ScoreForText(lm, text) == 0.0
  {
    SplitUnique(text, [], text);
  }

  /**
   * The trailing word is not scored: extending a text by characters that are not spaces leaves
   * its model state and score unchanged, however long the unfinished word grows.
   */
  lemma TrailingWordNotScored<S>(lm: KenLm<S>, text: string, more: string)
    requires ' ' !in more
    ensures CompletedWords(text + more) == CompletedWords(text)
    ensures ScoringOf(lm, text + more) == ScoringOf(lm, text)
  {
    SplitFrom(text, 0);
    var words, trailing := CompletedWords(text), TrailingWord(text);
    assert text == Terminated(words) + trailing;
    assert text + more == Terminated(words) + (trailing + more);
    SplitUnique(text + more, words, trailing + more);
  }

  /**
   * Closing the trailing word with a space scores exactly that word, after the state reached by
   * the words before it: the word is scored once it is complete, and not before.
   */
  lemma CompletingWordAddsItsScore<S>(lm: KenLm<S>, text: string)
    ensures CompletedWords(text + " ") == CompletedWords(text) + [TrailingWord(text)]
    ensures ScoringOf(lm, text + " ") == ScoreWord(lm, ScoringOf(lm, text), TrailingWord(text))
  {
    SplitFrom(text, 0);
    var words, trailing := CompletedWords(text), TrailingWord(text);
    TerminatedAppend(words, trailing);
    assert text + " " == Terminated(words + [trailing]) + "";
    SplitUnique(text + " ", words + [trailing], "");
    ScoreWordsAppend(lm, Scoring(lm.beginSentenceState, 0.0), words, trailing);
  }

  /** A second space in a row adds an empty segment, which scores nothing. */
  lemma RepeatedSpaceScoresNothing<S>(lm: KenLm<S>, text: string)
    requires |text| > 0 && text[|text| - 1] == ' '
    ensures TrailingWord(text) == ""
    ensures ScoringOf(lm, text + " ") == ScoringOf(lm, text)
  {
    SplitFrom(text, 0);
    CompletingWordAddsItsScore(lm, text);
  }

  /**
   * The unknown-word penalty: of two words the model scores alike after the same state, the one
   * missing from the vocabulary scores exactly |UNK_LOGP_OFFSET| lower.
   */
  lemma UnknownWordPenalty<S>(lm: KenLm<S>, state: S, known: string, unknown: string)
    requires lm.index(known) != lm.notFound && lm.index(unknown) == lm.notFound
    requires lm.score(state, lm.index(known)) == lm.score(state, lm.index(unknown))
    ensures WordScore(lm, state, known) - WordScore(lm, state, unknown) == -UNK_LOGP_OFFSET
  {
  }
}

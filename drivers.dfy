/**
 * The two decode loops of `main` (tevr_asr_tool.cc:240-275), over the acoustic model's output:
 * `frames` rows of `VOCAB_SIZE` scores each, row-major, as `wave_data` holds them.
 *
 * Without the language model, each frame's best token is taken and its surface printed whenever
 * it differs from the previous frame's pick. With it, every frame feeds each token that clears
 * `MIN_TOKEN_LOGP` to the beam search, a final end-of-sentence token closes every hypothesis,
 * and the text of the best one is printed.
 */
module Drivers {
  import opened Vocabulary
  import opened Beams
  import opened LanguageModel
  import opened Decoding

  /** The scores of frame `t`: `wave_data[t * 256 .. t * 256 + 255]`. */
  function Frame(logits: seq<real>, t: nat): (frame: seq<real>)
    requires (t + 1) * VOCAB_SIZE <= |logits|
    ensures |frame| == VOCAB_SIZE
    ensures forall i :: 0 <= i < VOCAB_SIZE ==> frame[i] == logits[t * VOCAB_SIZE + i]
  {
    logits[t * VOCAB_SIZE..(t + 1) * VOCAB_SIZE]
  }

  // ---------------------------------------------------------------------------------------------
  // Greedy decoding

  /** The starting value of `max_logit`, -5e17. */
  const INITIAL_MAX_LOGIT: real := -500000000000000000.0

  /**
   * The token a frame's argmax picks: the lowest index of a maximal score, when some score
   * exceeds the starting value -5e17, and token 0 otherwise.
   */
  ghost predicate IsPick(frame: seq<real>, r: nat) {
    && r < |frame|
    && if forall j :: 0 <= j < |frame| ==> frame[j] <= INITIAL_MAX_LOGIT then r == 0
       else
         && frame[r] > INITIAL_MAX_LOGIT
         && (forall j :: 0 <= j < |frame| ==> frame[j] <= frame[r])
         && (forall j :: 0 <= j < r ==> frame[j] < frame[r])
  }

  /** A frame has only one pick. */
  lemma PickUnique(frame: seq<real>, r1: nat, r2: nat)
    requires IsPick(frame, r1) && IsPick(frame, r2)
    ensures r1 == r2
  {
  }

  /**
   * The inner loop of the greedy driver (tevr_asr_tool.cc:244-252): a scan with a strict `>`,
   * so that the first of several equal maxima is kept.
   */
  method ScanArgmax(frame: seq<real>) returns (maxIdx: TokenId)
    requires |frame| == VOCAB_SIZE
    ensures IsPick(frame, maxIdx)
  {
    maxIdx := 0;
    var maxLogit := INITIAL_MAX_LOGIT;
    var i := 0;
    while i < VOCAB_SIZE
      invariant 0 <= i <= VOCAB_SIZE
      invariant maxLogit >= INITIAL_MAX_LOGIT
      invariant forall j :: 0 <= j < i ==> frame[j] <= maxLogit
      invariant maxLogit == INITIAL_MAX_LOGIT ==> maxIdx == 0
      invariant maxLogit > INITIAL_MAX_LOGIT ==>
        maxIdx < i && frame[maxIdx] == maxLogit && forall j :: 0 <= j < maxIdx ==> frame[j] < maxLogit
    {
      var v := frame[i];
      if v > maxLogit {
        maxLogit := v;
        maxIdx := i;
      }
      i := i + 1;
    }
  }

  /** The token last printed after `picks`, or the starting `last_token = 0`. */
  function Previous(picks: seq<TokenId>): TokenId {
    if picks == [] then 0 else picks[|picks| - 1]
  }

  /** What the greedy driver prints for the sequence of per-frame picks. */
  function GreedyText(tokens: TokenTable, picks: seq<TokenId>): string
    decreases |picks|
  {
    if picks == [] then ""
    else
      var init, p := picks[..|picks| - 1], picks[|picks| - 1];
      GreedyText(tokens, init) + if p != Previous(init) then tokens[p] else ""
  }

  /**
   * Repeat collapse: a pick that repeats the previous frame's adds nothing, wherever it occurs,
   * so a run of equal picks prints its surface once.
   */
  lemma {:induction false} GreedyIgnoresRepeats(tokens: TokenTable, a: seq<TokenId>, x: TokenId, b: seq<TokenId>)
    ensures GreedyText(tokens, a + [x, x] + b) == GreedyText(tokens, a + [x] + b)
    decreases |b|
  {
    if b == [] {
      assert (a + [x, x] + b)[..|a| + 1] == a + [x];
      assert a + [x] + b == a + [x];
    } else {
      var b', y := b[..|b| - 1], b[|b| - 1];
      var long, short := a + [x, x] + b', a + [x] + b';
      assert (a + [x, x] + b)[..|a + [x, x] + b| - 1] == long;
      assert (a + [x] + b)[..|a + [x] + b| - 1] == short;
      assert Previous(long) == Previous(short);
      GreedyIgnoresRepeats(tokens, a, x, b');
    }
  }

  /** The frames picking 3, 3, 3, 5, 5, 2 print tokens[3], tokens[5] and tokens[2]. */
  lemma GreedyExample(tokens: TokenTable)
    ensures GreedyText(tokens, [3, 3, 3, 5, 5, 2]) == tokens[3] + tokens[5] + tokens[2]
  {
    var picks: seq<TokenId> := [3, 3, 3, 5, 5, 2];
    var p1, p2, p3, p4, p5 := picks[..1], picks[..2], picks[..3], picks[..4], picks[..5];
    assert p1[..0] == [] && p2[..1] == p1 && p3[..2] == p2 && p4[..3] == p3 && p5[..4] == p4 && picks[..5] == p5;
    assert GreedyText(tokens, p1) == tokens[3];
    assert GreedyText(tokens, p2) == tokens[3];
    assert GreedyText(tokens, p3) == tokens[3];
    assert GreedyText(tokens, p4) == tokens[3] + tokens[5];
    assert GreedyText(tokens, p5) == tokens[3] + tokens[5];
  }

  /**
   * The greedy driver (tevr_asr_tool.cc:242-258): the text printed is the collapse of the
   * frames' picks, where `picks[t]` is the `max_idx` the scan of frame `t` settles on.
   */
  method GreedyDecode(tokens: TokenTable, frames: nat, logits: seq<real>) returns (output: string, picks: seq<TokenId>)
    requires |logits| == frames * VOCAB_SIZE
    ensures |picks| == frames
    ensures forall t :: 0 <= t < frames ==> IsPick(Frame(logits, t), picks[t])
    ensures output == GreedyText(tokens, picks)
  {
    output := "";
    picks := [];
    var lastToken: TokenId := 0;
    var t := 0;
    while t < frames
      invariant 0 <= t <= frames && |picks| == t
      invariant forall s :: 0 <= s < t ==> IsPick(Frame(logits, s), picks[s])
      invariant lastToken == Previous(picks)
      invariant output == GreedyText(tokens, picks)
    {
      var maxIdx := ScanArgmax(Frame(logits, t));
      ghost var before := picks;
      picks := picks + [maxIdx];
      assert picks[..|picks| - 1] == before;
      forall s | 0 <= s < t + 1 ensures IsPick(Frame(logits, s), picks[s]) {
        if s < t {
          assert picks[s] == before[s];
        }
      }
      if maxIdx != lastToken {
        lastToken := maxIdx;
        output := output + tokens[maxIdx];
      }
      t := t + 1;
    }
  }

  // ---------------------------------------------------------------------------------------------
  // Beam decoding with the language model

  /** Some token of the frame clears the floor, so the frame yields at least one candidate. */
  ghost predicate Expandable(frame: seq<real>) {
    exists i :: 0 <= i < |frame| && frame[i] >= MIN_TOKEN_LOGP
  }

  /**
   * The working map after the tokens `0 .. n - 1` of `frame` have been offered to the beams `bs`,
   * in index order: a token below the floor is skipped, any other extends every beam
   * (tevr_asr_tool.cc:265-268).
   */
  function FeedTokens<S>(tokens: TokenTable, lm: KenLm<S>, m: map<string, Beam>, bs: seq<Beam>, frame: seq<real>, n: nat, log1pExp: real -> real): map<string, Beam>
    requires n <= |frame| && n <= VOCAB_SIZE
  {
    if n == 0 then m
    else
      var fed := FeedTokens(tokens, lm, m, bs, frame, n - 1, log1pExp);
      if frame[n - 1] < MIN_TOKEN_LOGP then fed
      else MergeExtensions(tokens, lm, fed, bs, n - 1, frame[n - 1], log1pExp)
  }

  /**
   * One frame of the beam driver (tevr_asr_tool.cc:264-268): every token scoring at least the
   * floor extends the active beams; the others are skipped. The active beams stay as they are and
   * the working map becomes the one `FeedTokens` describes, which is not empty.
   */
  method FeedFrame<S>(decoder: LanguageModelDecoder<S>, logits: seq<real>, t: nat)
    requires (t + 1) * VOCAB_SIZE <= |logits| && Expandable(Frame(logits, t))
    requires decoder.Valid() && decoder.SpacesClosed() && |decoder.beams| > 0
    modifies decoder`newBeams, decoder`cache
    ensures decoder.Valid() && decoder.SpacesClosed() && |decoder.newBeams| > 0
    ensures decoder.newBeams == FeedTokens(decoder.tokens, decoder.languageModel, old(decoder.newBeams), decoder.beams,
                                           Frame(logits, t), VOCAB_SIZE, decoder.log1pExp)
  {
    ghost var frame := Frame(logits, t);
    ghost var fed := decoder.newBeams;
    var tokenIdx := 0;
    while tokenIdx < VOCAB_SIZE
      invariant 0 <= tokenIdx <= VOCAB_SIZE
      invariant decoder.Valid() && decoder.SpacesClosed()
      invariant decoder.newBeams == FeedTokens(decoder.tokens, decoder.languageModel, fed, decoder.beams, frame, tokenIdx, decoder.log1pExp)
    {
      var tokenLogp := logits[t * VOCAB_SIZE + tokenIdx];
      assert tokenLogp == frame[tokenIdx];
      if tokenLogp < MIN_TOKEN_LOGP {
        tokenIdx := tokenIdx + 1;
        continue;
      }
      decoder.AddToken(tokenIdx, tokenLogp);
      tokenIdx := tokenIdx + 1;
    }
    FeedTokensNonEmpty(decoder.tokens, decoder.languageModel, fed, decoder.beams, frame, VOCAB_SIZE, decoder.log1pExp);
  }

  /** Once a token above the floor has been offered to at least one beam, the map is not empty. */
  lemma {:induction false} FeedTokensNonEmpty<S>(tokens: TokenTable, lm: KenLm<S>, m: map<string, Beam>, bs: seq<Beam>, frame: seq<real>, n: nat, log1pExp: real -> real)
    requires n <= |frame| && n <= VOCAB_SIZE && |bs| > 0
    requires exists j :: 0 <= j < n && frame[j] >= MIN_TOKEN_LOGP
    ensures |FeedTokens(tokens, lm, m, bs, frame, n, log1pExp)| > 0
  {
    var fed := FeedTokens(tokens, lm, m, bs, frame, n - 1, log1pExp);
    if frame[n - 1] >= MIN_TOKEN_LOGP {
      MergeExtensionsGrows(tokens, lm, fed, bs, n - 1, frame[n - 1], log1pExp);
    } else {
      FeedTokensNonEmpty(tokens, lm, m, bs, frame, n - 1, log1pExp);
    }
  }

  /**
   * The beam driver (tevr_asr_tool.cc:259-275): start from the empty hypothesis, extend and
   * reduce once per frame, add the end-of-sentence token, reduce, and return the best text.
   * Every frame must offer a token above the floor: the source's `Reduce` reads `beams[0]`.
   *
   * `rounds[t]` is the set of active beams before frame `t`: the seed beam first, then each
   * round a reduction of what frame `t` makes of the one before. `finals` is the working map
   * after the end-of-sentence round over the last active beams. The text returned is that of an
   * entry of `finals` no other entry outscores. Every final entry ends in end-of-sentence, so
   * the text ends with a space and all its words have been scored.
   */
  method BeamDecode<S>(tokens: TokenTable, lm: KenLm<S>, log1pExp: real -> real, frames: nat, logits: seq<real>)
    returns (text: string, ghost finals: map<string, Beam>, ghost rounds: seq<seq<Beam>>)
    requires |logits| == frames * VOCAB_SIZE
    requires forall t :: 0 <= t < frames ==> Expandable(Frame(logits, t))
    ensures |rounds| == frames + 1 && rounds[0] == [Beam("", 0.0, 0)]
    ensures RoundsFollow(tokens, lm, log1pExp, logits, rounds, frames)
    ensures finals == MergeExtensions(tokens, lm, map[], rounds[frames], TOKEN_ID_END_OF_SENTENCE, 0.0, log1pExp)
    ensures AllLastToken(finals, TOKEN_ID_END_OF_SENTENCE)
    ensures exists k :: k in finals && finals[k].text == text &&
              forall k2 :: k2 in finals ==> finals[k2].logp <= finals[k].logp
    ensures EndsWithSpace(text) && TrailingWord(text) == ""
  {
    var decoder := new LanguageModelDecoder(tokens, lm, log1pExp);
    decoder.beams := [Beam("", 0.0, 0)];
    rounds := [decoder.beams];
    var t := 0;
    while t < frames
      invariant 0 <= t <= frames
      invariant decoder.Valid() && decoder.SpacesClosed()
      invariant decoder.tokens == tokens && decoder.languageModel == lm && decoder.log1pExp == log1pExp
      invariant |decoder.beams| > 0 && decoder.newBeams == map[]
      invariant |rounds| == t + 1 && rounds[0] == [Beam("", 0.0, 0)] && rounds[t] == decoder.beams
      invariant RoundsFollow(tokens, lm, log1pExp, logits, rounds, t)
    {
      FeedFrame(decoder, logits, t);
      decoder.Reduce();
      RoundsFollowExtend(tokens, lm, log1pExp, logits, rounds, t, decoder.beams);
      rounds := rounds + [decoder.beams];
      t := t + 1;
    }
    text, finals := Finish(decoder);
  }

  /**
   * The end of the beam driver (tevr_asr_tool.cc:272-275): one end-of-sentence round over the
   * active beams, a last reduction, and the text of the best beam. `finals` is the working map
   * the round produces; the text is that of an entry no other entry outscores.
   */
  method Finish<S>(decoder: LanguageModelDecoder<S>) returns (text: string, ghost finals: map<string, Beam>)
    requires decoder.Valid() && decoder.SpacesClosed()
    requires |decoder.beams| > 0 && decoder.newBeams == map[]
    modifies decoder`beams, decoder`newBeams, decoder`cache
    ensures finals == MergeExtensions(decoder.tokens, decoder.languageModel, map[], old(decoder.beams), TOKEN_ID_END_OF_SENTENCE, 0.0, decoder.log1pExp)
    ensures AllLastToken(finals, TOKEN_ID_END_OF_SENTENCE)
    ensures exists k :: k in finals && finals[k].text == text &&
              forall k2 :: k2 in finals ==> finals[k2].logp <= finals[k].logp
    ensures EndsWithSpace(text) && TrailingWord(text) == ""
    ensures decoder.newBeams == map[] && ReducedFrom(decoder.tokens, finals, decoder.beams)
    ensures |decoder.beams| > 0 && text == decoder.beams[0].text
  {
    decoder.AddToken(TOKEN_ID_END_OF_SENTENCE, 0.0);
    MergeExtensionsLastToken(decoder.tokens, decoder.languageModel, map[], decoder.beams, TOKEN_ID_END_OF_SENTENCE, 0.0, decoder.log1pExp);
    finals := decoder.newBeams;
    decoder.Reduce();
    var best := decoder.beams[0];
    text := best.text;
    BestOfFinals(decoder.tokens, finals, decoder.beams);
    assert best in decoder.beams;
    assert finals[KeyOf(decoder.tokens, best)] == best;
    RepeatedSpaceScoresNothing(decoder.languageModel, text);
  }

  /**
   * The first `n` frames took the beams `rounds[t]` to `rounds[t + 1]`: each is a reduction of
   * what feeding frame `t` to the one before produces in an empty working map.
   */
  ghost predicate RoundsFollow<S>(tokens: TokenTable, lm: KenLm<S>, log1pExp: real -> real, logits: seq<real>, rounds: seq<seq<Beam>>, n: nat)
    requires n < |rounds| && n * VOCAB_SIZE <= |logits|
  {
    forall t :: 0 <= t < n ==>
      ReducedFrom(tokens, FeedTokens(tokens, lm, map[], rounds[t], Frame(logits, t), VOCAB_SIZE, log1pExp), rounds[t + 1])
  }

  /** A reduction of the next frame's map extends the rounds by one. */
  lemma RoundsFollowExtend<S>(tokens: TokenTable, lm: KenLm<S>, log1pExp: real -> real, logits: seq<real>, rounds: seq<seq<Beam>>, n: nat, next: seq<Beam>)
    requires |rounds| == n + 1 && (n + 1) * VOCAB_SIZE <= |logits|
    requires RoundsFollow(tokens, lm, log1pExp, logits, rounds, n)
    requires ReducedFrom(tokens, FeedTokens(tokens, lm, map[], rounds[n], Frame(logits, n), VOCAB_SIZE, log1pExp), next)
    ensures RoundsFollow(tokens, lm, log1pExp, logits, rounds + [next], n + 1)
  {
    var longer := rounds + [next];
    forall t | 0 <= t < n + 1
      ensures ReducedFrom(tokens, FeedTokens(tokens, lm, map[], longer[t], Frame(logits, t), VOCAB_SIZE, log1pExp), longer[t + 1])
    {
      assert longer[t] == rounds[t];
      if t < n {
        assert longer[t + 1] == rounds[t + 1];
      }
    }
  }

  /** The head of what `Reduce` keeps scores at least as high as every entry of the map. */
  lemma BestOfFinals(tokens: TokenTable, m: map<string, Beam>, kept: seq<Beam>)
    requires |kept| > 0 && SortedByLogp(kept)
    requires forall k :: k in m && m[k] !in kept ==> forall i :: 0 <= i < |kept| ==> kept[i].logp >= m[k].logp
    ensures forall k :: k in m ==> m[k].logp <= kept[0].logp
  {
    forall k | k in m
      ensures m[k].logp <= kept[0].logp
    {
      if m[k] in kept {
        var i :| 0 <= i < |kept| && kept[i] == m[k];
        if i > 0 {
          assert kept[0].logp >= kept[i].logp;
        }
      }
    }
  }
}

/**
 * `LanguageModelDecoder` (tevr_asr_tool.cc:73-162): the CTC beam search with n-gram fusion.
 *
 * The decoder holds the active hypotheses (`beams`), the working map that collects the next
 * generation (`newBeams`, keyed by text, '|' and the surface of the last token) and the
 * per-session language-model score cache (`cache`). Each frame extends every active beam by
 * every token that clears the probability floor (`AddToken`), merging candidates that share a
 * key, and then `Reduce` makes the best `BEAM_WIDTH` entries of the map the new active set.
 *
 * Where the C++ passes a `lm::ngram::TrieModel*`, the decoder here holds the oracle `KenLm`;
 * `log1pExp` stands for the numeric function `x |-> ln(1 + e^x)` used when merging.
 */
module Decoding {
  import opened Wrappers
  import opened Vocabulary
  import opened Beams
  import opened LanguageModel

  /** The number of hypotheses `Reduce` keeps (tevr_asr_tool.cc:122-123). */
  const BEAM_WIDTH: nat := 500
  /** Tokens scoring below this in a frame are not expanded (tevr_asr_tool.cc:82, 267). */
  const MIN_TOKEN_LOGP: real := -5.0

  // ---------------------------------------------------------------------------------------------
  // The merge key

  /** The key `AddOrSumBeam` files a candidate under: its text, '|', its last token's surface. */
  function DedupKey(text: string, surface: string): string {
    text + "|" + surface
  }

  function KeyOf(tokens: TokenTable, b: Beam): string {
    DedupKey(b.text, tokens[b.lastTokenIdx])
  }

  /**
   * A key determines its text and surface, provided the surfaces hold no '|' (no token surface
   * does): the '|' that `AddOrSumBeam` inserts is then the last one in the key.
   */
  lemma DedupKeyInjective(text1: string, surface1: string, text2: string, surface2: string)
    requires '|' !in surface1 && '|' !in surface2
    ensures DedupKey(text1, surface1) == DedupKey(text2, surface2) <==> text1 == text2 && surface1 == surface2
  {
    var k1, k2 := DedupKey(text1, surface1), DedupKey(text2, surface2);
    if k1 == k2 {
      LastSeparator(text1, surface1);
      LastSeparator(text2, surface2);
      assert |text1| == |text2|;
      assert text1 == k1[..|text1|] && text2 == k2[..|text2|];
      assert surface1 == k1[|text1| + 1..] && surface2 == k2[|text2| + 1..];
    }
  }

  /** The '|' after the text is the last one in the key. */
  lemma LastSeparator(text: string, surface: string)
    requires '|' !in surface
    ensures DedupKey(text, surface)[|text|] == '|'
    ensures forall j :: |text| < j < |DedupKey(text, surface)| ==> DedupKey(text, surface)[j] != '|'
  {
    var k := DedupKey(text, surface);
    forall j | |text| < j < |k| ensures k[j] != '|' {
      assert k[j] == surface[j - |text| - 1];
      assert surface[j - |text| - 1] in surface;
    }
  }

  /** Two beams share a key exactly when they have the same text and equal last-token surfaces. */
  lemma SameKeyIffSameTextAndSurface(tokens: TokenTable, b1: Beam, b2: Beam)
    requires HasWordPieces(tokens)
    ensures KeyOf(tokens, b1) == KeyOf(tokens, b2) <==> b1.text == b2.text && tokens[b1.lastTokenIdx] == tokens[b2.lastTokenIdx]
  {
    DedupKeyInjective(b1.text, tokens[b1.lastTokenIdx], b2.text, tokens[b2.lastTokenIdx]);
  }

  /**
   * The key holds the surface, not the id: a beam ending in end-of-sentence and one ending in
   * the space token, with the same text, are merged into one entry.
   */
  lemma SpaceSurfacesCollide(tokens: TokenTable, text: string, logp1: real, logp2: real)
    ensures KeyOf(tokens, Beam(text, logp1, TOKEN_ID_END_OF_SENTENCE)) == KeyOf(tokens, Beam(text, logp2, TOKEN_ID_SPACE))
  {
  }

  // ---------------------------------------------------------------------------------------------
  // What one call of AddToken computes

  /** A beam whose last token is a space surface has a text that ends in a space. */
  predicate WellFormed(b: Beam) {
    (b.lastTokenIdx == TOKEN_ID_END_OF_SENTENCE || b.lastTokenIdx == TOKEN_ID_SPACE) ==> EndsWithSpace(b.text)
  }

  /**
   * The candidate an old beam yields for token `tokenIdx` (tevr_asr_tool.cc:87-95). A repeat of
   * the last token is a CTC continuation: the text stays and only the token's score is added.
   * Otherwise the token is a new emission: the text grows by its surface and the score gains the
   * token's score plus the change in language-model score.
   */
  function Extend<S>(tokens: TokenTable, lm: KenLm<S>, b: Beam, tokenIdx: TokenId, tokenLogp: real): Beam {
    if tokenIdx == b.lastTokenIdx then
      Beam(b.text, b.logp + tokenLogp, tokenIdx)
    else
      var newText := ConcatWithoutDuplicateSpaces(tokens, b.text, tokenIdx);
      var languageModelScoreDifference := ScoreForText(lm, newText) - ScoreForText(lm, b.text);
      Beam(newText, b.logp + tokenLogp + languageModelScoreDifference, tokenIdx)
  }

  /**
   * Every candidate ends in its token and extends its beam's text, and a repeat keeps the text.
   * Either way the part of the score that is not the language model's grows by exactly the
   * token's score, and a well-formed beam gives a well-formed candidate.
   */
  lemma ExtendProperties<S>(tokens: TokenTable, lm: KenLm<S>, b: Beam, tokenIdx: TokenId, tokenLogp: real)
    ensures var r := Extend(tokens, lm, b, tokenIdx, tokenLogp);
      && r.lastTokenIdx == tokenIdx
      && b.text <= r.text
      && (tokenIdx == b.lastTokenIdx ==> r.text == b.text && r.logp == b.logp + tokenLogp)
      && r.logp - ScoreForText(lm, r.text) == b.logp + tokenLogp - ScoreForText(lm, b.text)
      && (WellFormed(b) ==> WellFormed(r))
  {
  }

  // ---------------------------------------------------------------------------------------------
  // Merging candidates into the next generation

  /** Every entry is filed under its own key. */
  ghost predicate KeysConsistent(tokens: TokenTable, m: map<string, Beam>) {
    forall k {:trigger KeyOf(tokens, m[k])} :: k in m ==> KeyOf(tokens, m[k]) == k
  }

  ghost predicate AllWellFormed(m: map<string, Beam>) {
    forall k :: k in m ==> WellFormed(m[k])
  }

  ghost predicate AllLastToken(m: map<string, Beam>, tokenIdx: TokenId) {
    forall k :: k in m ==> m[k].lastTokenIdx == tokenIdx
  }

  /**
   * What `AddOrSumBeam` does to the map (tevr_asr_tool.cc:104-112): a new key gets the
   * candidate; an existing entry keeps its text and last token and combines its score with the
   * candidate's. Nothing else changes.
   */
  function MergeCandidate(tokens: TokenTable, m: map<string, Beam>, c: Beam, log1pExp: real -> real): (r: map<string, Beam>)
    ensures r.Keys == m.Keys + {KeyOf(tokens, c)}
    ensures forall k :: k in m && k != KeyOf(tokens, c) ==> r[k] == m[k]
    ensures KeyOf(tokens, c) !in m ==> r[KeyOf(tokens, c)] == c
    ensures KeyOf(tokens, c) in m ==> var e := m[KeyOf(tokens, c)];
      r[KeyOf(tokens, c)].text == e.text && r[KeyOf(tokens, c)].lastTokenIdx == e.lastTokenIdx
      && r[KeyOf(tokens, c)].logp == LogSumExp(e.logp, c.logp, log1pExp)
  {
    var key := KeyOf(tokens, c);
    if key in m then m[key := m[key].AddLogp(c.logp, log1pExp)] else m[key := c]
  }

  /** Merging one candidate grows the map by exactly the entries whose key is new. */
  lemma MergeCandidateSize(tokens: TokenTable, m: map<string, Beam>, c: Beam, log1pExp: real -> real)
    ensures |MergeCandidate(tokens, m, c, log1pExp)| == if KeyOf(tokens, c) in m then |m| else |m| + 1
  {
  }

  /** Merging keeps every entry filed under its own key. */
  lemma MergeCandidateKeysConsistent(tokens: TokenTable, m: map<string, Beam>, c: Beam, log1pExp: real -> real)
    requires KeysConsistent(tokens, m)
    ensures KeysConsistent(tokens, MergeCandidate(tokens, m, c, log1pExp))
  {
    var r := MergeCandidate(tokens, m, c, log1pExp);
    forall k | k in r ensures KeyOf(tokens, r[k]) == k {
      if k != KeyOf(tokens, c) {
        assert r[k] == m[k];
      }
      if k in m {
        assert KeyOf(tokens, m[k]) == k;
      }
    }
  }

  /** Merging a well-formed candidate into a well-formed map gives a well-formed map. */
  lemma MergeCandidateWellFormed(tokens: TokenTable, m: map<string, Beam>, c: Beam, log1pExp: real -> real)
    requires AllWellFormed(m) && WellFormed(c)
    ensures AllWellFormed(MergeCandidate(tokens, m, c, log1pExp))
  {
  }

  /** Merging a candidate with the last token every entry has leaves only entries with that token. */
  lemma MergeCandidateLastToken(tokens: TokenTable, m: map<string, Beam>, c: Beam, log1pExp: real -> real)
    requires AllLastToken(m, c.lastTokenIdx)
    ensures AllLastToken(MergeCandidate(tokens, m, c, log1pExp), c.lastTokenIdx)
  {
  }

  /** The keys of the candidates that the beams `bs` yield for one token. */
  function CandidateKeys<S>(tokens: TokenTable, lm: KenLm<S>, bs: seq<Beam>, tokenIdx: TokenId, tokenLogp: real): set<string>
    decreases |bs|
  {
    if bs == [] then {}
    else CandidateKeys(tokens, lm, bs[..|bs| - 1], tokenIdx, tokenLogp) + {KeyOf(tokens, Extend(tokens, lm, bs[|bs| - 1], tokenIdx, tokenLogp))}
  }

  /**
   * The working map after `AddToken` has merged the candidates of the beams `bs`, one per beam
   * and in order, into `m`.
   */
  function MergeExtensions<S>(tokens: TokenTable, lm: KenLm<S>, m: map<string, Beam>, bs: seq<Beam>, tokenIdx: TokenId, tokenLogp: real, log1pExp: real -> real): map<string, Beam>
    decreases |bs|
  {
    if bs == [] then m
    else
      var merged := MergeExtensions(tokens, lm, m, bs[..|bs| - 1], tokenIdx, tokenLogp, log1pExp);
      MergeCandidate(tokens, merged, Extend(tokens, lm, bs[|bs| - 1], tokenIdx, tokenLogp), log1pExp)
  }

  /**
   * The texts `AddToken` asks the language model about for the beams `bs`: for each beam the
   * token does not repeat, the extended text and the beam's own text. A repeat asks nothing.
   */
  function LookedUpTexts(tokens: TokenTable, bs: seq<Beam>, tokenIdx: TokenId): set<string>
    decreases |bs|
  {
    if bs == [] then {}
    else
      var b := bs[|bs| - 1];
      LookedUpTexts(tokens, bs[..|bs| - 1], tokenIdx)
        + if tokenIdx == b.lastTokenIdx then {} else {ConcatWithoutDuplicateSpaces(tokens, b.text, tokenIdx), b.text}
  }

  /** One more beam of the round adds the texts that beam looks up. */
  lemma LookedUpTextsStep(tokens: TokenTable, bs: seq<Beam>, i: nat, tokenIdx: TokenId)
    requires i < |bs|
    ensures LookedUpTexts(tokens, bs[..i + 1], tokenIdx) == LookedUpTexts(tokens, bs[..i], tokenIdx) + LookedUpTexts(tokens, [bs[i]], tokenIdx)
  {
    assert bs[..i + 1][..i] == bs[..i];
  }

  /**
   * A text is looked up exactly when some beam the token does not repeat has it as its text or
   * as its extended text.
   */
  lemma {:induction false} LookedUpTextsMembers(tokens: TokenTable, bs: seq<Beam>, tokenIdx: TokenId, text: string)
    ensures text in LookedUpTexts(tokens, bs, tokenIdx) <==>
      exists i :: 0 <= i < |bs| && bs[i].lastTokenIdx != tokenIdx &&
        (text == bs[i].text || text == ConcatWithoutDuplicateSpaces(tokens, bs[i].text, tokenIdx))
    decreases |bs|
  {
    if bs != [] {
      var init := bs[..|bs| - 1];
      LookedUpTextsMembers(tokens, init, tokenIdx, text);
      assert forall i :: 0 <= i < |init| ==> init[i] == bs[i];
    }
  }

  /** When every beam already ends in the token, `AddToken` consults the language model on nothing. */
  lemma RepeatsLookUpNothing(tokens: TokenTable, bs: seq<Beam>, tokenIdx: TokenId)
    requires forall i :: 0 <= i < |bs| ==> bs[i].lastTokenIdx == tokenIdx
    ensures LookedUpTexts(tokens, bs, tokenIdx) == {}
  {
    if LookedUpTexts(tokens, bs, tokenIdx) != {} {
      var text :| text in LookedUpTexts(tokens, bs, tokenIdx);
      LookedUpTextsMembers(tokens, bs, tokenIdx, text);
    }
  }

  /** One more beam of the round merges that beam's candidate. */
  lemma MergeExtensionsStep<S>(tokens: TokenTable, lm: KenLm<S>, m: map<string, Beam>, bs: seq<Beam>, i: nat, tokenIdx: TokenId, tokenLogp: real, log1pExp: real -> real)
    requires i < |bs|
    ensures MergeExtensions(tokens, lm, m, bs[..i + 1], tokenIdx, tokenLogp, log1pExp)
         == MergeCandidate(tokens, MergeExtensions(tokens, lm, m, bs[..i], tokenIdx, tokenLogp, log1pExp), Extend(tokens, lm, bs[i], tokenIdx, tokenLogp), log1pExp)
  {
    assert bs[..i + 1][..i] == bs[..i];
  }

  /** After `AddToken` the map holds exactly the old keys and the candidates' keys. */
  lemma {:induction false} MergeExtensionsKeys<S>(tokens: TokenTable, lm: KenLm<S>, m: map<string, Beam>, bs: seq<Beam>, tokenIdx: TokenId, tokenLogp: real, log1pExp: real -> real)
    ensures MergeExtensions(tokens, lm, m, bs, tokenIdx, tokenLogp, log1pExp).Keys == m.Keys + CandidateKeys(tokens, lm, bs, tokenIdx, tokenLogp)
    decreases |bs|
  {
    if bs != [] {
      MergeExtensionsKeys(tokens, lm, m, bs[..|bs| - 1], tokenIdx, tokenLogp, log1pExp);
    }
  }

  /** No entry is removed, and a token extending at least one beam leaves a non-empty map. */
  lemma MergeExtensionsGrows<S>(tokens: TokenTable, lm: KenLm<S>, m: map<string, Beam>, bs: seq<Beam>, tokenIdx: TokenId, tokenLogp: real, log1pExp: real -> real)
    ensures m.Keys <= MergeExtensions(tokens, lm, m, bs, tokenIdx, tokenLogp, log1pExp).Keys
    ensures |bs| > 0 ==> |MergeExtensions(tokens, lm, m, bs, tokenIdx, tokenLogp, log1pExp)| > 0
  {
    MergeExtensionsKeys(tokens, lm, m, bs, tokenIdx, tokenLogp, log1pExp);
    if bs != [] {
      assert KeyOf(tokens, Extend(tokens, lm, bs[|bs| - 1], tokenIdx, tokenLogp)) in CandidateKeys(tokens, lm, bs, tokenIdx, tokenLogp);
    }
  }

  /** Each beam adds at most one entry. */
  lemma {:induction false} MergeExtensionsSize<S>(tokens: TokenTable, lm: KenLm<S>, m: map<string, Beam>, bs: seq<Beam>, tokenIdx: TokenId, tokenLogp: real, log1pExp: real -> real)
    ensures |MergeExtensions(tokens, lm, m, bs, tokenIdx, tokenLogp, log1pExp)| <= |m| + |bs|
    decreases |bs|
  {
    if bs != [] {
      var init := bs[..|bs| - 1];
      MergeExtensionsSize(tokens, lm, m, init, tokenIdx, tokenLogp, log1pExp);
      MergeCandidateSize(tokens, MergeExtensions(tokens, lm, m, init, tokenIdx, tokenLogp, log1pExp), Extend(tokens, lm, bs[|bs| - 1], tokenIdx, tokenLogp), log1pExp);
    }
  }

  /** Every entry stays filed under its own key. */
  lemma {:induction false} MergeExtensionsKeysConsistent<S>(tokens: TokenTable, lm: KenLm<S>, m: map<string, Beam>, bs: seq<Beam>, tokenIdx: TokenId, tokenLogp: real, log1pExp: real -> real)
    requires KeysConsistent(tokens, m)
    ensures KeysConsistent(tokens, MergeExtensions(tokens, lm, m, bs, tokenIdx, tokenLogp, log1pExp))
    decreases |bs|
  {
    if bs != [] {
      var init := bs[..|bs| - 1];
      MergeExtensionsKeysConsistent(tokens, lm, m, init, tokenIdx, tokenLogp, log1pExp);
      MergeCandidateKeysConsistent(tokens, MergeExtensions(tokens, lm, m, init, tokenIdx, tokenLogp, log1pExp), Extend(tokens, lm, bs[|bs| - 1], tokenIdx, tokenLogp), log1pExp);
    }
  }

  /** Extending well-formed beams into a well-formed map gives a well-formed map. */
  lemma {:induction false} MergeExtensionsWellFormed<S>(tokens: TokenTable, lm: KenLm<S>, m: map<string, Beam>, bs: seq<Beam>, tokenIdx: TokenId, tokenLogp: real, log1pExp: real -> real)
    requires AllWellFormed(m)
    requires forall i :: 0 <= i < |bs| ==> WellFormed(bs[i])
    ensures AllWellFormed(MergeExtensions(tokens, lm, m, bs, tokenIdx, tokenLogp, log1pExp))
    decreases |bs|
  {
    if bs != [] {
      var init := bs[..|bs| - 1];
      assert forall i :: 0 <= i < |init| ==> init[i] == bs[i];
      MergeExtensionsWellFormed(tokens, lm, m, init, tokenIdx, tokenLogp, log1pExp);
      ExtendProperties(tokens, lm, bs[|bs| - 1], tokenIdx, tokenLogp);
      MergeCandidateWellFormed(tokens, MergeExtensions(tokens, lm, m, init, tokenIdx, tokenLogp, log1pExp), Extend(tokens, lm, bs[|bs| - 1], tokenIdx, tokenLogp), log1pExp);
    }
  }

  /** Every entry a token adds or updates ends in that token. */
  lemma {:induction false} MergeExtensionsLastToken<S>(tokens: TokenTable, lm: KenLm<S>, m: map<string, Beam>, bs: seq<Beam>, tokenIdx: TokenId, tokenLogp: real, log1pExp: real -> real)
    requires AllLastToken(m, tokenIdx)
    ensures AllLastToken(MergeExtensions(tokens, lm, m, bs, tokenIdx, tokenLogp, log1pExp), tokenIdx)
    decreases |bs|
  {
    if bs != [] {
      var init := bs[..|bs| - 1];
      MergeExtensionsLastToken(tokens, lm, m, init, tokenIdx, tokenLogp, log1pExp);
      MergeCandidateLastToken(tokens, MergeExtensions(tokens, lm, m, init, tokenIdx, tokenLogp, log1pExp), Extend(tokens, lm, bs[|bs| - 1], tokenIdx, tokenLogp), log1pExp);
    }
  }

  /**
   * Merge order decides which id a colliding entry keeps: the same text reached once through
   * end-of-sentence and once through the space token gives one entry whose score does not
   * depend on the order, but whose last token is that of the candidate merged first.
   */
  lemma CollidingCandidatesKeepFirstToken(tokens: TokenTable, m: map<string, Beam>, text: string, logp1: real, logp2: real, log1pExp: real -> real)
    requires DedupKey(text, " ") !in m
    ensures var c1, c2 := Beam(text, logp1, TOKEN_ID_END_OF_SENTENCE), Beam(text, logp2, TOKEN_ID_SPACE);
      var k := KeyOf(tokens, c1);
      var r12 := MergeCandidate(tokens, MergeCandidate(tokens, m, c1, log1pExp), c2, log1pExp);
      var r21 := MergeCandidate(tokens, MergeCandidate(tokens, m, c2, log1pExp), c1, log1pExp);
      && KeyOf(tokens, c2) == k && r12.Keys == r21.Keys == m.Keys + {k}
      && r12[k].text == r21[k].text == text
      && r12[k].logp == r21[k].logp
      && r12[k].lastTokenIdx == TOKEN_ID_END_OF_SENTENCE && r21[k].lastTokenIdx == TOKEN_ID_SPACE
  {
    AddLogpSymmetric(text, TOKEN_ID_END_OF_SENTENCE, logp1, logp2, log1pExp);
  }

  // ---------------------------------------------------------------------------------------------
  // Ordering for Reduce

  predicate SortedByLogp(s: seq<Beam>) {
    forall i, j :: 0 <= i < j < |s| ==> s[i].logp >= s[j].logp
  }

  ghost predicate DistinctKeys(tokens: TokenTable, s: seq<Beam>) {
    forall i, j :: 0 <= i < j < |s| ==> KeyOf(tokens, s[i]) != KeyOf(tokens, s[j])
  }

  /** Insert `b` ahead of the first entry that scores lower. */
  function InsertByLogp(s: seq<Beam>, b: Beam): (r: seq<Beam>)
    ensures multiset(r) == multiset(s) + multiset{b}
    ensures |r| == |s| + 1
    decreases |s|
  {
    if s == [] || b.logp >= s[0].logp then [b] + s
    else
      assert s == [s[0]] + s[1..];
      [s[0]] + InsertByLogp(s[1..], b)
  }

  /** Inserting into a sorted sequence keeps it sorted; the head is `b` or the old head. */
  lemma {:induction false} InsertByLogpSorted(s: seq<Beam>, b: Beam)
    requires SortedByLogp(s)
    ensures SortedByLogp(InsertByLogp(s, b))
    ensures InsertByLogp(s, b)[0] == b || (s != [] && InsertByLogp(s, b)[0] == s[0])
    decreases |s|
  {
    if !(s == [] || b.logp >= s[0].logp) {
      var rest := InsertByLogp(s[1..], b);
      InsertByLogpSorted(s[1..], b);
      var r := [s[0]] + rest;
      assert r == InsertByLogp(s, b);
      assert s[0].logp >= rest[0].logp;
      forall i, j | 0 <= i < j < |r| ensures r[i].logp >= r[j].logp {
        assert r[j] == rest[j - 1];
        if i > 0 {
          assert r[i] == rest[i - 1];
        }
      }
    }
  }

  /** `std::sort` with the comparator `a.logp > b.logp`: a permutation in non-increasing order. */
  method SortByLogpDescending(s: seq<Beam>) returns (r: seq<Beam>)
    ensures SortedByLogp(r)
    ensures multiset(r) == multiset(s)
  {
    r := [];
    var i := 0;
    while i < |s|
      invariant 0 <= i <= |s|
      invariant SortedByLogp(r)
      invariant multiset(r) == multiset(s[..i])
    {
      assert s[..i + 1] == s[..i] + [s[i]];
      InsertByLogpSorted(r, s[i]);
      r := InsertByLogp(r, s[i]);
      i := i + 1;
    }
    assert s[..|s|] == s;
  }

  lemma {:induction false} DistinctKeysCountOne(tokens: TokenTable, s: seq<Beam>, x: Beam)
    requires DistinctKeys(tokens, s)
    ensures multiset(s)[x] <= 1
    decreases |s|
  {
    if s != [] {
      var init, last := s[..|s| - 1], s[|s| - 1];
      assert s == init + [last];
      DistinctKeysCountOne(tokens, init, x);
    }
  }

  /** Distinct keys survive a permutation. */
  lemma DistinctKeysPermutation(tokens: TokenTable, a: seq<Beam>, b: seq<Beam>)
    requires multiset(a) == multiset(b) && DistinctKeys(tokens, a)
    ensures DistinctKeys(tokens, b)
  {
    forall i, j | 0 <= i < j < |b| ensures KeyOf(tokens, b[i]) != KeyOf(tokens, b[j]) {
      if KeyOf(tokens, b[i]) == KeyOf(tokens, b[j]) {
        assert b[i] in multiset(a) && b[j] in multiset(a);
        var p :| 0 <= p < |a| && a[p] == b[i];
        var q :| 0 <= q < |a| && a[q] == b[j];
        if p == q {
          assert b == b[..j] + b[j..];
          assert b[i] in b[..j] && b[j] in b[j..];
          assert multiset(b)[b[i]] == multiset(b[..j])[b[i]] + multiset(b[j..])[b[i]];
          DistinctKeysCountOne(tokens, a, b[i]);
        }
      }
    }
  }

  /**
   * The loop at the head of `Reduce` (tevr_asr_tool.cc:116): every value of the map, once each,
   * in the map's iteration order (left open here).
   */
  method CollectBeams(tokens: TokenTable, m: map<string, Beam>) returns (s: seq<Beam>)
    requires KeysConsistent(tokens, m)
    ensures |s| == |m|
    ensures forall b :: b in s ==> KeyOf(tokens, b) in m && m[KeyOf(tokens, b)] == b
    ensures forall k :: k in m ==> m[k] in s
    ensures DistinctKeys(tokens, s)
  {
    s := [];
    ghost var keys: seq<string> := [];
    var remaining := m.Keys;
    while remaining != {}
      invariant remaining <= m.Keys
      invariant |keys| == |s| && |s| + |remaining| == |m|
      invariant forall i :: 0 <= i < |s| ==> keys[i] in m && keys[i] !in remaining && s[i] == m[keys[i]]
      invariant forall i, j :: 0 <= i < j < |keys| ==> keys[i] != keys[j]
      invariant forall k :: k in m && k !in remaining ==> k in keys
      decreases remaining
    {
      var key :| key in remaining;
      s := s + [m[key]];
      keys := keys + [key];
      remaining := remaining - {key};
    }
    EntriesUnderTheirKeys(tokens, m, keys, s);
  }

  /** Values taken from distinct keys of a map whose entries sit under their own keys. */
  lemma EntriesUnderTheirKeys(tokens: TokenTable, m: map<string, Beam>, keys: seq<string>, s: seq<Beam>)
    requires KeysConsistent(tokens, m)
    requires |keys| == |s|
    requires forall i :: 0 <= i < |s| ==> keys[i] in m && s[i] == m[keys[i]]
    requires forall i, j :: 0 <= i < j < |keys| ==> keys[i] != keys[j]
    requires forall k :: k in m ==> k in keys
    ensures forall b :: b in s ==> KeyOf(tokens, b) in m && m[KeyOf(tokens, b)] == b
    ensures forall k :: k in m ==> m[k] in s
    ensures DistinctKeys(tokens, s)
  {
    forall i | 0 <= i < |s| ensures KeyOf(tokens, s[i]) == keys[i] {
      assert KeyOf(tokens, m[keys[i]]) == keys[i];
    }
    forall k | k in m ensures m[k] in s {
      var i :| 0 <= i < |keys| && keys[i] == k;
      assert s[i] == m[k];
    }
  }

  /** A permutation has the same members. */
  lemma SameMembers(a: seq<Beam>, b: seq<Beam>)
    requires multiset(a) == multiset(b)
    ensures forall x :: x in a <==> x in b
  {
    forall x ensures x in a <==> x in b {
      assert x in a <==> x in multiset(a);
      assert x in b <==> x in multiset(b);
    }
  }

  /** Cutting a sorted sequence keeps its best: nothing beyond the cut beats anything before it. */
  lemma SortedPrefixIsBest(s: seq<Beam>, n: nat)
    requires SortedByLogp(s) && n <= |s|
    ensures SortedByLogp(s[..n])
    ensures forall b :: b in s && b !in s[..n] ==> forall i :: 0 <= i < n ==> s[i].logp >= b.logp
  {
    forall b | b in s && b !in s[..n] ensures forall i :: 0 <= i < n ==> s[i].logp >= b.logp {
      var j :| 0 <= j < |s| && s[j] == b;
    }
  }

  /**
   * What the cut in `Reduce` keeps of the sorted entries of `m`: distinct entries of `m`, still
   * sorted, at least as good as every entry it drops, and well-formed when `m` is.
   */
  lemma KeptBeams(tokens: TokenTable, m: map<string, Beam>, sorted: seq<Beam>, n: nat)
    requires SortedByLogp(sorted) && DistinctKeys(tokens, sorted) && n <= |sorted|
    requires forall b :: b in sorted ==> KeyOf(tokens, b) in m && m[KeyOf(tokens, b)] == b
    requires forall k :: k in m ==> m[k] in sorted
    ensures SortedByLogp(sorted[..n]) && DistinctKeys(tokens, sorted[..n])
    ensures forall b :: b in sorted[..n] ==> KeyOf(tokens, b) in m && m[KeyOf(tokens, b)] == b
    ensures forall k :: k in m && m[k] !in sorted[..n] ==> forall i :: 0 <= i < n ==> sorted[i].logp >= m[k].logp
    ensures AllWellFormed(m) ==> forall i :: 0 <= i < n ==> WellFormed(sorted[i])
  {
    SortedPrefixIsBest(sorted, n);
    DistinctKeysPrefix(tokens, sorted, n);
    forall b | b in sorted[..n] ensures b in sorted {
    }
    if AllWellFormed(m) {
      forall i | 0 <= i < n ensures WellFormed(sorted[i]) {
        assert sorted[i] in sorted;
      }
    }
  }

  lemma DistinctKeysPrefix(tokens: TokenTable, s: seq<Beam>, n: nat)
    requires DistinctKeys(tokens, s) && n <= |s|
    ensures DistinctKeys(tokens, s[..n])
  {
  }

  /**
   * `kept` is what `Reduce` may leave of the working map `m`: as many entries as fit in
   * `BEAM_WIDTH`, in non-increasing score order, each a distinct entry of `m`, and none scoring
   * below an entry left out. Which of several equal-scoring entries are kept is left open, as
   * the order `std::sort` gives them is.
   */
  ghost predicate ReducedFrom(tokens: TokenTable, m: map<string, Beam>, kept: seq<Beam>) {
    && |kept| == (if |m| < BEAM_WIDTH then |m| else BEAM_WIDTH)
    && SortedByLogp(kept) && DistinctKeys(tokens, kept)
    && (forall b :: b in kept ==> KeyOf(tokens, b) in m && m[KeyOf(tokens, b)] == b)
    && (forall k :: k in m && m[k] !in kept ==> forall i :: 0 <= i < |kept| ==> kept[i].logp >= m[k].logp)
  }

  /**
   * The body of `Reduce` on values (tevr_asr_tool.cc:116-122): the entries of `m`, sorted by
   * descending score and cut to `BEAM_WIDTH`. The result holds distinct entries of `m`, as many
   * as fit, in order, each at least as good as every entry left out; if the entries of `m` are
   * well-formed, so are the kept ones.
   */
  method BestBeams(tokens: TokenTable, m: map<string, Beam>) returns (kept: seq<Beam>)
    requires KeysConsistent(tokens, m)
    ensures ReducedFrom(tokens, m, kept)
    ensures AllWellFormed(m) ==> forall i :: 0 <= i < |kept| ==> WellFormed(kept[i])
  {
    var unsorted := CollectBeams(tokens, m);
    var sorted := SortByLogpDescending(unsorted);
    DistinctKeysPermutation(tokens, unsorted, sorted);
    SameMembers(unsorted, sorted);
    assert |sorted| == |multiset(sorted)| == |multiset(unsorted)| == |m|;
    kept := sorted;
    if |kept| > BEAM_WIDTH {
      kept := kept[..BEAM_WIDTH];
    }
    assert kept == sorted[..|kept|];
    KeptBeams(tokens, m, sorted, |kept|);
  }

  // ---------------------------------------------------------------------------------------------
  // The decoder

  class LanguageModelDecoder<S> {
    const tokens: TokenTable
    const languageModel: KenLm<S>
    const log1pExp: real -> real
    var beams: seq<Beam>
    var newBeams: map<string, Beam>
    var cache: map<string, real>

    /**
     * The decoder's invariant: every entry of the working map is filed under its own key, and
     * every cached score is the language-model score of its text.
     */
    ghost predicate Valid()
      reads this`newBeams, this`cache
    {
      KeysConsistent(tokens, newBeams) && CacheCoherent()
    }

    ghost predicate CacheCoherent()
      reads this`cache
    {
      forall text :: text in cache ==> cache[text] == ScoreForText(languageModel, text)
    }

    /** Every hypothesis, active or collected, that ends in a space token ends in a space. */
    ghost predicate SpacesClosed()
      reads this`beams, this`newBeams
    {
      && (forall i :: 0 <= i < |beams| ==> WellFormed(beams[i]))
      && AllWellFormed(newBeams)
    }

    /** A decoder with no beams, an empty working map and an empty cache (tevr_asr_tool.cc:260-261). */
    constructor (tokens: TokenTable, languageModel: KenLm<S>, log1pExp: real -> real)
      ensures Valid() && SpacesClosed()
      ensures this.tokens == tokens && this.languageModel == languageModel && this.log1pExp == log1pExp
      ensures beams == [] && newBeams == map[] && cache == map[]
    {
      this.tokens := tokens;
      this.languageModel := languageModel;
      this.log1pExp := log1pExp;
      beams := [];
      newBeams := map[];
      cache := map[];
    }

    /**
     * `AddToken` (tevr_asr_tool.cc:86-96): merge into the working map one candidate per active
     * beam, in order. The active beams are read and not changed. The cache gains exactly the
     * texts scored for the beams the token does not repeat; a repeat makes no lookup.
     */
    method AddToken(tokenIdx: TokenId, tokenLogp: real)
      requires Valid()
      modifies this`newBeams, this`cache
      ensures Valid()
      ensures newBeams == MergeExtensions(tokens, languageModel, old(newBeams), beams, tokenIdx, tokenLogp, log1pExp)
      ensures old(newBeams).Keys <= newBeams.Keys
      ensures |beams| > 0 ==> |newBeams| > 0
      ensures cache.Keys == old(cache).Keys + LookedUpTexts(tokens, beams, tokenIdx)
      ensures old(SpacesClosed()) ==> SpacesClosed()
    {
      ghost var merged, looked, closed := newBeams, cache.Keys, SpacesClosed();
      var i := 0;
      while i < |beams|
        invariant 0 <= i <= |beams|
        invariant Valid()
        invariant newBeams == MergeExtensions(tokens, languageModel, merged, beams[..i], tokenIdx, tokenLogp, log1pExp)
        invariant cache.Keys == looked + LookedUpTexts(tokens, beams[..i], tokenIdx)
      {
        ExtendOne(beams[i], tokenIdx, tokenLogp);
        MergeExtensionsStep(tokens, languageModel, merged, beams, i, tokenIdx, tokenLogp, log1pExp);
        LookedUpTextsStep(tokens, beams, i, tokenIdx);
        i := i + 1;
      }
      assert beams[..|beams|] == beams;
      MergeExtensionsGrows(tokens, languageModel, merged, beams, tokenIdx, tokenLogp, log1pExp);
      if closed {
        MergeExtensionsWellFormed(tokens, languageModel, merged, beams, tokenIdx, tokenLogp, log1pExp);
      }
    }

    /** The body of the loop in `AddToken` (tevr_asr_tool.cc:87-95), for one old beam. */
    method ExtendOne(oldBeam: Beam, tokenIdx: TokenId, tokenLogp: real)
      requires Valid()
      modifies this`newBeams, this`cache
      ensures Valid()
      ensures newBeams == MergeCandidate(tokens, old(newBeams), Extend(tokens, languageModel, oldBeam, tokenIdx, tokenLogp), log1pExp)
      ensures cache.Keys == old(cache).Keys + LookedUpTexts(tokens, [oldBeam], tokenIdx)
    {
      ghost var candidate := Extend(tokens, languageModel, oldBeam, tokenIdx, tokenLogp);
      if tokenIdx == oldBeam.lastTokenIdx {
        assert Beam(oldBeam.text, oldBeam.logp + tokenLogp, tokenIdx) == candidate;
        AddOrSumBeam(oldBeam.text, oldBeam.logp + tokenLogp, tokenIdx);
      } else {
        var newText := ConcatWithoutDuplicateSpaces(tokens, oldBeam.text, tokenIdx);
        var newTextScore := GetScoreForText(newText);
        var oldTextScore := GetScoreForText(oldBeam.text);
        assert newBeams == old(newBeams);
        assert Beam(newText, oldBeam.logp + tokenLogp + (newTextScore - oldTextScore), tokenIdx) == candidate;
        AddOrSumBeam(newText, oldBeam.logp + tokenLogp + (newTextScore - oldTextScore), tokenIdx);
      }
    }

    /**
     * `AddOrSumBeam` (tevr_asr_tool.cc:104-112): file the candidate under its key, or combine
     * its score into the entry already there.
     */
    method AddOrSumBeam(text: string, logp: real, lastTokenIdx: TokenId)
      requires Valid()
      modifies this`newBeams
      ensures Valid()
      ensures newBeams == MergeCandidate(tokens, old(newBeams), Beam(text, logp, lastTokenIdx), log1pExp)
    {
      MergeCandidateKeysConsistent(tokens, newBeams, Beam(text, logp, lastTokenIdx), log1pExp);
      var cacheKey := text + "|" + tokens[lastTokenIdx];
      if cacheKey in newBeams {
        newBeams := newBeams[cacheKey := newBeams[cacheKey].AddLogp(logp, log1pExp)];
      } else {
        newBeams := newBeams[cacheKey := Beam(text, logp, lastTokenIdx)];
      }
    }

    /**
     * `Reduce` (tevr_asr_tool.cc:114-123): the entries of the working map become the active
     * beams, best first, cut to `BEAM_WIDTH`; the map is emptied. The kept beams are distinct
     * entries of the old map, in non-increasing score order, and no dropped entry scores higher
     * than a kept one. The source logs `beams[0]` afterwards, so the map must not be empty.
     */
    method Reduce()
      requires Valid() && |newBeams| > 0
      modifies this`beams, this`newBeams
      ensures Valid()
      ensures newBeams == map[]
      ensures ReducedFrom(tokens, old(newBeams), beams)
      ensures old(SpacesClosed()) ==> SpacesClosed()
    {
      beams := BestBeams(tokens, newBeams);
      newBeams := map[];
    }

    /**
     * `GetScoreForText` (tevr_asr_tool.cc:127-134): the language-model score of `text`, looked up
     * in the cache first. A hit returns the cached value and leaves the cache alone; a miss
     * computes the score and stores it under `text`. Either way the result is the text's score,
     * so a repeated call returns the same value.
     */
    method GetScoreForText(text: string) returns (score: real)
      requires Valid()
      modifies this`cache
      ensures Valid()
      ensures score == ScoreForText(languageModel, text)
      ensures text in old(cache) ==> score == old(cache)[text] && cache == old(cache)
      ensures text !in old(cache) ==> cache == old(cache)[text := score]
    {
      if text in cache {
        return cache[text];
      }
      score := CalculateScoreForText(text);
      cache := cache[text := score];
    }

    /**
     * `CalculateScoreForText` (tevr_asr_tool.cc:136-148): walk the text from space to space,
     * scoring each closed segment with the state the previous one left; the segment after the
     * last space is not scored.
     */
    method CalculateScoreForText(text: string) returns (score: real)
      ensures score == ScoreForText(languageModel, text)
    {
      score := 0.0;
      var state := languageModel.beginSentenceState;
      var currentPosition: nat := 0;
      var nextSpace := FindSpace(text, currentPosition);
      while nextSpace.Some?
        invariant currentPosition <= |text|
        invariant nextSpace == FindSpace(text, currentPosition)
        invariant ScoreWords(languageModel, Scoring(state, score), WordsFrom(text, currentPosition))
               == ScoringOf(languageModel, text)
        decreases |text| - currentPosition
      {
        var next := nextSpace.value;
        var word := text[currentPosition..next];
        ScoreWordsStep(languageModel, Scoring(state, score), text, currentPosition, next);
        state, score := AddScoreForWord(state, score, word);
        currentPosition := next + 1;
        nextSpace := FindSpace(text, currentPosition);
      }
    }

    /**
     * `AddScoreForWord` (tevr_asr_tool.cc:150-160): look the word up, score it after `state`
     * (scaled to natural log, weighted by ALPHA, plus the insertion bonus BETA, plus the penalty
     * for an unknown word) and move to the model's next state. An empty or blank word is skipped.
     */
    method AddScoreForWord(state: S, score: real, word: string) returns (newState: S, newScore: real)
      ensures Scoring(newState, newScore) == ScoreWord(languageModel, Scoring(state, score), word)
    {
      if word == "" || word == " " {
        return state, score;
      }
      var idx := languageModel.index(word);
      var outState := languageModel.nextState(state, idx);
      var rawWordScore := languageModel.score(state, idx);
      var wordScore := rawWordScore * KENLM_TO_LOGITS * ALPHA + BETA;
      if idx == languageModel.notFound {
        wordScore := wordScore + UNK_LOGP_OFFSET;
      }
      newState, newScore := outState, score + wordScore;
    }
  }
}

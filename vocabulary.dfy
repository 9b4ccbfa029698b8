/**
 * The acoustic model's output vocabulary: the `tokens` table and the two reserved ids
 * (tevr_asr_tool.cc:36-53), and the one text-building rule of the decoder,
 * `ConcatWithoutDuplicateSpaces` (tevr_asr_tool.cc:98-102).
 *
 * C++ keeps the surfaces as UTF-8 byte strings; here they are strings of characters. The only
 * character the decoder ever tests for is ' ' (tevr_asr_tool.cc:100, 141, 151); '|' is only
 * written, as the separator inside a beam's key (tevr_asr_tool.cc:105). Both are single bytes in
 * UTF-8 that never occur inside the encoding of another character, so the two views agree on every
 * test made and every key built.
 */
module Vocabulary {

  /** The `tokens[]` table, sixteen surfaces per row: row r holds ids 16 r .. 16 r + 15. */
  function Row0(): seq<string> { [
      "", " ", " ", "chen", "sche", "lich", "isch", "icht",
      "iche", "eine", "rden", "tion", "urde", "haft", "eich", "rung"] }
  function Row1(): seq<string> { [
      "chte", "ssen", "chaf", "nder", "tlic", "tung", "eite", "iert",
      "sich", "ngen", "erde", "scha", "nden", "unge", "lung", "mmen"] }
  function Row2(): seq<string> { [
      "eren", "ende", "inde", "erun", "sten", "iese", "igen", "erte",
      "iner", "tsch", "keit", "der", "die", "ter", "und", "ein"] }
  function Row3(): seq<string> { [
      "ist", "den", "ten", "ber", "ver", "sch", "ung", "ste",
      "ent", "ach", "nte", "auf", "ben", "eit", "des", "ers"] }
  function Row4(): seq<string> { [
      "aus", "das", "von", "ren", "gen", "nen", "lle", "hre",
      "mit", "iel", "uch", "lte", "ann", "lie", "men", "dem"] }
  function Row5(): seq<string> { [
      "and", "ind", "als", "sta", "elt", "ges", "tte", "ern",
      "wir", "ell", "war", "ere", "rch", "abe", "len", "ige"] }
  function Row6(): seq<string> { [
      "ied", "ger", "nnt", "wei", "ele", "och", "sse", "end",
      "all", "ahr", "bei", "sie", "ede", "ion", "ieg", "ege"] }
  function Row7(): seq<string> { [
      "auc", "che", "rie", "eis", "vor", "her", "ang", "f\U{00fc}r",
      "ass", "uss", "tel", "er", "in", "ge", "en", "st"] }
  function Row8(): seq<string> { [
      "ie", "an", "te", "be", "re", "zu", "ar", "es",
      "ra", "al", "or", "ch", "et", "ei", "un", "le"] }
  function Row9(): seq<string> { [
      "rt", "se", "is", "ha", "we", "at", "me", "ne",
      "ur", "he", "au", "ro", "ti", "li", "ri", "eh"] }
  function Row10(): seq<string> { [
      "im", "ma", "tr", "ig", "el", "um", "la", "am",
      "de", "so", "ol", "tz", "il", "on", "it", "sc"] }
  function Row11(): seq<string> { [
      "sp", "ko", "na", "pr", "ni", "si", "fe", "wi",
      "ns", "ke", "ut", "da", "gr", "eu", "mi", "hr"] }
  function Row12(): seq<string> { [
      "ze", "hi", "ta", "ss", "ng", "sa", "us", "ba",
      "ck", "em", "kt", "ka", "ve", "fr", "bi", "wa"] }
  function Row13(): seq<string> { [
      "ah", "gt", "di", "ab", "fo", "to", "rk", "as",
      "ag", "gi", "hn", "s", "t", "n", "m", "r"] }
  function Row14(): seq<string> { [
      "l", "f", "e", "a", "b", "d", "h", "k",
      "g", "o", "i", "u", "w", "p", "z", "\U{00e4}"] }
  function Row15(): seq<string> { [
      "\U{00fc}", "v", "\U{00f6}", "j", "c", "y", "x", "q",
      "\U{00e1}", "\U{00ed}", "\U{014d}", "\U{00f3}", "\U{0161}", "\U{00e9}", "\U{010d}", "?"] }
  function Row(r: nat): seq<string>
    requires r < 16
  {
    match r
    case 0 => Row0()
    case 1 => Row1()
    case 2 => Row2()
    case 3 => Row3()
    case 4 => Row4()
    case 5 => Row5()
    case 6 => Row6()
    case 7 => Row7()
    case 8 => Row8()
    case 9 => Row9()
    case 10 => Row10()
    case 11 => Row11()
    case 12 => Row12()
    case 13 => Row13()
    case 14 => Row14()
    case _ => Row15()
  }


  /** The acoustic model scores exactly one class per surface (tevr_asr_tool.cc:221, 246, 265). */
  const VOCAB_SIZE: nat := 256

  type TokenId = i: nat | i < 256

  const TOKEN_ID_END_OF_SENTENCE: TokenId := 1
  const TOKEN_ID_SPACE: TokenId := 2

  /** Every surface from `from` on is a non-empty word piece: no space and no '|'. */
  ghost predicate WordPiecesFrom(ts: seq<string>, from: nat) {
    forall i :: from <= i < |ts| ==> ts[i] != "" && ' ' !in ts[i] && '|' !in ts[i]
  }

  /**
   * Every row has sixteen entries; the first row starts with the blank "" and the two space
   * surfaces, and every other entry is a non-empty word piece. In particular no surface
   * contains '|', the separator of the merge key.
   */
  lemma RowShape(r: nat)
    requires r < 16
    ensures |Row(r)| == 16
    ensures r == 0 ==> Row(0)[0] == "" && Row(0)[1] == " " && Row(0)[2] == " "
    ensures WordPiecesFrom(Row(r), if r == 0 then 3 else 0)
  {
    match r
    case 0 => Row0Shape();
    case 1 => Row1Shape();
    case 2 => Row2Shape();
    case 3 => Row3Shape();
    case 4 => Row4Shape();
    case 5 => Row5Shape();
    case 6 => Row6Shape();
    case 7 => Row7Shape();
    case 8 => Row8Shape();
    case 9 => Row9Shape();
    case 10 => Row10Shape();
    case 11 => Row11Shape();
    case 12 => Row12Shape();
    case 13 => Row13Shape();
    case 14 => Row14Shape();
    case _ => Row15Shape();
  }

  lemma Row0Shape()
    ensures |Row(0)| == 16 && Row(0)[0] == "" && Row(0)[1] == " " && Row(0)[2] == " "
    ensures WordPiecesFrom(Row(0), 3)
  {
  }

  lemma Row1Shape() ensures |Row(1)| == 16 && WordPiecesFrom(Row(1), 0) { }
  lemma Row2Shape() ensures |Row(2)| == 16 && WordPiecesFrom(Row(2), 0) { }
  lemma Row3Shape() ensures |Row(3)| == 16 && WordPiecesFrom(Row(3), 0) { }
  lemma Row4Shape() ensures |Row(4)| == 16 && WordPiecesFrom(Row(4), 0) { }
  lemma Row5Shape() ensures |Row(5)| == 16 && WordPiecesFrom(Row(5), 0) { }
  lemma Row6Shape() ensures |Row(6)| == 16 && WordPiecesFrom(Row(6), 0) { }
  lemma Row7Shape() ensures |Row(7)| == 16 && WordPiecesFrom(Row(7), 0) { }
  lemma Row8Shape() ensures |Row(8)| == 16 && WordPiecesFrom(Row(8), 0) { }
  lemma Row9Shape() ensures |Row(9)| == 16 && WordPiecesFrom(Row(9), 0) { }
  lemma Row10Shape() ensures |Row(10)| == 16 && WordPiecesFrom(Row(10), 0) { }
  lemma Row11Shape() ensures |Row(11)| == 16 && WordPiecesFrom(Row(11), 0) { }
  lemma Row12Shape() ensures |Row(12)| == 16 && WordPiecesFrom(Row(12), 0) { }
  lemma Row13Shape() ensures |Row(13)| == 16 && WordPiecesFrom(Row(13), 0) { }
  lemma Row14Shape() ensures |Row(14)| == 16 && WordPiecesFrom(Row(14), 0) { }
  lemma Row15Shape() ensures |Row(15)| == 16 && WordPiecesFrom(Row(15), 0) { }
  /** Entry `id` of the table: column `id % 16` of row `id / 16`. */
  function Entry(id: nat): string
    requires id < VOCAB_SIZE
  {
    RowShape(id / 16);
    Row(id / 16)[id % 16]
  }

  /**
   * A table of one surface per token id, with the blank "" at 0 and the end-of-sentence and
   * space tokens both " ".
   */
  type TokenTable = ts: seq<string>
    | |ts| == VOCAB_SIZE && ts[0] == "" && ts[TOKEN_ID_END_OF_SENTENCE] == " " && ts[TOKEN_ID_SPACE] == " "
    witness seq(VOCAB_SIZE, i => if i == 0 then "" else if i < 3 then " " else "a")

  /** Every other surface is a non-empty word piece, without a space or a '|'. */
  ghost predicate HasWordPieces(tokens: TokenTable) {
    WordPiecesFrom(tokens, 3)
  }

  /** The `tokens[]` table itself (tevr_asr_tool.cc:36-50). */
  function Tokens(): (tokens: TokenTable)
    ensures HasWordPieces(tokens)
  {
    TokensShape();
    Entries()
  }

  function Entries(): seq<string> {
    seq(VOCAB_SIZE, id requires 0 <= id < VOCAB_SIZE => Entry(id))
  }

  lemma TokensShape()
    ensures |Entries()| == VOCAB_SIZE
    ensures Entries()[0] == "" && Entries()[TOKEN_ID_END_OF_SENTENCE] == " " && Entries()[TOKEN_ID_SPACE] == " "
    ensures WordPiecesFrom(Entries(), 3)
  {
    var ts := Entries();
    RowShape(0);
    assert ts[0] == Entry(0) && ts[1] == Entry(1) && ts[2] == Entry(2);
    forall i | 3 <= i < |ts|
      ensures ts[i] != "" && ' ' !in ts[i] && '|' !in ts[i]
    {
      RowShape(i / 16);
      assert ts[i] == Entry(i);
    }
  }

  predicate EndsWithSpace(s: string) {
    |s| > 0 && s[|s| - 1] == ' '
  }

  /**
   * `ConcatWithoutDuplicateSpaces`: append the surface of `tokenIdx` to `prefix`, except that the
   * space token is dropped after a text that already ends in a space. The result always extends
   * the prefix, and it is the plain concatenation exactly when that exception does not apply.
   */
  function ConcatWithoutDuplicateSpaces(tokens: TokenTable, prefix: string, tokenIdx: TokenId): (r: string)
    ensures prefix <= r
    ensures r == prefix || r == prefix + tokens[tokenIdx]
    ensures r == prefix + tokens[tokenIdx] <==> !(EndsWithSpace(prefix) && tokenIdx == TOKEN_ID_SPACE)
  {
    if prefix == [] then tokens[tokenIdx]
    else if prefix[|prefix| - 1] == ' ' && tokenIdx == TOKEN_ID_SPACE then prefix
    else prefix + tokens[tokenIdx]
  }

  /** Two spaces in a row somewhere in `s`. */
  predicate HasDoubleSpace(s: string) {
    exists i :: 0 <= i < |s| - 1 && s[i] == ' ' && s[i + 1] == ' '
  }

  /**
   * Appending any token except the end-of-sentence token to a text without a double space gives
   * a text without a double space: the space token is the only surface that is a space, and it is
   * dropped after a space.
   */
  lemma ConcatKeepsSingleSpaces(tokens: TokenTable, prefix: string, tokenIdx: TokenId)
    requires HasWordPieces(tokens) && tokenIdx != TOKEN_ID_END_OF_SENTENCE
    requires !HasDoubleSpace(prefix)
    ensures !HasDoubleSpace(ConcatWithoutDuplicateSpaces(tokens, prefix, tokenIdx))
  {
    var r := ConcatWithoutDuplicateSpaces(tokens, prefix, tokenIdx);
    if r != prefix {
      var s := tokens[tokenIdx];
      assert r == prefix + s;
      forall i | 0 <= i < |r| - 1
        ensures !(r[i] == ' ' && r[i + 1] == ' ')
      {
        if i + 1 < |prefix| {
          assert r[i] == prefix[i] && r[i + 1] == prefix[i + 1];
        } else if i + 1 == |prefix| {
          if tokenIdx == TOKEN_ID_SPACE {
            assert !EndsWithSpace(prefix);
            assert r[i] == prefix[|prefix| - 1];
          } else {
            assert r[i + 1] == s[0];
          }
        } else {
          assert r[i] == s[i - |prefix|];
          if tokenIdx != TOKEN_ID_SPACE {
            assert s[i - |prefix|] in s;
          }
        }
      }
    }
  }

  /** The text the decoder builds for a sequence of newly emitted tokens, left to right from "". */
  function Transcribe(tokens: TokenTable, ids: seq<TokenId>): string {
    if ids == [] then ""
    else ConcatWithoutDuplicateSpaces(tokens, Transcribe(tokens, ids[..|ids| - 1]), ids[|ids| - 1])
  }

  /** A text built without the end-of-sentence token never holds two spaces in a row. */
  lemma {:induction false} NoDoubleSpaceWithoutEndOfSentence(tokens: TokenTable, ids: seq<TokenId>)
    requires HasWordPieces(tokens)
    requires forall i :: 0 <= i < |ids| ==> ids[i] != TOKEN_ID_END_OF_SENTENCE
    ensures !HasDoubleSpace(Transcribe(tokens, ids))
  {
    if ids != [] {
      NoDoubleSpaceWithoutEndOfSentence(tokens, ids[..|ids| - 1]);
      ConcatKeepsSingleSpaces(tokens, Transcribe(tokens, ids[..|ids| - 1]), ids[|ids| - 1]);
    }
  }

  /**
   * The end-of-sentence token also has the surface " " but is not deduplicated: after a word
   * and a space it appends a second space.
   */
  lemma EndOfSentenceCanDoubleSpace(tokens: TokenTable)
    requires HasWordPieces(tokens)
    ensures Transcribe(tokens, [3, TOKEN_ID_SPACE, TOKEN_ID_END_OF_SENTENCE]) == tokens[3] + "  "
    ensures HasDoubleSpace(Transcribe(tokens, [3, TOKEN_ID_SPACE, TOKEN_ID_END_OF_SENTENCE]))
  {
    var ids: seq<TokenId> := [3, TOKEN_ID_SPACE, TOKEN_ID_END_OF_SENTENCE];
    var first: seq<TokenId> := [3];
    assert ids[..2][..1] == first && ids[..1] == first && first[..0] == [];
    var w := Transcribe(tokens, first);
    assert Transcribe(tokens, first[..0]) == "";
    assert w == ConcatWithoutDuplicateSpaces(tokens, "", 3) == tokens[3];
    assert Transcribe(tokens, ids[..2]) == w + " ";
    var r := Transcribe(tokens, ids);
    assert r == w + " " + " ";
    assert r[|w|] == ' ' && r[|w| + 1] == ' ';
  }
}

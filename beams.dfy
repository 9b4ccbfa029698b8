/**
 * `LanguageModelBeam` (tevr_asr_tool.cc:57-71): one hypothesis of the beam search.
 *
 * The C++ class has value semantics: the decoder copies beams into its vector and its map, and
 * `AddLogp` updates the `logp` field of the copy held by the map. Here a beam is a datatype and
 * `AddLogp` returns the updated beam, which the caller stores back in place of the old one.
 */
module Beams {
  import opened Vocabulary

  datatype Beam = Beam(text: string, logp: real, lastTokenIdx: TokenId) {

    /**
     * `AddLogp`: fold the score `addMe` of an alternative derivation of the same hypothesis into
     * this one, as `ln(e^logp + e^addMe)` computed from the larger of the two. `log1pExp`
     * stands for `x |-> ln(1 + e^x)` (`std::log(1.0 + std::exp(x))`). Whichever branch runs,
     * the result is the order-free form max + log1pExp(min - max), and text and last token stay.
     */
    function AddLogp(addMe: real, log1pExp: real -> real): (r: Beam)
      ensures r.text == text && r.lastTokenIdx == lastTokenIdx
      ensures r.logp == LogSumExp(logp, addMe, log1pExp)
    {
      if logp > addMe then this.(logp := logp + log1pExp(addMe - logp))
      else this.(logp := addMe + log1pExp(logp - addMe))
    }
  }

  function Max(a: real, b: real): real {
    if a >= b then a else b
  }

  function Min(a: real, b: real): real {
    if a >= b then b else a
  }

  /** The stable log-sum-exp of two natural-log scores: max(a, b) + ln(1 + e^(min(a, b) - max(a, b))). */
  function LogSumExp(a: real, b: real, log1pExp: real -> real): real {
    Max(a, b) + log1pExp(Min(a, b) - Max(a, b))
  }

  /** Combining two scores does not depend on which of them the beam already held. */
  lemma AddLogpSymmetric(text: string, lastTokenIdx: TokenId, a: real, b: real, log1pExp: real -> real)
    ensures Beam(text, a, lastTokenIdx).AddLogp(b, log1pExp).logp
         == Beam(text, b, lastTokenIdx).AddLogp(a, log1pExp).logp
  {
  }

  /** Since ln(1 + e^x) >= 0, combining never scores below either alternative: no mass is lost. */
  lemma AddLogpAtLeastMax(b: Beam, addMe: real, log1pExp: real -> real)
    requires forall x :: log1pExp(x) >= 0.0
    ensures b.AddLogp(addMe, log1pExp).logp >= b.logp
    ensures b.AddLogp(addMe, log1pExp).logp >= addMe
  {
  }
}

/**
 * The candidate filter of `generate_entropy_score` in wordrank/features/pmi.py.
 *
 * Extracting the neighbouring characters with a regular expression and
 * computing their Shannon entropy is not modelled; it is the parameter
 * `scorer`, which gives the (left, right) entropy pair of a candidate in a
 * text, or None when the source's pattern match raises for that candidate
 * (the error is logged and the candidate skipped). What is modelled is the
 * per-candidate loop: which keys are scored and which are retained.
 */
module ContextEntropy {
  import opened Wrappers

  /** Context entropy of a candidate in a text; None when extracting its context fails. */
  type ContextScorer = (string, string) -> Option<(real, real)>

  /** Candidates containing this character are never scored. */
  const Wildcard: char := '*'

  /** True when the extraction succeeded and one of the two entropies is positive. */
  predicate HasPositiveSide(e: Option<(real, real)>)
  {
    e.Some? && (e.value.0 > 0.0 || e.value.1 > 0.0)
  }

  /** True when `w` ends up in the entropy table built from `freq` and `text`. */
  predicate Retained(freq: map<string, nat>, text: string, scorer: ContextScorer, w: string)
  {
    w in freq && |w| != 1 && Wildcard !in w && HasPositiveSide(scorer(w, text))
  }

  /**
   * Visits every key once. Keys of length 1 and keys holding the wildcard are
   * skipped; a failed extraction skips the key and the loop goes on; a key is
   * stored with its entropy pair when either side is positive.
   */
  method GenerateEntropyScores(freq: map<string, nat>, text: string, scorer: ContextScorer)
    returns (scores: map<string, (real, real)>)
    ensures forall w :: w in scores <==> Retained(freq, text, scorer, w)
    ensures forall w :: w in scores ==> scorer(w, text) == Some(scores[w])
  {
    scores := map[];
    var todo := freq.Keys;
    while todo != {}
      invariant todo <= freq.Keys
      invariant forall w :: w in scores <==> w !in todo && Retained(freq, text, scorer, w)
      invariant forall w :: w in scores ==> scorer(w, text) == Some(scores[w])
      decreases todo
    {
      var w :| w in todo;
      todo := todo - {w};
      if |w| == 1 || Wildcard in w {
        continue;
      }
      match scorer(w, text) {
        case None =>
        case Some(pair) =>
          if pair.0 > 0.0 || pair.1 > 0.0 {
            scores := scores[w := pair];
          }
      }
    }
  }
}

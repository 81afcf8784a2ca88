/**
 * The `PMI` facade of wordrank/features/pmi.py. Constructed with a text, it
 * strips the text, counts its n-grams and builds both score tables; without
 * a text (or with an empty one) it takes the tables previously saved, here
 * the parameter `loaded`. Two lookups read the tables with a default.
 */
module ScoreService {
  import opened Wrappers
  import opened Ngrams
  import opened Cohesion
  import opened ContextEntropy
  import opened Whitespace

  /** The two score tables a service owns for its lifetime. */
  datatype Service = Service(pmiTable: map<string, real>, entropyTable: map<string, (real, real)>)

  /** The tables are computed when a text is given and is not the empty string (before stripping). */
  predicate ComputeMode(text: Option<string>)
  {
    text.Some? && |text.value| > 0
  }

  /** The cohesion score of `word`, or 0.0 when it has none. */
  function PmiScore(svc: Service, word: string): (r: real)
    ensures word in svc.pmiTable ==> r == svc.pmiTable[word]
    ensures word !in svc.pmiTable ==> r == 0.0
  {
    if word in svc.pmiTable then svc.pmiTable[word] else 0.0
  }

  /** The (left, right) context entropy of `word`, or (0.0, 0.0) when it has none. */
  function EntropyScore(svc: Service, word: string): (r: (real, real))
    ensures word in svc.entropyTable ==> r == svc.entropyTable[word]
    ensures word !in svc.entropyTable ==> r == (0.0, 0.0)
  {
    if word in svc.entropyTable then svc.entropyTable[word] else (0.0, 0.0)
  }

  /**
   * Builds a service. In compute mode the scored words are exactly the
   * slices of length 2..ngram of the stripped text, each with its cohesion
   * over that text (at least 1), and the entropy table keeps the
   * wildcard-free slices with a positive side. Otherwise the loaded tables
   * are used unchanged.
   */
  method Create(text: Option<string>, ngram: int, scorer: ContextScorer, loaded: Service)
    returns (svc: Service)
    ensures !ComputeMode(text) ==> svc == loaded
    ensures ComputeMode(text) ==>
              forall w :: w in svc.pmiTable <==> 2 <= |w| <= ngram && IsSliceOf(w, Strip(text.value))
    ensures ComputeMode(text) ==>
              forall w :: w in svc.pmiTable ==> IsTextCohesion(Strip(text.value), w, svc.pmiTable[w])
    ensures ComputeMode(text) ==>
              forall w :: w in svc.pmiTable ==> svc.pmiTable[w] >= Occurrences(Strip(text.value), w) as real >= 1.0
    ensures ComputeMode(text) ==>
              forall w :: w in svc.entropyTable <==>
                2 <= |w| <= ngram && IsSliceOf(w, Strip(text.value))
                && Wildcard !in w && HasPositiveSide(scorer(w, Strip(text.value)))
    ensures ComputeMode(text) ==>
              forall w :: w in svc.entropyTable ==> scorer(w, Strip(text.value)) == Some(svc.entropyTable[w])
    ensures ComputeMode(text) ==>
              forall w :: |w| == 1 ==> PmiScore(svc, w) == 0.0 && EntropyScore(svc, w) == (0.0, 0.0)
    ensures ComputeMode(text) && AllSpace(text.value) ==> svc.pmiTable == map[] && svc.entropyTable == map[]
  {
    if text.Some? && |text.value| > 0 {
      var stripped := Strip(text.value);
      var freq := NgramFreq(stripped, ngram);
      NgramScoresOverText(stripped, ngram);
      NgramScoreAtLeastFrequency(stripped, ngram);
      if stripped == [] {
        NgramFreqEmpty(stripped, ngram);
      }
      var pmi := PmiScores(freq).value;
      var entropy := GenerateEntropyScores(freq, stripped, scorer);
      svc := Service(pmi, entropy);
    } else {
      svc := loaded;
    }
  }
}

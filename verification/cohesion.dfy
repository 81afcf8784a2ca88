/**
 * Cohesion ("PMI") scores (`generate_pmi_score` in wordrank/features/pmi.py).
 *
 * For every key `w` longer than one character, the score is the least
 * product freq(w[..i]) * freq(w[i..]) over the splits 0 < i < |w|, divided
 * by freq(w). On an arbitrary table the source raises when a split part is
 * missing (a `None` operand of `*`) or when freq(w) is 0 (division by zero);
 * the model returns `None` in both cases. On a table built by `NgramFreq`
 * neither can happen, and every score is at least the word's own frequency.
 */
module Cohesion {
  import opened Wrappers
  import opened Ngrams

  /** True when some split of `w` has a part that is not a key of `freq`. */
  predicate HasMissingPart(freq: map<string, nat>, w: string)
  {
    exists i :: 0 < i < |w| && (w[..i] !in freq || w[i..] !in freq)
  }

  /** True when the source can score `w` without raising. */
  predicate Scorable(freq: map<string, nat>, w: string)
    requires w in freq
  {
    freq[w] > 0 && !HasMissingPart(freq, w)
  }

  /**
   * `score` is the cohesion of `w` in `freq`: score * freq(w) is at most every
   * split product and equal to one of them.
   */
  ghost predicate IsCohesion(freq: map<string, nat>, w: string, score: real)
  {
    && w in freq && freq[w] > 0
    && (forall i :: 0 < i < |w| ==>
          w[..i] in freq && w[i..] in freq
          && score * freq[w] as real <= (freq[w[..i]] * freq[w[i..]]) as real)
    && (exists i :: 0 < i < |w| && w[..i] in freq && w[i..] in freq
          && score * freq[w] as real == (freq[w[..i]] * freq[w[i..]]) as real)
  }

  /** The product of the frequencies of the two parts of split i, if both are keys. */
  function SplitProduct(freq: map<string, nat>, w: string, i: nat): Option<nat>
    requires i <= |w|
  {
    if w[..i] in freq && w[i..] in freq then Some(freq[w[..i]] * freq[w[i..]]) else None
  }

  /** The least split product over the splits 1..k, or None when one of them has a missing part. */
  function MinSplitUpTo(freq: map<string, nat>, w: string, k: nat): (r: Option<nat>)
    requires 1 <= k < |w|
    ensures r.Some? <==> forall i :: 1 <= i <= k ==> SplitProduct(freq, w, i).Some?
    ensures r.Some? ==> forall i :: 1 <= i <= k ==> r.value <= SplitProduct(freq, w, i).value
    ensures r.Some? ==> exists i :: 1 <= i <= k && SplitProduct(freq, w, i) == r
  {
    if k == 1 then SplitProduct(freq, w, 1)
    else
      match (MinSplitUpTo(freq, w, k - 1), SplitProduct(freq, w, k))
      case (Some(a), Some(b)) => Some(if b < a then b else a)
      case _ => None
  }

  lemma RatioTimesDivisor(p: real, f: real)
    requires f > 0.0
    ensures (p / f) * f == p
  {
  }

  /** When the least split product is undefined, some split has a missing part. */
  lemma MissingSplitPart(freq: map<string, nat>, w: string)
    requires |w| > 1 && MinSplitUpTo(freq, w, |w| - 1).None?
    ensures HasMissingPart(freq, w)
  {
    var i :| 1 <= i <= |w| - 1 && SplitProduct(freq, w, i).None?;
    assert 0 < i < |w| && (w[..i] !in freq || w[i..] !in freq);
  }

  /** A defined least split product bounds every split product from below. */
  lemma MinSplitBelowAll(freq: map<string, nat>, w: string, p: nat)
    requires |w| > 1 && MinSplitUpTo(freq, w, |w| - 1) == Some(p)
    ensures forall i :: 0 < i < |w| ==>
              w[..i] in freq && w[i..] in freq && p <= freq[w[..i]] * freq[w[i..]]
  {
    forall i | 0 < i < |w|
      ensures w[..i] in freq && w[i..] in freq && p <= freq[w[..i]] * freq[w[i..]]
    {
      var v := SplitProduct(freq, w, i);
      assert v.Some? && p <= v.value;
    }
  }

  /** The least split product divided by a non-zero frequency is the cohesion. */
  lemma MinSplitCohesion(freq: map<string, nat>, w: string, p: nat)
    requires w in freq && |w| > 1 && freq[w] > 0
    requires MinSplitUpTo(freq, w, |w| - 1) == Some(p)
    ensures !HasMissingPart(freq, w)
    ensures IsCohesion(freq, w, p as real / freq[w] as real)
  {
    MinSplitBelowAll(freq, w, p);
    var j :| 1 <= j <= |w| - 1 && SplitProduct(freq, w, j) == Some(p);
    QuotientIsCohesion(freq, w, p, j);
  }

  /** The least split product divided by the frequency is the cohesion. */
  lemma QuotientIsCohesion(freq: map<string, nat>, w: string, p: nat, j: nat)
    requires w in freq && freq[w] > 0
    requires forall i :: 0 < i < |w| ==>
               w[..i] in freq && w[i..] in freq && p <= freq[w[..i]] * freq[w[i..]]
    requires 0 < j < |w| && w[..j] in freq && w[j..] in freq && p == freq[w[..j]] * freq[w[j..]]
    ensures IsCohesion(freq, w, p as real / freq[w] as real)
  {
    var score := p as real / freq[w] as real;
    RatioTimesDivisor(p as real, freq[w] as real);
    forall i | 0 < i < |w|
      ensures score * freq[w] as real <= (freq[w[..i]] * freq[w[i..]]) as real
    {
      var q := freq[w[..i]] * freq[w[i..]];
      assert p as real <= q as real;
    }
    assert score * freq[w] as real == (freq[w[..j]] * freq[w[j..]]) as real;
  }

  /** Score of one key longer than one character; None when the source would raise. */
  function WordScore(freq: map<string, nat>, w: string): (r: Option<real>)
    requires w in freq && |w| > 1
    ensures r.Some? <==> Scorable(freq, w)
    ensures r.Some? ==> IsCohesion(freq, w, r.value)
  {
    match MinSplitUpTo(freq, w, |w| - 1)
    case None =>
      MissingSplitPart(freq, w);
      None
    case Some(p) =>
      if freq[w] == 0 then None
      else
        MinSplitCohesion(freq, w, p);
        Some(p as real / freq[w] as real)
  }

  /**
   * The cohesion table of `freq`: one entry per key longer than one
   * character, or None when some such key cannot be scored.
   */
  function PmiScores(freq: map<string, nat>): (r: Option<map<string, real>>)
    ensures r.None? <==> exists w :: w in freq && |w| > 1 && (freq[w] == 0 || HasMissingPart(freq, w))
    ensures r.Some? ==> forall w :: w in r.value <==> w in freq && |w| > 1
    ensures r.Some? ==> forall w :: w in r.value ==> IsCohesion(freq, w, r.value[w])
  {
    if forall w :: w in freq && |w| > 1 ==> WordScore(freq, w).Some?
    then Some(map w | w in freq && |w| > 1 :: WordScore(freq, w).value)
    else None
  }

  /**
   * In a table built by `NgramFreq`, both parts of every split of a key are
   * keys, and each occurs at least as often as the key itself.
   */
  lemma NgramSplitsPresent(text: string, n: int, w: string, i: nat)
    requires w in NgramFreq(text, n) && 0 < i < |w|
    ensures w[..i] in NgramFreq(text, n) && w[i..] in NgramFreq(text, n)
    ensures NgramFreq(text, n)[w[..i]] >= NgramFreq(text, n)[w]
    ensures NgramFreq(text, n)[w[i..]] >= NgramFreq(text, n)[w]
  {
    var freq := NgramFreq(text, n);
    var pre, suf := w[..i], w[i..];
    assert 1 <= |w| <= n && freq[w] == Occurrences(text, w) >= 1;
    PartOccurrences(text, w, i);
    OccurrencesPositive(text, pre);
    OccurrencesPositive(text, suf);
    assert 1 <= |pre| <= n && IsSliceOf(pre, text);
    assert 1 <= |suf| <= n && IsSliceOf(suf, text);
    assert freq[pre] == Occurrences(text, pre) && freq[suf] == Occurrences(text, suf);
  }

  /** Scoring a table built by `NgramFreq` never fails. */
  lemma NgramScoresDefined(text: string, n: int)
    ensures PmiScores(NgramFreq(text, n)).Some?
  {
    var freq := NgramFreq(text, n);
    forall w | w in freq && |w| > 1
      ensures freq[w] > 0 && !HasMissingPart(freq, w)
    {
      forall i | 0 < i < |w|
        ensures w[..i] in freq && w[i..] in freq
      {
        NgramSplitsPresent(text, n, w, i);
      }
    }
  }

  /** If score * f equals a product of two factors each at least f > 0, then score >= f. */
  lemma ScoreBound(score: real, a: nat, b: nat, f: nat)
    requires 0 < f <= a && f <= b
    requires score * f as real == (a * b) as real
    ensures score >= f as real
  {
    assert a * b >= f * b >= f * f;
  }

  /** A split at which the cohesion score attains its minimum. */
  lemma CohesionWitness(freq: map<string, nat>, w: string, score: real) returns (i: nat)
    requires IsCohesion(freq, w, score)
    ensures w in freq && 0 < i < |w| && w[..i] in freq && w[i..] in freq
    ensures score * freq[w] as real == (freq[w[..i]] * freq[w[i..]]) as real
  {
    i :| 0 < i < |w| && w[..i] in freq && w[i..] in freq
      && score * freq[w] as real == (freq[w[..i]] * freq[w[i..]]) as real;
  }

  /** A score equal to split i's product over the key's frequency is at least that frequency when both parts are at least as frequent. */
  lemma SplitRatioBound(freq: map<string, nat>, w: string, i: nat, score: real)
    requires w in freq && 0 < i < |w| && w[..i] in freq && w[i..] in freq
    requires 0 < freq[w] <= freq[w[..i]] && freq[w] <= freq[w[i..]]
    requires score * freq[w] as real == (freq[w[..i]] * freq[w[i..]]) as real
    ensures score >= freq[w] as real
  {
    ScoreBound(score, freq[w[..i]], freq[w[i..]], freq[w]);
  }

  /** A cohesion score is at least the key's frequency when every split part occurs at least as often as the key. */
  lemma CohesionAtLeastFrequency(freq: map<string, nat>, w: string, score: real)
    requires IsCohesion(freq, w, score)
    requires forall i :: 0 < i < |w| ==> freq[w[..i]] >= freq[w] && freq[w[i..]] >= freq[w]
    ensures score >= freq[w] as real
  {
    var i := CohesionWitness(freq, w, score);
    SplitRatioBound(freq, w, i, score);
  }

  /** On a table built by `NgramFreq`, every score is at least the word's frequency, hence at least 1. */
  lemma NgramScoreAtLeastFrequency(text: string, n: int)
    ensures PmiScores(NgramFreq(text, n)).Some?
    ensures forall w :: w in PmiScores(NgramFreq(text, n)).value ==>
              PmiScores(NgramFreq(text, n)).value[w] >= NgramFreq(text, n)[w] as real >= 1.0
  {
    var freq := NgramFreq(text, n);
    NgramScoresDefined(text, n);
    var scores := PmiScores(freq).value;
    forall w | w in scores
      ensures scores[w] >= freq[w] as real >= 1.0
    {
      forall i | 0 < i < |w|
        ensures freq[w[..i]] >= freq[w] && freq[w[i..]] >= freq[w]
      {
        NgramSplitsPresent(text, n, w, i);
      }
      CohesionAtLeastFrequency(freq, w, scores[w]);
    }
  }

  /**
   * `score` is the cohesion of `w` read directly off `text`: score times the
   * number of occurrences of `w` is the least, over the splits of `w`, of
   * the product of the numbers of occurrences of the two parts.
   */
  ghost predicate IsTextCohesion(text: string, w: string, score: real)
  {
    && (forall i :: 0 < i < |w| ==>
          score * Occurrences(text, w) as real
          <= (Occurrences(text, w[..i]) * Occurrences(text, w[i..])) as real)
    && (exists i :: 0 < i < |w|
          && score * Occurrences(text, w) as real
             == (Occurrences(text, w[..i]) * Occurrences(text, w[i..])) as real)
  }

  /** Cohesion in a table whose counts are the occurrence counts of `text` is cohesion over `text`. */
  lemma CohesionOverText(freq: map<string, nat>, text: string, w: string, score: real)
    requires IsCohesion(freq, w, score)
    requires forall s :: s in freq ==> freq[s] == Occurrences(text, s)
    ensures IsTextCohesion(text, w, score)
  {
    var i :| 0 < i < |w| && w[..i] in freq && w[i..] in freq
      && score * freq[w] as real == (freq[w[..i]] * freq[w[i..]]) as real;
    assert score * Occurrences(text, w) as real
        == (Occurrences(text, w[..i]) * Occurrences(text, w[i..])) as real;
  }

  /**
   * End to end: scoring the n-gram table of `text` gives, for each slice `w`
   * with 2 <= |w| <= n, the least split product of occurrence counts divided
   * by the occurrence count of `w`; and nothing else.
   */
  lemma NgramScoresOverText(text: string, n: int)
    ensures PmiScores(NgramFreq(text, n)).Some?
    ensures forall w :: w in PmiScores(NgramFreq(text, n)).value <==> 2 <= |w| <= n && IsSliceOf(w, text)
    ensures forall w :: w in PmiScores(NgramFreq(text, n)).value ==>
              IsTextCohesion(text, w, PmiScores(NgramFreq(text, n)).value[w])
  {
    var freq := NgramFreq(text, n);
    NgramScoresDefined(text, n);
    var scores := PmiScores(freq).value;
    forall w | w in scores
      ensures IsTextCohesion(text, w, scores[w])
    {
      CohesionOverText(freq, text, w, scores[w]);
    }
  }
}

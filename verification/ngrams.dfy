/**
 * N-gram frequency counting (`ngram_freq` in wordrank/features/pmi.py).
 *
 * The source builds the list of every window `text[j:j+i]` for window
 * lengths i = 1..n, in that order, and hands it to a `Counter`. The model
 * does the same (`AllWindows`, then `Tally`) and proves what the resulting
 * table means: its keys are exactly the slices of length 1..n, and each
 * count is the number of start positions of that slice, overlaps included.
 */
module Ngrams {

  /** True when `s` occurs in `text` starting at position `j`. */
  predicate MatchesAt(text: string, s: string, j: nat)
  {
    j + |s| <= |text| && text[j..j + |s|] == s
  }

  /** True when `s` is a contiguous slice of `text`. */
  predicate IsSliceOf(s: string, text: string)
  {
    exists j: nat :: j <= |text| && MatchesAt(text, s, j)
  }

  /** Number of start positions j < k at which `s` occurs in `text`. */
  function StartCount(text: string, s: string, k: nat): nat
  {
    if k == 0 then 0
    else StartCount(text, s, k - 1) + (if MatchesAt(text, s, k - 1) then 1 else 0)
  }

  /** Number of positions at which `s` occurs in `text`, overlapping occurrences included. */
  function Occurrences(text: string, s: string): nat
  {
    StartCount(text, s, |text| + 1)
  }

  /** `StartCount` is the size of the set of matching start positions. */
  lemma {:induction false} StartCountIsPositionCount(text: string, s: string, k: nat)
    ensures StartCount(text, s, k) == |set j: nat | j < k && MatchesAt(text, s, j)|
  {
    var all := set j: nat | j < k && MatchesAt(text, s, j);
    if k == 0 {
      assert all == {};
    } else {
      StartCountIsPositionCount(text, s, k - 1);
      var prev := set j: nat | j < k - 1 && MatchesAt(text, s, j);
      if MatchesAt(text, s, k - 1) {
        assert all == prev + {k - 1};
        assert k - 1 !in prev;
        assert |prev + {k - 1}| == |prev| + 1;
      } else {
        assert all == prev;
      }
    }
  }

  /** The count of `s` is the number of positions where it occurs in `text`. */
  lemma OccurrencesArePositions(text: string, s: string)
    ensures Occurrences(text, s) == |set j: nat | j <= |text| && MatchesAt(text, s, j)|
  {
    StartCountIsPositionCount(text, s, |text| + 1);
    assert (set j: nat | j < |text| + 1 && MatchesAt(text, s, j))
        == (set j: nat | j <= |text| && MatchesAt(text, s, j));
  }

  lemma {:induction false} StartCountPositive(text: string, s: string, k: nat)
    ensures StartCount(text, s, k) > 0 <==> exists j: nat :: j < k && MatchesAt(text, s, j)
  {
    if k > 0 {
      StartCountPositive(text, s, k - 1);
      if (exists j: nat :: j < k && MatchesAt(text, s, j)) && !MatchesAt(text, s, k - 1) {
        var j: nat :| j < k && MatchesAt(text, s, j);
        assert j < k - 1;
      }
    }
  }

  /** A string occurs at least once exactly when it is a slice of the text. */
  lemma OccurrencesPositive(text: string, s: string)
    ensures Occurrences(text, s) > 0 <==> IsSliceOf(s, text)
  {
    StartCountPositive(text, s, |text| + 1);
  }

  /** Positions past |text| - |s| never match, so counting stops changing there. */
  lemma {:induction false} StartCountStable(text: string, s: string, k: nat, k': nat)
    requires |text| - |s| < k <= k'
    ensures StartCount(text, s, k') == StartCount(text, s, k)
    decreases k'
  {
    if k' > k {
      StartCountStable(text, s, k, k' - 1);
      assert !MatchesAt(text, s, k' - 1);
    }
  }

  /**
   * When every occurrence of `a` at j yields an occurrence of `b` at j + d,
   * `b` has at least as many start positions (shifted by d).
   */
  lemma {:induction false} StartCountShift(text: string, a: string, b: string, d: nat, k: nat)
    requires forall j: nat :: j < k && MatchesAt(text, a, j) ==> MatchesAt(text, b, j + d)
    ensures StartCount(text, a, k) <= StartCount(text, b, k + d)
  {
    if k > 0 {
      StartCountShift(text, a, b, d, k - 1);
    }
  }

  /** A prefix or suffix of `w` occurs at least as often as `w` itself. */
  lemma PartOccurrences(text: string, w: string, i: nat)
    requires 0 < i < |w|
    ensures Occurrences(text, w[..i]) >= Occurrences(text, w)
    ensures Occurrences(text, w[i..]) >= Occurrences(text, w)
  {
    var k := |text| + 1;
    forall j: nat | j < k && MatchesAt(text, w, j)
      ensures MatchesAt(text, w[..i], j + 0)
    {
      assert text[j..j + i] == text[j..j + |w|][..i];
    }
    StartCountShift(text, w, w[..i], 0, k);
    forall j: nat | j < k && MatchesAt(text, w, j)
      ensures MatchesAt(text, w[i..], j + i)
    {
      assert text[j + i..j + i + |w[i..]|] == text[j..j + |w|][i..];
    }
    StartCountShift(text, w, w[i..], i, k);
    StartCountStable(text, w[i..], k, k + i);
  }

  /** The windows `text[j..j+i]` for j < k, in increasing order of j. */
  function WindowsBelow(text: string, i: nat, k: nat): seq<string>
    requires k + i <= |text| + 1
  {
    if k == 0 then [] else WindowsBelow(text, i, k - 1) + [text[k - 1..k - 1 + i]]
  }

  /** Every window of length i; there are |text| - i + 1 of them, or none when i > |text|. */
  function LengthWindows(text: string, i: nat): seq<string>
  {
    if i <= |text| then WindowsBelow(text, i, |text| - i + 1) else []
  }

  /** The list of windows of length 1, then 2, ..., then n; empty when n < 1. */
  function AllWindows(text: string, n: int): seq<string>
    decreases n
  {
    if n < 1 then [] else AllWindows(text, n - 1) + LengthWindows(text, n)
  }

  /** A counter over a list: each distinct element mapped to its number of occurrences. */
  function Tally(words: seq<string>): (m: map<string, nat>)
    ensures forall w :: w in m <==> w in words
    ensures forall w :: w in m ==> m[w] == multiset(words)[w]
  {
    if words == [] then map[]
    else
      var init := words[..|words| - 1];
      var x := words[|words| - 1];
      assert words == init + [x];
      var m := Tally(init);
      m[x := if x in m then m[x] + 1 else 1]
  }

  /** Appending `x` adds one to the multiplicity of `x` and leaves the others unchanged. */
  lemma MultiplicityAppend(a: seq<string>, x: string, s: string)
    ensures multiset(a + [x])[s] == multiset(a)[s] + (if x == s then 1 else 0)
  {
  }

  /** The window of length i at j equals `s` exactly when `s` has length i and occurs at j. */
  lemma WindowIsMatch(text: string, i: nat, j: nat, s: string)
    requires j + i <= |text|
    ensures text[j..j + i] == s <==> |s| == i && MatchesAt(text, s, j)
  {
  }

  lemma {:induction false} WindowsBelowCount(text: string, i: nat, k: nat, s: string)
    requires k + i <= |text| + 1
    ensures multiset(WindowsBelow(text, i, k))[s] == if |s| == i then StartCount(text, s, k) else 0
  {
    if k > 0 {
      WindowsBelowCount(text, i, k - 1, s);
      MultiplicityAppend(WindowsBelow(text, i, k - 1), text[k - 1..k - 1 + i], s);
      WindowIsMatch(text, i, k - 1, s);
    }
  }

  lemma LengthWindowsCount(text: string, i: nat, s: string)
    ensures multiset(LengthWindows(text, i))[s] == if |s| == i then Occurrences(text, s) else 0
  {
    if i <= |text| {
      WindowsBelowCount(text, i, |text| - i + 1, s);
      if |s| == i {
        StartCountStable(text, s, |text| - i + 1, |text| + 1);
      }
    } else if |s| == i {
      StartCountStable(text, s, 0, |text| + 1);
    }
  }

  lemma {:induction false} AllWindowsCount(text: string, n: int, s: string)
    ensures multiset(AllWindows(text, n))[s] == if 1 <= |s| <= n then Occurrences(text, s) else 0
    decreases n
  {
    if n >= 1 {
      AllWindowsCount(text, n - 1, s);
      LengthWindowsCount(text, n, s);
    }
  }

  /** Membership and count of one string in the counter over all windows. */
  lemma WindowTallyAt(text: string, n: int, s: string)
    ensures s in Tally(AllWindows(text, n)) <==> 1 <= |s| <= n && IsSliceOf(s, text)
    ensures s in Tally(AllWindows(text, n)) ==> Tally(AllWindows(text, n))[s] == Occurrences(text, s) >= 1
  {
    AllWindowsCount(text, n, s);
    OccurrencesPositive(text, s);
  }

  lemma WindowTally(text: string, n: int)
    ensures forall s :: s in Tally(AllWindows(text, n)) <==> 1 <= |s| <= n && IsSliceOf(s, text)
    ensures forall s :: s in Tally(AllWindows(text, n)) ==> Tally(AllWindows(text, n))[s] == Occurrences(text, s) >= 1
  {
    forall s
      ensures s in Tally(AllWindows(text, n)) <==> 1 <= |s| <= n && IsSliceOf(s, text)
      ensures s in Tally(AllWindows(text, n)) ==> Tally(AllWindows(text, n))[s] == Occurrences(text, s) >= 1
    {
      WindowTallyAt(text, n, s);
    }
  }

  /**
   * The frequency table of `text`: its keys are exactly the slices of length
   * 1..n, and each count is the number of (possibly overlapping)
   * occurrences, hence at least 1.
   */
  function NgramFreq(text: string, n: int): (freq: map<string, nat>)
    ensures forall s :: s in freq <==> 1 <= |s| <= n && IsSliceOf(s, text)
    ensures forall s :: s in freq ==> freq[s] == Occurrences(text, s) >= 1
  {
    WindowTally(text, n);
    Tally(AllWindows(text, n))
  }

  /** An empty text, or a maximum length below 1, gives an empty table. */
  lemma NgramFreqEmpty(text: string, n: int)
    requires |text| == 0 || n < 1
    ensures NgramFreq(text, n) == map[]
  {
    assert NgramFreq(text, n).Keys == {};
  }

  /** No two positions of `ks` hold the same string. */
  predicate Distinct(ks: seq<string>)
  {
    forall a, b :: 0 <= a < b < |ks| ==> ks[a] != ks[b]
  }

  /** Sum of the counts stored under the keys listed in `ks` (0 for an absent key). */
  function SumCounts(freq: map<string, nat>, ks: seq<string>): nat
  {
    if ks == [] then 0
    else (if ks[0] in freq then freq[ks[0]] else 0) + SumCounts(freq, ks[1..])
  }

  /** Number of elements of `words` whose length is i. */
  function CountOfLength(words: seq<string>, i: nat): nat
  {
    if words == [] then 0
    else CountOfLength(words[..|words| - 1], i) + (if |words[|words| - 1]| == i then 1 else 0)
  }

  lemma {:induction false} SumCountsEmpty(ks: seq<string>)
    ensures SumCounts(map[], ks) == 0
  {
    if ks != [] {
      SumCountsEmpty(ks[1..]);
    }
  }

  lemma {:induction false} SumCountsUnaffected(freq: map<string, nat>, ks: seq<string>, x: string, v: nat)
    requires x !in ks
    ensures SumCounts(freq[x := v], ks) == SumCounts(freq, ks)
  {
    if ks != [] {
      SumCountsUnaffected(freq, ks[1..], x, v);
    }
  }

  /** Adding one to the count of `x` adds one to the sum exactly when `x` is listed. */
  lemma {:induction false} SumCountsBump(freq: map<string, nat>, ks: seq<string>, x: string)
    requires Distinct(ks)
    ensures SumCounts(freq[x := if x in freq then freq[x] + 1 else 1], ks)
         == SumCounts(freq, ks) + (if x in ks then 1 else 0)
  {
    var bumped := freq[x := if x in freq then freq[x] + 1 else 1];
    if ks != [] {
      if ks[0] == x {
        assert x !in ks[1..] by {
          forall p | 0 <= p < |ks[1..]|
            ensures ks[1..][p] != x
          {
            assert ks[1..][p] == ks[p + 1];
          }
        }
        SumCountsUnaffected(freq, ks[1..], x, bumped[x]);
      } else {
        assert Distinct(ks[1..]) by {
          forall a, b | 0 <= a < b < |ks[1..]|
            ensures ks[1..][a] != ks[1..][b]
          {
            assert ks[1..][a] == ks[a + 1] && ks[1..][b] == ks[b + 1];
          }
        }
        SumCountsBump(freq, ks[1..], x);
        assert x in ks <==> x in ks[1..] by {
          assert ks == [ks[0]] + ks[1..];
        }
      }
    }
  }

  /**
   * Summing a counter over a duplicate-free list `ks` of exactly the length-i
   * elements gives the number of length-i elements of the counted list.
   */
  lemma {:induction false} TallyLengthTotal(words: seq<string>, ks: seq<string>, i: nat)
    requires Distinct(ks)
    requires forall w :: w in words ==> (|w| == i <==> w in ks)
    ensures SumCounts(Tally(words), ks) == CountOfLength(words, i)
    decreases |words|
  {
    if words == [] {
      SumCountsEmpty(ks);
    } else {
      var init := words[..|words| - 1];
      var x := words[|words| - 1];
      assert words == init + [x];
      TallyLengthTotal(init, ks, i);
      SumCountsBump(Tally(init), ks, x);
    }
  }

  lemma {:induction false} CountOfLengthAppend(a: seq<string>, b: seq<string>, i: nat)
    ensures CountOfLength(a + b, i) == CountOfLength(a, i) + CountOfLength(b, i)
    decreases |b|
  {
    if b != [] {
      CountOfLengthAppend(a, b[..|b| - 1], i);
      assert (a + b)[..|a + b| - 1] == a + b[..|b| - 1];
    } else {
      assert a + b == a;
    }
  }

  lemma {:induction false} WindowsBelowLengths(text: string, i: nat, k: nat, len: nat)
    requires k + i <= |text| + 1
    ensures CountOfLength(WindowsBelow(text, i, k), len) == if i == len then k else 0
  {
    if k > 0 {
      WindowsBelowLengths(text, i, k - 1, len);
      var ws := WindowsBelow(text, i, k);
      assert ws[..|ws| - 1] == WindowsBelow(text, i, k - 1);
    }
  }

  lemma {:induction false} AllWindowsLengths(text: string, n: int, i: nat)
    requires 1 <= i
    ensures CountOfLength(AllWindows(text, n), i) == if i <= n && i <= |text| then |text| - i + 1 else 0
    decreases n
  {
    if n >= 1 {
      AllWindowsLengths(text, n - 1, i);
      CountOfLengthAppend(AllWindows(text, n - 1), LengthWindows(text, n), i);
      if n <= |text| {
        WindowsBelowLengths(text, n, |text| - n + 1, i);
      }
    }
  }

  /**
   * For every length i in 1..n, the counts of the keys of length i add up to
   * the number of windows of that length: |text| - i + 1, or 0 when i > |text|.
   * `ks` is any duplicate-free listing of those keys.
   */
  lemma NgramFreqLengthTotal(text: string, n: int, i: nat, ks: seq<string>)
    requires 1 <= i <= n
    requires Distinct(ks)
    requires forall s :: s in ks <==> s in NgramFreq(text, n) && |s| == i
    ensures SumCounts(NgramFreq(text, n), ks) == if i <= |text| then |text| - i + 1 else 0
  {
    var words := AllWindows(text, n);
    TallyLengthTotal(words, ks, i);
    AllWindowsLengths(text, n, i);
  }
}

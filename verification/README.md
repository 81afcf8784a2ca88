# N-gram cohesion scoring, modelled in Dafny

This project models the scoring engine of `wordrank/features/pmi.py`, the
unsupervised new-word discovery features of *wordrank*:

- **n-gram counting** (`ngram_freq`): every contiguous substring of length
  1..N of a text is counted, overlapping windows included;
- **cohesion ("PMI") scores** (`generate_pmi_score`): for each counted string
  longer than one character, the least product of the frequencies of a
  prefix and the complementary suffix, divided by the string's own frequency;
- **the candidate filter of the context-entropy scores**
  (`generate_entropy_score`), with the regex-and-entropy step as a parameter;
- **the `PMI` facade**: choice between computing the tables from a text and
  taking previously saved ones, and the two lookups with their defaults.

Modules: `Ngrams` (ngrams.dfy), `Cohesion` (cohesion.dfy), `ContextEntropy`
(context_entropy.dfy), `Whitespace` (whitespace.dfy, Python's `str.strip`),
`ScoreService` (score_service.dfy) and `Wrappers` (wrappers.dfy, `Option`).

The frequency table is built as the source builds it: the list of all
windows (`AllWindows`), then a counter over it (`Tally`). It is related to
an independent reference, `Occurrences(text, s)`, the number of start
positions where `s` occurs in `text`. Scores are Dafny `real`s: the integer
minimum product divided by the integer frequency. A table that the source
cannot score (a split part missing, so `None * int` raises, or a zero
frequency, so the division raises) gives `None`.

Two details of the code shape the model:

- The compute-mode test is `len(text) > 0`, made before `strip()`
  (wordrank/features/pmi.py:106-108). A whitespace-only text therefore
  enters compute mode and yields two empty tables. `ScoreService.Create`
  states this.
- `generate_entropy_score` skips only keys of length exactly 1
  (wordrank/features/pmi.py:76), so an empty key of an arbitrary table would
  be scored. `ContextEntropy.GenerateEntropyScores` uses `|w| != 1`. Tables
  built by `NgramFreq` have no empty key, so `ScoreService.Create` states the
  result as lengths 2..N.

## Model

| member | source | states |
|---|---|---|
| `Ngrams.Tally` | wordrank/features/pmi.py:31 | The counter's keys are exactly the elements of the list, and each value is that element's multiplicity in the list. |
| `Ngrams.OccurrencesArePositions` | wordrank/features/pmi.py:30 | The reference count of `s` equals the size of the set of positions `j` with `text[j..j+|s|] == s`. |
| `Ngrams.OccurrencesPositive` | wordrank/features/pmi.py:30 | A string occurs at least once exactly when it is a contiguous slice of the text. |
| `Ngrams.PartOccurrences` | wordrank/features/pmi.py:30 | A prefix or a suffix of `w` occurs at least as often as `w`: each occurrence of `w` at `j` gives one of the prefix at `j` and one of the suffix at `j + i`. |
| `Ngrams.NgramFreq` | wordrank/features/pmi.py:21-32 | The table's keys are exactly the contiguous slices of the text whose length is in 1..n. Each key's count is its number of start positions in the text, overlaps included, and is at least 1. |
| `Ngrams.NgramFreqEmpty` | wordrank/features/pmi.py:29-31 | An empty text, or n < 1, gives the empty table. |
| `Ngrams.NgramFreqLengthTotal` | wordrank/features/pmi.py:29-31 | For each length i in 1..n, the counts of the keys of length i sum to len(text) - i + 1, or to 0 when i exceeds the text length. |
| `Cohesion.MinSplitUpTo` | wordrank/features/pmi.py:44 | Over the splits 1..k: `None` exactly when some split has a part missing from the table; otherwise a value no larger than any split product and equal to one of them. |
| `Cohesion.WordScore` | wordrank/features/pmi.py:44-45 | A word is scored exactly when its frequency is non-zero and every split part is a key; the score times the frequency is the least split product. |
| `Cohesion.PmiScores` | wordrank/features/pmi.py:41-46 | The table fails exactly when some key longer than one character has frequency 0 or a missing split part; otherwise its keys are exactly the input keys longer than one character, each with its cohesion. |
| `Cohesion.NgramSplitsPresent` | wordrank/features/pmi.py:44 | On an n-gram table, both parts of every split of a key are keys, and each is at least as frequent as the key. |
| `Cohesion.NgramScoresDefined` | wordrank/features/pmi.py:41-46 | Scoring an n-gram table never fails. |
| `Cohesion.NgramScoreAtLeastFrequency` | wordrank/features/pmi.py:44-45 | On an n-gram table, every score is at least the word's frequency, hence at least 1. |
| `Cohesion.NgramScoresOverText` | wordrank/features/pmi.py:41-46 | End to end: the scored words are exactly the slices of length 2..n, and each score is the least product of the occurrence counts of a prefix and its suffix, divided by the word's occurrence count. |
| `ContextEntropy.GenerateEntropyScores` | wordrank/features/pmi.py:74-91 | The entropy table keeps exactly the keys not of length 1, without `*`, whose context extraction succeeds with a positive left or right entropy, each stored with that pair. |
| `Whitespace.Strip` | wordrank/features/pmi.py:108 | The result starts right after the longest whitespace prefix, and only whitespace follows it. It neither starts nor ends with whitespace, and it is empty exactly when the text is all whitespace. Whitespace is Python's `str.isspace` set. |
| `ScoreService.Create` | wordrank/features/pmi.py:106-115 | Compute mode exactly when a text of non-zero length is given. Then the cohesion table holds exactly the slices of length 2..ngram of the stripped text, each with its cohesion (at least 1), and single characters get 0.0 from both lookups. A whitespace-only text gives empty tables. Otherwise the loaded tables are kept unchanged. |
| `ScoreService.PmiScore` | wordrank/features/pmi.py:117-123 | Returns the stored score, or 0.0 for a word with no entry. |
| `ScoreService.EntropyScore` | wordrank/features/pmi.py:125-131 | Returns the stored (left, right) pair, or (0.0, 0.0) for a word with no entry. |

## Left out

- `entropy_score` (wordrank/features/pmi.py:53-63): Shannon entropy over floats, computed with numpy `log2`. It is inside the `scorer` parameter.
- Context extraction in `generate_entropy_score` (wordrank/features/pmi.py:82-87): the unescaped pattern `'(.)%s(.)'` and its Python `re` semantics. This covers non-overlapping `findall`, `.` not matching a newline, and metacharacters in the word. It is the `scorer` parameter. An exception caught at lines 90-91 is `None` from `scorer`.
- Logging (`logger.info`, `logger.error`, `logger.debug`): output only.
- Persistence: `save_json` at lines 47-49 and 92-94, and `load_json` at lines 113-114. These are file I/O. The load-mode tables are the `loaded` parameter of `ScoreService.Create`, and the save paths are not modelled.
- `config.pmi_path` / `config.entropy_path` defaults and the default `ngram=4`: configuration, not behaviour.
- Cohesion.WordScore: the score is the exact quotient of two integers. Python's `/` rounds that quotient to the nearest double, and the model does not.
- Cohesion.PmiScores: for a table it cannot score, the result is `None`. It does not say which exception the source raises first, because that depends on the dict's iteration order.
- Cohesion.PmiScores: input values are natural numbers (counts). The source accepts any numbers in the dict.
- The input table of `generate_pmi_score` is not modified, and neither lookup changes the tables. Both hold by construction, since every Dafny value here is immutable.

# Length-controlled generation benchmark: scoring and trial planning

This project models, in Dafny, the pure core of `evaluate.py`. That script
benchmarks a text generator. For every document of a metadata table, it asks
the generator to rewrite the text at length factors 0.25, 0.5 and 0.75, each
once with operation `'longer'` and once with `'shorter'`. It then scores each
generated text against the original and collects one result row per trial.

The model covers:

- **Tokenisation** (`text.dfy`, module `Text`). Python's argument-less
  `str.split()` is modelled over `seq<char>`, with Python's Unicode whitespace
  set. Its inverse on word lists is `" ".join`.
- **Levenshtein similarity** (`levenshtein.dfy`). This is
  `1 - edit_distance(a, b) / max(len(a), len(b))`. The library's
  `edit_distance` is called with its defaults, so it is plain character
  Levenshtein distance. The model gives it as a recursive definition over
  prefixes, plus the two-row dynamic-programming table proved equal to it.
- **Jaccard similarity** (`jaccard.dfy`). This is `|A ∩ B| / |A ∪ B|` over
  the whitespace-token sets.
- **Euclidean distance of token counts** (`euclidean.dfy`). This is kept
  squared: the sum, over the union of both key sets, of the squared
  differences of the `Counter` counts.
- **Target length** (`prompt.dfy`, module `Prompting`). This is the word
  budget `generate_prompt` computes.
- **Driver** (`evaluation.dfy`). It covers the document × factor × operation
  enumeration, the per-trial row, and the all-or-nothing run. A
  `ZeroDivisionError` in either similarity aborts the run, so no table is
  written. The TF-IDF and KL-divergence scores, and the errors they can
  raise, are not modelled (see "Left out").
- **Quotients** (`ratio.dfy`). The quotient of two counts is shared by both
  similarities.

Python floats are modelled as exact `real`s. The three factors are exact
binary fractions. For any realistic word count, the float product or quotient
has the same floor as the exact one, so `int(...)` agrees with `.Floor`.

The generator is a parameter: an arbitrary total function from a prompt and
a `max_length` to a string. A prompt is represented by the triple it is
rendered from: text, factor and operation. Since the generator is arbitrary,
every property of the driver holds whether or not the generator echoes the
prompt back.

The model follows the code of `evaluate.py` as written:

- The target length is `int(n * f)` or `int(n / f)`, which truncates; for
  these non-negative values that is the floor.
- Nothing guards against a blank document and a blank generated text. Their
  division by zero at line 15 or line 24 raises `ZeroDivisionError`, which
  aborts the whole run. `Evaluation.RunTrial` returns that error, and
  `Evaluation.Evaluate` propagates the first one.
- `'longer'` multiplies the word count by a factor of at most one. So its
  target never exceeds the original count, and `'shorter'` never goes below
  it (`Prompting.TargetLengthBounds`).

## Model

| member | source | states |
|---|---|---|
| `Text.Split` | evaluate.py:20-21 | every token `str.split()` produces is non-empty and contains no whitespace character |
| `Text.SplitKeepsContent` | evaluate.py:20 | the tokens, concatenated in order, are exactly the non-whitespace characters of the input: nothing is lost, invented or reordered |
| `Text.SplitEmptyIff` | evaluate.py:20-21 | a string has no tokens if and only if it is empty or made only of whitespace |
| `Text.SplitSpaceRun` | evaluate.py:20-21 | a run of whitespace of any length in front of a string adds no token and changes none |
| `Text.SplitInterleave` | evaluate.py:20-21 | words laid out with whitespace runs of any length between them (and any whitespace before and after) split back into exactly those words, in order: each maximal whitespace-free run is one token |
| `Text.WordCount` | evaluate.py:55 | `len(text.split())` is 0 exactly when the text is empty or all whitespace |
| `Text.SplitJoin` | evaluate.py:20 | splitting a space-joined list of words returns that exact list (round trip with `" ".join`) |
| `Levenshtein.Distance` | evaluate.py:15 | cell (i, j) of the edit-distance table, the distance between the first i characters of a and the first j of b, is at least the difference of i and j |
| `Levenshtein.EditDistance` | evaluate.py:15 | the Levenshtein distance is at least the difference of the two lengths |
| `Levenshtein.EditDistanceTable` | evaluate.py:15 | the row-by-row table computation of `edit_distance` returns the recursive Levenshtein distance for every pair of strings |
| `Levenshtein.NextRow` | evaluate.py:15 | from row i−1 of the table (the distances of the first i−1 characters of a to every prefix of b), produces row i |
| `Levenshtein.EditDistanceSelf` | evaluate.py:15 | a string is at edit distance 0 from itself |
| `Levenshtein.EditDistanceZero` | evaluate.py:15 | edit distance 0 implies the two strings are equal |
| `Levenshtein.EditDistanceSymmetric` | evaluate.py:15 | the edit distance from a to b equals the distance from b to a |
| `Levenshtein.EditDistanceAtMostLonger` | evaluate.py:15 | the edit distance never exceeds the longer length, the denominator the similarity divides by |
| `Levenshtein.Similarity` | evaluate.py:13-15 | for inputs not both empty, the similarity lies in [0, 1] and is exactly 1 if and only if the strings are equal |
| `Levenshtein.SimilaritySymmetric` | evaluate.py:13-15 | the similarity does not depend on argument order |
| `Ratio.Quotient` | evaluate.py:24 | a count divided by a positive count it does not exceed lies in [0, 1]; it is 0 exactly when the numerator is 0 and 1 exactly when the two are equal |
| `Jaccard.Similarity` | evaluate.py:18-24 | with a non-empty union, the similarity lies in [0, 1]; it is 1 exactly when the two token sets are equal and 0 exactly when they are disjoint |
| `Jaccard.SimilaritySymmetric` | evaluate.py:18-24 | the similarity does not depend on argument order |
| `Jaccard.TokenSet` | evaluate.py:20-21 | every token in `set(s.split())` is a non-empty whitespace-free word, and the set is empty exactly when the word count is 0, so the similarity is undefined only when both strings are blank |
| `Jaccard.TokenSetOfJoin` | evaluate.py:20 | the token set of space-joined words is the set of those words |
| `Jaccard.SimilarityIgnoresOrderAndRepetition` | evaluate.py:20-23 | two word lists with the same set of words, joined by spaces, score the same against any other string, whatever their order or repetitions |
| `Euclidean.Distinct` | evaluate.py:41 | the key listing has no duplicates and holds exactly the tokens of either list |
| `Euclidean.SumSquaresOrderFree` | evaluate.py:41-44 | the sum of squared count differences is the same for any duplicate-free order of the same keys, so set iteration order does not matter |
| `Euclidean.SquaredDistanceOverUnion` | evaluate.py:37-44 | the squared distance equals the sum of (count in a − count in b)² over any listing of the union of both key sets, with absent tokens counting 0 |
| `Euclidean.SquaredDistanceSymmetric` | evaluate.py:36-45 | the distance from a to b equals the distance from b to a |
| `Euclidean.SquaredDistance` | evaluate.py:36-45 | the distance is 0 if and only if both lists hold the same tokens with the same multiplicities; in particular a list is at distance 0 from itself |
| `Euclidean.SquaredDistanceDependsOnCounts` | evaluate.py:37-38 | two lists with the same token counts are at the same distance from any third list |
| `Prompting.TargetLength` | evaluate.py:54-55 | for a positive factor, the target is the largest whole number not above n·f for `'longer'`, and not above n/f for `'shorter'` |
| `Prompting.TargetLengthBounds` | evaluate.py:55 | for a factor in (0, 1], the `'longer'` target is at most the word count and the `'shorter'` target at least the word count |
| `Prompting.FourWordCount` | evaluate.py:55 | "one two three four" has 4 words |
| `Prompting.FourWordTargets` | evaluate.py:55 | for 4 words, the targets are 2 (`'longer'`) and 8 (`'shorter'`) at factor 0.5, and 3 and 5 at factor 0.75 |
| `Evaluation.FactorTrials` | evaluate.py:69-70 | the inner loops give two trials per factor, at position 2j+k: factor j, operation k (`'longer'` before `'shorter'`) |
| `Evaluation.Trials` | evaluate.py:63-70 | a table of k documents yields 6k trials, at position 6d+2j+k: document d, factor j of 0.25/0.5/0.75, operation k of longer/shorter |
| `Evaluation.RunTrial` | evaluate.py:64-103 | a trial fails at one of the two similarity divisions exactly when the document and the generated text are both all whitespace; the failure is the Levenshtein division exactly when both are empty; a completed row carries the document's name and word count, the factor, the operation, `'gpt3'`, the generated text and its word count, both similarities in [0, 1] with their equality cases, and a squared distance that is 0 exactly when the token counts agree |
| `Evaluation.Collect` | evaluate.py:63-103 | the run succeeds exactly when every trial does, giving one row per trial in order; otherwise its error is that of the first failing trial |
| `Evaluation.Evaluate` | evaluate.py:63-103 | a completed run has six rows per document, each naming the model `'gpt3'`; an aborted run's error names one of the run's own trials |
| `Evaluation.EvaluateShape` | evaluate.py:63-97 | a completed run has 6 rows per document; row 6d+2j+k names document d, its word count, factor j, operation k and the model `'gpt3'` |
| `Evaluation.EvaluateFailsIff` | evaluate.py:80-81 | of the two similarity divisions, one aborts the run exactly when some trial has both a blank document and a blank generated text |
| `Evaluation.EvaluateSucceedsOnNonBlankDocuments` | evaluate.py:80-81 | if every document has at least one word, neither similarity division fails, whatever the generator returns |
| `Evaluation.HundredWordDocument` | evaluate.py:63-103 | with the two similarity divisions as the only source of error, one 100-word document yields exactly six rows, each with original length 100 and model `'gpt3'` |
| `Evaluation.EvaluationLoop` | evaluate.py:63-103 | the three nested loops, appending a row per trial and stopping at the first division by zero, compute exactly the run's result |

## Left out

- Model and tokenizer loading and text generation (evaluate.py:48-49, 75): an external language model. Generation is an arbitrary function parameter.
- CSV reading and writing, and progress printing (evaluate.py:51, 72-76, 106-111): input and output only. The row list is the model's output.
- `kl_divergence` (evaluate.py:27-33, 86): floating-point logarithms inside pandas and scipy, whose alignment and infinity conventions are not part of this model. The row has no KL column. `scipy.stats.entropy` can also raise, for instance when the two texts have different numbers of distinct words (arrays of different lengths) or no words; that error, which would abort a run, is not modelled.
- TF-IDF cosine similarity (evaluate.py:82-85): the vectorizer's own tokenizer, idf smoothing and normalisation belong to sklearn, which is not part of this model. The row has no cosine column. `fit_transform` at line 83 raises on an original text with an empty vocabulary (for instance `""` or `"a b c"`, whose words are all shorter than two characters); that error, which would abort a run, is not modelled.
- Evaluation.RunTrial: fails only at the two similarity divisions. The TF-IDF fit (line 83) and the KL divergence (line 86) can also raise and abort a run; those errors are not modelled.
- Evaluation.EvaluateFailsIff: the "exactly when" covers the two similarity divisions only. The TF-IDF fit (line 83) and the KL divergence (line 86) can also abort a run and are not modelled.
- Evaluation.EvaluateSucceedsOnNonBlankDocuments: promises only that no similarity divides by zero. The TF-IDF fit (line 83) and the KL divergence (line 86) can still abort such a run and are not modelled.
- Evaluation.HundredWordDocument: assumes, like the rest of the model, that only the similarity divisions can fail. The TF-IDF fit (line 83) and the KL divergence (line 86) can still abort the run and are not modelled.
- The rendered prompt string and its float-formatted percentage (evaluate.py:56): a prompt is represented by the text, factor and operation it is rendered from.
- `math.sqrt` (evaluate.py:44): the Euclidean column holds the squared distance, and all properties are stated on that integer.
- Float rounding: quantities are exact reals. For the factors 0.25, 0.5 and 0.75 and word counts far below 2^50, the floored float results equal the exact ones.
- Prompting.TargetLength: requires a positive factor, as the script only passes 0.25, 0.5 and 0.75. A zero factor (division by zero for `'shorter'`) and negative factors (`int()` truncating toward zero, not flooring) are not modelled.
- `Operation` has only the two labels the loop uses. `generate_prompt` treats every label other than `'longer'` like `'shorter'`.
- nltk's `edit_distance` is not part of this model. It is modelled by the behaviour of its default arguments: unit substitution cost and no transpositions.
- Non-string table cells (such as a missing value read as NaN) are not modelled: documents are strings.

# Answer-comparison core of an equation-aware answer scorer

This project models, in Dafny, the part of the grading service that compares a
student's answer with the master (reference) answer:

- **Extraction post-processing** (`extractors.dfy`, module `Extractors`): cleaning the
  extraction service's raw reply (surrounding whitespace, a "```json" code fence,
  stray backticks), the decision taken before JSON parsing (a blank master reply is
  an error, a blank student reply means "no equations"), equation normalisation
  ("²" becomes "^2", then every whitespace character is removed), and the in-place
  pass over the extracted records that keeps the original equation under
  `raw_equation` and stores the normalised one under `equation`.
- **Best-match equation scoring** (`evaluators.dfy`, module `Evaluators`): for each
  master record, in order, the student record of greatest similarity (strictly
  greater replaces, starting from 0, so the first of equals wins); a best
  similarity of at least 0.90 puts the master equation in the matched set,
  anything less adds one feedback entry. The denominator is the number of
  distinct master equation strings, and the score is 0 when there are none.
- **Description substitution** (`utils.dfy`, module `Utils`): a left fold over the
  records, each replacing every case-insensitive literal occurrence of its
  stripped search text (the raw equation if present and non-empty, otherwise the
  equation) by its description. An empty search text behaves as an empty regular
  expression does: the description is inserted before every character and at the end.
- **Score fusion** (`scorers.dfy`, module `Scorers`): `0.5 * equation + 0.25 * sbert +
  0.25 * e5`, times 10, rounded half-to-even to one decimal.

`text.dfy` (module `Text`) holds the Python string primitives these rely on: the
whitespace class of `str.strip()` and of `\s` (exactly the characters Python
counts as whitespace, not only ASCII), stripping, prefix and suffix removal and
case folding. `records.dfy` (module `Records`) holds the record type (a map from
string keys to string values), `Option`, `Result` and the error kinds.

The external services are parameters: the extraction replies arrive as strings,
JSON parsing is a function `parse` from the cleaned reply to a parsed value or
`Malformed`, and the embedding model with `np.dot` is a function `sim` from the
two formatted `"<equation>. Description: <description>"` strings to a real.
Python exceptions are `Failure` results; a `KeyError` on a record without the
fields `score_equations` or the substitution read is `Failure(MissingField)`.

The final score is not confined to [0, 10]: with similarities in [-1, 1] it
lies in [-5, 10], since negative similarities lower it
(`Scorers.FinalScoreBounds`).

## Model

| member | source | states |
|---|---|---|
| `Text.Strip` | fastapi-backend/core/extractors.py:17 | `str.strip`: neither end of the result is in the stripped class, and a string is its own strip exactly when neither of its ends is |
| `Text.StripPadded` | fastapi-backend/core/utils.py:10 | stripping padding of the class from around a core whose ends are outside the class gives back exactly the core |
| `Text.RemovePrefix` | fastapi-backend/core/extractors.py:17 | `str.removeprefix`: the prefix is dropped exactly when the text starts with it, otherwise the text is unchanged |
| `Text.RemoveSuffix` | fastapi-backend/core/extractors.py:17 | `str.removesuffix`: the suffix is dropped exactly when the text ends with it, otherwise the text is unchanged |
| `Extractors.CleanLlmOutput` | fastapi-backend/core/extractors.py:14-17 | the cleaned reply never starts or ends with whitespace |
| `Extractors.CleanBareOutputUnchanged` | fastapi-backend/core/extractors.py:17 | a reply with no surrounding whitespace or backticks comes back unchanged |
| `Extractors.CleanUnwrapsCodeFence` | fastapi-backend/core/extractors.py:17 | a non-empty payload whose ends are neither whitespace nor a backtick, wrapped in "```json" … "```", with whitespace anywhere around or inside the fence, comes back exactly |
| `Extractors.ExtractEquations` | fastapi-backend/core/extractors.py:49-73 | a blank cleaned master reply is an error; an unparsable master reply is an error; on success the master list is what the master reply parses to; a blank student reply gives the empty list and success exactly when the master reply parses; for a non-blank student reply after a parsed master reply, success holds exactly when the student reply parses (the list being what it parses to), and otherwise the error is malformed JSON |
| `Extractors.IsBlank` | fastapi-backend/core/extractors.py:63-69 | none (a predicate: the cleaned reply is empty); its meaning is stated by `Extractors.ExtractEquations` |
| `Extractors.ExpandSuperscriptTwo` | fastapi-backend/core/extractors.py:86 | the result contains no "²", introduces no whitespace, and leaves a "²"-free string unchanged; that each "²" becomes "^2" is `Extractors.SpliceSuperscriptTwo` |
| `Extractors.SpliceSuperscriptTwo` | fastapi-backend/core/extractors.py:86 | each "²" is replaced in place by "^2": expanding `a + "²" + b` gives the expansion of `a`, then "^2", then the expansion of `b` |
| `Extractors.RemoveWhitespace` | fastapi-backend/core/extractors.py:87 | the result contains no whitespace and no character that was not in the input, and a whitespace-free string is unchanged; that it keeps every other character, in order, is `Extractors.RemoveWhitespaceConcat` with `Extractors.NormalizeChar` |
| `Extractors.RemoveWhitespaceConcat` | fastapi-backend/core/extractors.py:87 | removing whitespace distributes over concatenation, so it acts character by character and keeps the order of the characters it keeps |
| `Extractors.NormalizeEquation` | fastapi-backend/core/extractors.py:85-88 | the result has no whitespace and no "²", and the normaliser leaves a string alone exactly when it already has neither; the rewrite of "²" to "^2" is `Extractors.NormalizeSpliceSuperscriptTwo`, and `Extractors.NormalizeChar` with `Extractors.NormalizeConcat` fixes the result on every string |
| `Extractors.NormalizeSpliceSuperscriptTwo` | fastapi-backend/core/extractors.py:85-88 | normalising `a + "²" + b` gives the normalised `a`, then "^2", then the normalised `b` |
| `Extractors.NormalizeChar` | fastapi-backend/core/extractors.py:85-88 | a single character normalises to "^2" if it is "²", to nothing if it is whitespace, and to itself otherwise |
| `Extractors.NormalizeIdempotent` | fastapi-backend/core/extractors.py:85-88 | normalising twice is normalising once |
| `Extractors.NormalizeConcat` | fastapi-backend/core/extractors.py:85-88 | normalisation commutes with concatenation (it works character by character) |
| `Extractors.ProcessRecord` | fastapi-backend/core/extractors.py:110-114 | a record with "equation" gains "raw_equation" equal to the old equation, its "equation" becomes the normalised form, and every other key is kept; a record without "equation" is untouched |
| `Extractors.ProcessExtractions` | fastapi-backend/core/extractors.py:104-114 | a non-list is rejected with an error; for a list, every element is replaced in place by its processed form, so length and order are kept |
| `Evaluators.UniqueEquationsMembers` | fastapi-backend/core/evaluators.py:20-23 | the distinct master equations are exactly the equation strings of the master records |
| `Evaluators.UniqueEquations` | fastapi-backend/core/evaluators.py:20-23 | none; see `Evaluators.UniqueEquationsMembers` |
| `Evaluators.Query` | fastapi-backend/core/evaluators.py:48-55 | none; the embedded text of a record is its equation, then ". Description: ", then its description, as the similarity oracle receives it |
| `Evaluators.DuplicateDoesNotInflate` | fastapi-backend/core/evaluators.py:20-23 | appending a copy of a master record leaves the set of distinct equations, hence the denominator, unchanged |
| `Evaluators.BestMatch` | fastapi-backend/core/evaluators.py:52-62 | a chosen candidate is a position among the student records; the rest is stated by `Evaluators.BestMatchIsFirstMaximum` |
| `Evaluators.IsMatched` | fastapi-backend/core/evaluators.py:64 | none (a predicate: best similarity at least 0.90); see `Evaluators.SinglePairThreshold` and `Evaluators.MatchedIffSomeRecordMatches` |
| `Evaluators.EntryFor` | fastapi-backend/core/evaluators.py:73-77 | none; see `Evaluators.EntryForMeaning` |
| `Evaluators.MatchAll` | fastapi-backend/core/evaluators.py:48-78 | none; see `Evaluators.MatchedIffSomeRecordMatches`, `Evaluators.MatchAllMatchesMatchedEquations` and `Evaluators.FeedbackInMasterOrder` |
| `Evaluators.BestMatchIsFirstMaximum` | fastapi-backend/core/evaluators.py:52-62 | the best similarity is at least 0 and at least every student similarity; a chosen candidate attains it and every earlier candidate is strictly below it; no candidate is chosen exactly when no similarity is positive, and then the best similarity is 0 |
| `Evaluators.EntryForMeaning` | fastapi-backend/core/evaluators.py:73-77 | a feedback entry carries the master record's equation and description and its best similarity; it names no closest match exactly when no student similarity is positive, and a named closest match is the equation of a student record whose similarity equals the best and that every earlier student record falls strictly below |
| `Evaluators.MatchedIffSomeRecordMatches` | fastapi-backend/core/evaluators.py:64-65 | an equation string is in the matched set exactly when some master record carrying it has best similarity of at least 0.90 |
| `Evaluators.MatchAllMatchesMatchedEquations` | fastapi-backend/core/evaluators.py:48-65 | the matched set built by the loop is exactly the set of distinct master equations carried by some master record whose best similarity is at least 0.90 |
| `Evaluators.MatchedAreMasterEquations` | fastapi-backend/core/evaluators.py:43-65 | the matched set is a subset of the distinct master equations, so it is no larger |
| `Evaluators.FeedbackInMasterOrder` | fastapi-backend/core/evaluators.py:48-78 | the feedback matrix is one entry per master record below 0.90, in master order |
| `Evaluators.NoStudentsAllUnmatched` | fastapi-backend/core/evaluators.py:52-53 | with no student records every master record gets an entry with best similarity 0 and no closest match |
| `Evaluators.SinglePairThreshold` | fastapi-backend/core/evaluators.py:64-65 | one master record against one student record scores 1 exactly when their similarity is at least 0.90 (so 0.90 itself matches) |
| `Evaluators.EquationScore` | fastapi-backend/core/evaluators.py:80 | 0 when there are no distinct master equations, otherwise the ratio whose product with the total is the matched count; in [0, 1] when matched does not exceed total |
| `Evaluators.ScoreEquationsSpec` | fastapi-backend/core/evaluators.py:20-87 | fails with a KeyError exactly when a master or student record lacks "equation" or "description"; otherwise the total is the number of distinct master equations, the score is the number of distinct master equations carried by some master record at or above 0.90 and does not exceed the total, the final score is that count divided by the total (0 for an empty total) and lies in [0, 1], and the feedback matrix is the unmatched master records in order |
| `Evaluators.FindBestMatch` | fastapi-backend/core/evaluators.py:52-62 | the inner loop computes exactly the best match (score and first position) of the specification |
| `Evaluators.CollectUniqueEquations` | fastapi-backend/core/evaluators.py:20-25 | succeeds exactly when every master record has both fields, and then returns the distinct master equations |
| `Evaluators.CheckStudentFields` | fastapi-backend/core/evaluators.py:27-30 | reports whether every student record has both fields |
| `Evaluators.ScoreEquations` | fastapi-backend/core/evaluators.py:6-87 | the nested loops return exactly the result of the specification above |
| `Utils.InsertEverywhere` | fastapi-backend/core/utils.py:11 | substituting for an empty pattern inserts the description at every one of the text's length-plus-one positions: the result has that length and starts and ends with the description |
| `Utils.InsertEverywhereLayout` | fastapi-backend/core/utils.py:11 | for every character position i of the text, the result holds the description at offset i * (len(description) + 1), immediately followed by the i-th character |
| `Utils.SubstituteNoOccurrence` | fastapi-backend/core/utils.py:10-11 | if the pattern does not occur in the text, ignoring case, the pattern is non-empty and the text is returned unchanged |
| `Utils.ReplaceAll` | fastapi-backend/core/utils.py:11 | none; see `Utils.ReplaceAllIsSplitJoin` and `Utils.SplitOnDecomposes` |
| `Utils.Substitute` | fastapi-backend/core/utils.py:11 | none; see `Utils.SubstituteNoOccurrence`, `Utils.InsertEverywhereLayout` and `Utils.ReplaceAllIsSplitJoin` |
| `Utils.SplitOn` | fastapi-backend/core/utils.py:11 | there is always at least one piece; the rest is stated by `Utils.SplitOnDecomposes` |
| `Utils.SplitOnDecomposes` | fastapi-backend/core/utils.py:11 | the pieces and the matched spans, alternated, give back the text; each span equals the pattern up to case; no match starts inside a piece (each span is the leftmost match after the previous one), and the last piece contains none |
| `Utils.ReplaceAllIsSplitJoin` | fastapi-backend/core/utils.py:11 | replacing every non-overlapping case-insensitive match equals splitting the text at those matches and joining the pieces with the description |
| `Utils.SearchText` | fastapi-backend/core/utils.py:7 | none; see `Utils.SubstituteAllFails` |
| `Utils.Pattern` | fastapi-backend/core/utils.py:10 | none; it is `Text.Strip` of the search text, so by that contract the pattern has no surrounding whitespace |
| `Utils.Step` | fastapi-backend/core/utils.py:6-12 | none; see `Utils.SubstituteAllFails` (one step fails, with a KeyError, exactly when the record lacks a search text or a description) |
| `Utils.SubstituteAll` | fastapi-backend/core/utils.py:6-12 | none; see `Utils.SubstituteAllFirstStep`, `Utils.SubstituteAllFails` and `Utils.SubstituteAllNoOccurrence` |
| `Utils.SubstituteAllFirstStep` | fastapi-backend/core/utils.py:6-12 | the fold applies the first record to the original text and the remaining records to its output |
| `Utils.SubstituteAllFails` | fastapi-backend/core/utils.py:7-8 | the substitution fails with a KeyError exactly when some record has neither a usable raw equation nor an equation, or lacks a description |
| `Utils.SubstituteAllNoOccurrence` | fastapi-backend/core/utils.py:6-12 | when no record's stripped search text occurs in the text, the text is returned unchanged (in particular for an empty record list) |
| `Utils.ReplaceEquationsWithDescriptions` | fastapi-backend/core/utils.py:5-12 | the loop returns exactly the left fold of single substitutions |
| `Scorers.RoundHalfEven` | fastapi-backend/core/scorers.py:42 | the result is within 0.5 of the input, and on a tie it is even |
| `Scorers.RoundHalfEvenMonotone` | fastapi-backend/core/scorers.py:42 | rounding preserves order |
| `Scorers.WeightedScore` | fastapi-backend/core/scorers.py:36-40 | none; see `Scorers.FinalScoreBounds`, `Scorers.FinalScoreMonotone` and `Scorers.FinalScoreExtremes` |
| `Scorers.RoundTenths` | fastapi-backend/core/scorers.py:42 | the rounded value is a whole number of tenths within 0.05 of the input, and when the input lies exactly halfway between two tenths the even number of tenths is chosen |
| `Scorers.CalculateFinalScore` | fastapi-backend/core/scorers.py:29-42 | the final score is a whole number of tenths within 0.05 of `(0.5 * eq + 0.25 * sbert + 0.25 * e5) * 10`, with an even number of tenths on a tie |
| `Scorers.FinalScoreExtremes` | fastapi-backend/core/scorers.py:36-42 | all inputs 1 give 10.0 and all inputs 0 give 0.0 |
| `Scorers.FinalScoreMonotone` | fastapi-backend/core/scorers.py:36-42 | raising any input never lowers the final score |
| `Scorers.FinalScoreBounds` | fastapi-backend/core/scorers.py:31-42 | with the equation score in [0, 1] and both similarities in [-1, 1], the weighted score and the final score are in [-5, 10] |

## Left out

- The language-model calls (`run_chain`, the prompt and the `ChatGoogleGenerativeAI` chain) are not modelled: their replies are arguments of `Extractors.ExtractEquations`.
- `json.loads` is the oracle `parse`; a parsed list holds objects with string values only, so list elements that are not objects and non-string values are not modelled.
- The branch of `clean_llm_output` that unwraps a message object's `.content` is not modelled; the reply is already a string.
- Error messages are not modelled; only which error kind is raised is (empty master reply, malformed JSON, non-list input, missing field).
- `Extractors.ProcessExtractions` assumes the list holds distinct dictionaries; the same dictionary appearing twice in one list (aliasing) is not modelled.
- The embedding model, `embed_query` and `np.dot` are the oracle `sim`; the `round(best_sim_score, 4)` applied to a feedback entry's similarity is not modelled, so the entry holds the unrounded value.
- The unused `master_docs` list and `score` local of `score_equations`, and every `print` trace, are not modelled.
- Case-insensitive matching folds ASCII letters only; Python's full Unicode case folding is not modelled.
- The description is inserted literally; `re.sub`'s processing of backslash escapes and group references in the replacement string is not modelled.
- All scores are exact reals: binary floating point, and `round` acting on the binary value of a float, are not modelled.
- `calculate_sbert_similarity` and `calculate_e5_similarity` (transformer inference and cosine similarity) are not modelled.
- The semantic-feedback generator, model loading, the database queries, the orchestration in `analyze_question_from_db`, the HTTP endpoints and the Node.js backend are I/O and are not part of this model.

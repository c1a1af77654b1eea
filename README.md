# TF-IDF document index, modelled in Dafny

This project models the `TFIDF` class of `src/tfidf.js` and the top-document
selection of `src/testing.js`.

`TFIDF` is a small in-memory search index:

- `addDocument` lower-cases a text and splits it on whitespace runs. It drops
  ten fixed stop-words and stores the resulting token list.
- For every term, the index keeps the list of its occurrence counts, one entry
  per document that contains the term.
- `computeIDF` turns those lists into an inverse document frequency table:
  `log(N / (1 + n))` for a term present in `n` of `N` documents.
- `tfidf` turns a query text into a length-normalised vector of sublinear
  tf-idf weights.
- `tfidfs` reports, in document order, the cosine similarity between the query
  vector and the vector of every stored document.
- `src/testing.js` sorts those scores by decreasing score, keeps five, and
  joins the texts of the chosen documents.

The project has six modules:

| module | file | contents |
|---|---|---|
| `Reals` | `reals.dfy` | what an exact square root satisfies, and small facts of real arithmetic |
| `Tokenizer` | `tokenizer.dfy` | `preprocess`: lower-casing, `split(/\s+/)`, stop-word filtering, and joining tokens back with spaces |
| `Counting` | `counting.dfy` | the term-counting loops, and the insertion order of object keys |
| `Vectors` | `vectors.dfy` | term vectors, sublinear weights, normalisation and cosine similarity as functions |
| `Index` | `index.dfy` | the class `TFIDF`, with its three fields updated in place by methods proved against the functions above, and the module-level methods for the cosine loop and the normalisation |
| `Ranking` | `ranking.dfy` | the stable sort by decreasing score and the top-five cut |

Some inputs are parameters of the model:

- `Math.log` is a parameter `ln: real -> real`. Nothing is assumed about it,
  except that `ln(1) == 0` and `ln(3/2) != 0` where a lemma needs concrete values.
- `Math.sqrt` is a parameter `sqrt` that satisfies `Reals.IsSqrt`: it gives a
  non-negative root whose square is its argument.
- The callback of `tfidfs` becomes the sequence of its arguments, which the
  method returns.
- The stored state is summed up by `TFIDF.Valid()`:
  - the frequency table is `FrequencyTable(documents)`, a function of the
    stored documents;
  - every stored document is a token list as `preprocess` returns it;
  - the idf table has no term the frequency table lacks.

  The constructor establishes `Valid()`, and `AddDocument` and `ComputeIdf`
  keep it. `AppendCounts` and `StoreIdf` are the loops inside those two
  methods. Each is specified on its own and is called only from there.

## Model

| member | source | states |
|---|---|---|
| Tokenizer.Preprocess | src/tfidf.js:23-37 | Every token is lower case, contains no whitespace and is not a stop-word. Only the first and the last token can be empty. |
| Tokenizer.Lower | src/tfidf.js:25 | The ASCII lower-casing keeps the length. It maps each character on its own and changes only upper-case letters. |
| Tokenizer.Split | src/tfidf.js:28 | `split(/\s+/)` always yields at least one piece. |
| Tokenizer.SplitPieces | src/tfidf.js:28 | Every piece is made of characters of the text, none of them whitespace. |
| Tokenizer.SplitInnerNonEmpty | src/tfidf.js:28 | Only the first and the last piece of a split can be empty. These come from leading and trailing whitespace. |
| Tokenizer.JoinSplit | src/tfidf.js:28 | Joining the pieces with one space gives back the text, with each whitespace run collapsed to one space. |
| Tokenizer.SplitJoin | src/tfidf.js:28 | Splitting whitespace-free pieces joined with single spaces gives back the pieces, when only the first and the last may be empty. |
| Tokenizer.RemoveStopWords | src/tfidf.js:31-32 | The filter keeps exactly the non-stop-words: each one as often as in the input, and nothing else. |
| Tokenizer.RemoveStopWordsInnerNonEmpty | src/tfidf.js:32 | Filtering keeps empty tokens at the ends of the list. |
| Tokenizer.RemoveStopWordsNone | src/tfidf.js:32 | A list with no stop-word passes the filter unchanged. |
| Tokenizer.PreprocessCounts | src/tfidf.js:23-37 | Each non-stop-word occurs in the tokens as often as in the split of the lower-cased text. |
| Tokenizer.RetokenizeRoundTrip | src/tfidf.js:76 | Preprocessing a non-empty token list joined with spaces gives the same list back. |
| Tokenizer.StopWordOnlyRetokenize | src/tfidf.js:76 | "The" preprocesses to the empty list, but that list joined with spaces preprocesses to one empty token. |
| Counting.Distinct | src/tfidf.js:12-17 | The keys of the count object, in insertion order: exactly the terms of the list, each once. |
| Counting.CountTerms | src/tfidf.js:12-15 | The loop gives every term of the list its number of occurrences, which is at least 1. Keys are created in first-occurrence order. |
| Counting.CountsSumToLength | src/tfidf.js:12-15 | The counts of the distinct terms add up to the length of the token list. |
| Index.TFIDF.constructor | src/tfidf.js:2-6 | A new index has no documents and empty tables, and satisfies `Valid()`. |
| Index.TFIDF.AddDocument | src/tfidf.js:8-21 | The preprocessed document is appended to `documents`. The frequency table is extended by that document's counts. The idf table is unchanged and `Valid()` is kept. |
| Index.TFIDF.AppendCounts | src/tfidf.js:12-20 | After the loop, every distinct term of the document has its count appended, and a new term gets a new list. |
| Index.FrequencyTableAppend | src/tfidf.js:17-20 | Adding a document to the corpus extends the frequency table exactly as the loop does. |
| Index.FrequencyTableFacts | src/tfidf.js:17-20 | A known term's list is never empty, and every count in it is positive. Its length is the number of documents that contain the term, which is at most the number of documents. |
| Index.AddDocumentLists | src/tfidf.js:17-20 | Every distinct term of the new document gets exactly one entry appended: its positive occurrence count. Every other list is unchanged. |
| Index.AddDocumentCountsSum | src/tfidf.js:12-20 | The counts that one `addDocument` appends add up to the number of tokens of the document. |
| Index.TFIDF.ComputeIdf | src/tfidf.js:39-46 | Every term of the frequency table gets `ln(N / (1 + n))`, with N the number of documents and n the length of the term's list. No other key is added, and `Valid()` is kept. |
| Index.TFIDF.StoreIdf | src/tfidf.js:41-45 | The loop, visiting the terms in any order, writes exactly `IdfTable` over the old table. |
| Index.IdfArgument | src/tfidf.js:42-44 | For a term of the corpus, the stored idf is `ln(N / (1 + df))`, with df the number of documents containing the term. The argument of the log is positive. It is below 1 (a negative idf) exactly when df is N, and exactly 1 when df is N - 1. |
| Index.TFIDF.Tfidf | src/tfidf.js:48-71 | The result is the `Vectorize` vector of the preprocessed query. |
| Index.TFIDF.TfidfTokens | src/tfidf.js:50-70 | Counting, weighting and normalising a token list give `Vectorize` of that list. |
| Index.TFIDF.RawVector | src/tfidf.js:50-62 | Keys come in first-occurrence order. Each weight is `(1 + ln(count)) * idf`, and the idf is 0 for a term with no entry in the table. |
| Index.SumOfSquares | src/tfidf.js:65 | The reduction gives the sum of the squared weights. |
| Index.Normalise | src/tfidf.js:64-68 | Every weight is divided by the square root of the sum of squares. The weights are kept when that sum is 0. |
| Vectors.VectorizeKeys | src/tfidf.js:56-62 | A query vector is well formed. Its keys are the distinct tokens, and a term missing from the idf table weighs 0. |
| Vectors.VectorizeUnit | src/tfidf.js:64-68 | After normalisation the sum of squares is 1, unless the raw weights are all 0. |
| Vectors.VectorizeDegenerate | src/tfidf.js:64-68 | When every term's idf is 0, every weight is 0. |
| Vectors.EmptyVector | src/tfidf.js:48-71 | The empty token list gives the empty vector, whose similarity with any vector is 0. |
| Index.TFIDF.Tfidfs | src/tfidf.js:73-80 | One score per stored document, in document order and with index i at position i. Each score is the cosine of the query vector with the document's vector. |
| Index.CosineSimilarity | src/tfidf.js:82-99 | The result is `Cosine`: the dot product over the product of the magnitudes, and 0 when either sum of squares is 0. |
| Index.Accumulate | src/tfidf.js:83-92 | Over the union of the keys, the loop gives the dot product and both sums of squares, counting a missing key as 0. |
| Vectors.CosineSymmetric | src/tfidf.js:82-99 | The similarity does not depend on the order of its arguments. |
| Vectors.CosineDegenerate | src/tfidf.js:94-96 | The similarity is 0 when either vector's sum of squares is 0. |
| Vectors.CosineSelf | src/tfidf.js:82-99 | A vector whose sum of squares is not 0 has similarity 1 with itself. |
| Index.Scores | src/tfidf.js:73-80 | One score per document, and score i carries index i. |
| Index.ScoresAsWritten | src/tfidf.js:76 | The scores as line 76 computes them, from the re-preprocessed joined tokens. There is one per document. |
| Index.StoredDocumentVector | src/tfidf.js:76 | For a non-empty stored document, the vector of its joined tokens is the vector of the stored tokens. |
| Index.ScoresAgree | src/tfidf.js:76 | When no stored document is empty, line 76 gives the scores of the stored tokens. |
| Index.StopWordOnlyDocument | src/tfidf.js:76 | A counterexample for line 76, on the corpus that `addDocument("The")`, `addDocument("")` and `addDocument("a")` leave and the idf table `computeIDF` then writes. Against the query `""`, the first document, which was all stop-words, scores 1 as written and 0 as intended. |
| Index.EmptyDocumentScoresZero | src/tfidf.js:73-80 | A stored document without tokens scores 0 against any query. |
| Index.SelfSimilarity | src/tfidf.js:73-80 | A stored document scores 1 against a query with the same tokens, unless all its weights are 0. |
| Ranking.Insert | src/testing.js:21 | One insertion step of the stable sort adds exactly the inserted entry. |
| Ranking.SortByScore | src/testing.js:21 | The sort is a permutation of the scores. |
| Ranking.SortDescending | src/testing.js:21 | The sorted scores are in decreasing order. |
| Ranking.SortRanked | src/testing.js:21 | When the indices ascend, as in the output of `tfidfs`, equal scores stay in index order. |
| Ranking.RankedUnique | src/testing.js:21 | Two ranked sequences with the same entries are equal. So any stable sort by decreasing score gives the same result on the output of `tfidfs`. |
| Ranking.TopFive | src/testing.js:21 | `.slice(0, 5)` of the sorted scores keeps `min(5, n)` entries, all of them taken from the scores. |
| Ranking.TopFiveOfScores | src/testing.js:21 | For the output of `tfidfs`, the sorted scores are ranked, and no dropped entry scores higher than a kept one. |

## Left out

- Floating point. Weights and scores are exact reals, so rounding, infinities
  and NaN are not modelled. Where the source computes `0 / 0` (in `tfidf`, for
  a vector whose raw weights are all 0), it stores NaN weights, which
  `computeCosineSimilarity` reads back as 0 through `|| 0`. The model keeps
  the zero weights, so every cosine comes out the same.
- `Math.log` and `Math.sqrt` are parameters. No property of the logarithm is
  used, apart from `ln(1) == 0` and `ln(3/2) != 0` in one counterexample.
- `toLowerCase` is modelled on ASCII letters only. Other letters are kept
  as they are.
- Plain objects are modelled as maps. Keys inherited from `Object.prototype`
  are not modelled: a token such as `constructor` makes the source's
  `addDocument` throw. Nor is the rule that integer-like keys are enumerated
  before the others; keys come in insertion order.
- `computeIDF` visits the keys of the frequency table in an arbitrary order.
  The result does not depend on that order.
- `tfidfs` reports through a callback. The model returns the sequence of
  the callback's arguments instead.
- `Index.TFIDF.Tfidfs`: vectorises the stored tokens themselves, not their
  re-preprocessed join as line 76 does. The two differ only for documents
  stored as the empty list; see Findings.
- `Vectors.VectorizeDegenerate`: states only that zero idfs give zero
  weights. Weights can also cancel out, since `1 + ln(count)` can be 0 for
  some `ln`.
- No range bound on the cosine (Cauchy-Schwarz) is proved.
- Other files are not part of this model:
  - `src/index.js` (the page that calls the index);
  - the console output of `src/testing.js`;
  - the web front end under `static/`.
- The code splits on whitespace runs only, and keeps a leading or trailing
  empty piece. It has no snapshot format. It recomputes idf values only when
  `computeIDF` is called. The model does the same.
- The end of `src/testing.js:21` looks up the texts of the five documents
  and joins them with spaces. That is output for the console and is not
  modelled; the model stops at the five scores.

## Findings

| source | as written | input that shows it | evidently intended | confidence | as-written member | corrected member |
|---|---|---|---|---|---|---|
| src/tfidf.js:76 | The comparison vector is built from `documents[index].join(' ')` preprocessed again. A document stored as the empty list (only stop-words) joins to `""`, which preprocesses to one empty token `[""]`. | `addDocument("The")`, `addDocument("")`, `addDocument("a")`, then `computeIDF()`, which gives `idf[""] = ln(3/2)`. Then `tfidfs("")` reports 1 for document 0 (taking `ln(1) = 0` and `ln(3/2) != 0`). | The vector of the stored tokens: an empty document scores 0 against every query. | not executed | Index.StopWordOnlyDocument | Index.TFIDF.Tfidfs |

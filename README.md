# Fake-news pipeline preprocessing, modelled in Dafny

This project models the deterministic part of a Spanish fake-news classifier.
That part is the record cleaning and text preprocessing chain in
`Api/EntrenarModelo.py`. It has four stages, each a stateless transformer whose
`fit` does nothing:

1. **Profiler** (`PerfilamientoTransformer`, module `Profiler`). It drops the
   `ID` and `Fecha` columns if they are present. Then it drops every row with
   a missing cell in any remaining column. Then it drops every row whose
   `Titulo` repeats an earlier surviving row's title. The training script
   applies it once to the raw corpus. It is not a step of the reusable pipeline.
2. **Text cleaner** (`LimpiarTextoTransformer`, module `Cleaner`). It
   lower-cases `Titulo` and `Descripcion`, tokenizes them, drops the stopwords
   and joins the rest with single spaces.
3. **Lemmatiser** (`LematizarTransformer`, module `Lemmatiser`). It keeps the
   lemma of every non-punctuation token and joins the lemmas with single
   spaces. It then applies NFKD decomposition (Unicode Standard Annex #15) and
   drops every non-ASCII code point.
4. **Hashing vectoriser** (`VectorizarHashingTransformer`, module `Hashing`).
   It builds `Titulo + " " + Descripcion` for each row and lower-cases it, as
   the vectoriser does by default. It extracts the tokens matched by
   `(?u)\b[a-zA-ZáéíóúüñÁÉÍÓÚÜÑ]{2,}\b` and counts each token into one of
   `n_features` buckets with sign +1. `n_features` defaults to 1000 and the
   pipeline uses 5000.

Module `Pipeline` composes stages 2 to 4 as `pipeline[:-1].transform`. This is
the one code path that training, prediction and retraining all call.

A frame is a list of column names plus a sequence of rows. Each row maps a
column to `Some(text)` or `None` (NaN). Every stage is a function from frames
to a `Result`, so stages do not change their input. A pandas exception is an
`Err`:

- `MissingColumn` is a `KeyError`.
- `NotText` is a missing cell that reaches `.lower()` or spaCy.
- `InvalidDocument` is a missing document that reaches the vectoriser.
- `InvalidFeatureCount` is a width below 1.

The foreign pieces are parameters: NLTK's tokenizer and stopword list, spaCy's
analyser (text to tokens with lemma and punctuation flag), NFKD, the feature
hash, and Unicode's alphanumeric table beyond ASCII (which decides `\b`).

The token pattern is modelled as the regular-expression engine runs it. The
engine checks a word boundary, takes the longest run of letters, backtracks to
an end with a word boundary, and resumes after each match. A lemma proves that
this finds exactly the whole words made only of pattern letters, each at least
two letters long.

Some facts about the code that the model follows:

- The profiler drops rows with a missing value in any column, `Label`
  included, not only rows missing a title or body.
- The profiler does not drop empty strings.
- `drop_duplicates` returns a frame with no rows or no columns unchanged,
  before it looks up `Titulo`. So a frame without `Titulo` fails only when
  some row and some column reach that call.
- The vectoriser raises on a batch with no rows, so preprocessing an empty
  frame fails.
- The code has no version counter and no label validation.

## Model

| member | source | states |
|---|---|---|
| `Profiler.Profile` | Api/EntrenarModelo.py:24-33 | the only failure is a KeyError on `Titulo`; on success the columns are the input's without `ID`/`Fecha` and there are no more rows than in the input |
| `Profiler.ProfileFails` | Api/EntrenarModelo.py:28-32 | profiling fails exactly when there is no `Titulo` column while some column other than `ID`/`Fecha` and some complete row reach the duplicate pass; the failure is a KeyError on `Titulo` |
| `Profiler.Without` | Api/EntrenarModelo.py:28 | a column survives the drop exactly when it was present and is not one of the dropped names |
| `Profiler.DropColumns` | Api/EntrenarModelo.py:28 | the columns lose `ID`/`Fecha` and no error is raised when they are absent; every row keeps its count, loses its dropped cells and keeps every other cell |
| `Profiler.DropNA` | Api/EntrenarModelo.py:30 | the columns are unchanged; every kept row is an input row with no missing cell, and every input row with no missing cell is kept |
| `Profiler.DropNARows` | Api/EntrenarModelo.py:30 | the rows after dropna are the input rows at strictly increasing positions, and a position is kept exactly when its row has no missing cell |
| `Profiler.DuplicatedAt` | Api/EntrenarModelo.py:32 | the duplicate pass marks a row exactly when an earlier row has the same title |
| `Profiler.DropDuplicates` | Api/EntrenarModelo.py:32 | fails exactly when the key is not a column of a frame with at least one row and one column, with a KeyError on the key; otherwise the columns are unchanged, every kept row is an input row, and a frame without the key comes back unchanged |
| `Profiler.DropDuplicatesRows` | Api/EntrenarModelo.py:32 | with the key a column, the pass succeeds and keeps the input rows at strictly increasing positions, a position being kept exactly when no earlier row has its key |
| `Profiler.ProfileColumns` | Api/EntrenarModelo.py:28 | after profiling, neither `ID` nor `Fecha` is a column; the other columns keep their order; an input lacking both keeps its columns |
| `Profiler.ProfileRows` | Api/EntrenarModelo.py:24-33 | the output rows are the input rows, in order, that have no missing cell outside `ID`/`Fecha` and, when `Titulo` is a column, carry the first title among such rows, each without `ID`/`Fecha` (an if-and-only-if on input positions) |
| `Profiler.ProfileClean` | Api/EntrenarModelo.py:29-32 | no profiled row has a missing cell; with a `Titulo` column the profiled titles are pairwise distinct, and without one the result has no rows or no columns |
| `Profiler.ProfileCoversTitles` | Api/EntrenarModelo.py:30-32 | every title of a complete input row appears in the output; only duplicates are lost |
| `Profiler.NullIdOrDateKept` | Api/EntrenarModelo.py:28-30 | a row whose only missing cells are in `ID`/`Fecha`, with a title new among complete rows, survives |
| `Profiler.ProfileIdempotent` | Api/EntrenarModelo.py:24-33 | profiling a profiled frame returns it unchanged |
| `Profiler.ProfileWellFormed` | Api/EntrenarModelo.py:26-33 | a frame with distinct columns and rows keyed by exactly those columns keeps both properties |
| `Frames.TextColumn` | Api/EntrenarModelo.py:45-46 | reading a text column fails with a KeyError when it is absent and on a missing cell otherwise; on success it holds each row's text, in order |
| `Frames.WithColumn` | Api/EntrenarModelo.py:68-70 | assigning a column keeps the columns and the row count, puts the i-th new text in row i and leaves every other cell alone |
| `Text.Lower` | Api/EntrenarModelo.py:51 | lower-casing keeps the length, maps each upper-case Latin-1 letter to the letter 32 code points above it, leaves no upper-case Latin-1 letter, and changes no other character |
| `Text.SplitJoin` | Api/EntrenarModelo.py:55 | splitting the single-space join of space-free words on spaces gives the words back |
| `Text.JoinEmpty` | Api/EntrenarModelo.py:55 | the join is empty exactly when there are no words or one empty word |
| `Cleaner.NonStop` | Api/EntrenarModelo.py:54 | every kept token is a token and not a stopword, and every token that is not a stopword is kept |
| `Cleaner.CleanText` | Api/EntrenarModelo.py:50-55 | when no token holds a space and some token is kept, the cleaned text splits into exactly the non-stopword tokens of the lower-cased input, in order |
| `Cleaner.CleanTextEmpty` | Api/EntrenarModelo.py:54-55 | the cleaned text is empty when every token is a stopword, and only then when no token is empty |
| `Cleaner.CleanTextIgnoresCase` | Api/EntrenarModelo.py:51 | texts equal up to case clean to the same text |
| `Cleaner.Transform` | Api/EntrenarModelo.py:43-47 | succeeds exactly when both text columns exist with no missing cell, with the errors in the order pandas raises them; keeps columns and row count, replaces `Titulo`/`Descripcion` by their cleaned text and leaves every other cell alone |
| `Text.AsciiFold` | Api/EntrenarModelo.py:82 | the folded text is all ASCII and no longer than its input |
| `Text.AsciiFoldFixes` | Api/EntrenarModelo.py:82 | folding leaves a text unchanged exactly when it is ASCII |
| `Text.AsciiFoldConcat` | Api/EntrenarModelo.py:82 | folding a concatenation folds each part, so ASCII characters are kept in order |
| `Lemmatiser.LemmaText` | Api/EntrenarModelo.py:77 | when some token is not punctuation and no lemma holds a space, the text splits into exactly the lemmas of the non-punctuation tokens, in order |
| `Lemmatiser.Fold` | Api/EntrenarModelo.py:82 | the folded text is ASCII, no longer than the decomposition, and equal to it when the decomposition is already ASCII |
| `Lemmatiser.LemmatiseText` | Api/EntrenarModelo.py:75-84 | the treatment of one document yields ASCII |
| `Lemmatiser.LemmatiseSeries` | Api/EntrenarModelo.py:74-85 | one output per input text, each all ASCII |
| `Lemmatiser.LemmatiseSeriesAt` | Api/EntrenarModelo.py:75-84 | the i-th output depends only on the i-th text |
| `Lemmatiser.LemmatiseSeriesConcat` | Api/EntrenarModelo.py:75 | processing a batch in two parts gives the same outputs as processing it whole |
| `Lemmatiser.LemmatiseTextWords` | Api/EntrenarModelo.py:76-84 | when NFKD keeps the two sides of a space apart and adds no space to a lemma, the output splits into exactly the folded lemmas of the non-punctuation tokens, in order, accented lemmas losing their marks |
| `Lemmatiser.Transform` | Api/EntrenarModelo.py:65-71 | succeeds exactly when both text columns exist with no missing cell; keeps columns and row count, replaces `Titulo`/`Descripcion` by their lemmatised text and leaves every other cell alone |
| `Hashing.LetterRun` | Api/EntrenarModelo.py:92 | the greedy run from p stays in the text, holds only pattern letters, and ends at the text's end or before a non-letter |
| `Hashing.TryEnd` | Api/EntrenarModelo.py:92 | backtracking returns an end at least two letters on that has a word boundary, and returns the first end tried when it has one |
| `Hashing.MatchAt` | Api/EntrenarModelo.py:92 | the pattern matches at a position exactly when a token starts there, and the match takes the whole run of letters |
| `Hashing.Matches` | Api/EntrenarModelo.py:92 | matches are ordered, do not overlap, are at least two letters long and each starts a token |
| `Hashing.MatchesComplete` | Api/EntrenarModelo.py:92 | the scan misses no token start |
| `Hashing.MatchesExact` | Api/EntrenarModelo.py:92 | a position starts a match exactly when it starts a token |
| `Hashing.Tokens` | Api/EntrenarModelo.py:92 | every token has at least two characters, all from the pattern's letters |
| `Hashing.Analyze` | Api/EntrenarModelo.py:91-92 | after lower-casing, every token has at least two characters, only lower-case pattern letters, and only a-z when the document is ASCII |
| `Hashing.Bucket` | Api/EntrenarModelo.py:93 | every bucket index lies in `[0, n_features)` |
| `Hashing.CountBuckets` | Api/EntrenarModelo.py:93-94 | the count vector has `n_features` entries |
| `Hashing.CountBucketsAt` | Api/EntrenarModelo.py:93-94 | each bucket holds exactly the number of tokens hashed to it, each counted +1 |
| `Hashing.CountBucketsTotal` | Api/EntrenarModelo.py:94 | the counts add up to the number of tokens |
| `Hashing.VectoriseText` | Api/EntrenarModelo.py:93-94 | one document's vector has `n_features` entries, bucket b holds the number of its tokens hashed to b, and the counts add up to its number of tokens |
| `Hashing.Transform` | Api/EntrenarModelo.py:101-104 | KeyError on a missing text column, then a failure for a width below 1, for a frame with no rows, or for a missing document; otherwise one vector per row from `Titulo + " " + Descripcion` |
| `Pipeline.Preprocess` | Api/EntrenarModelo.py:130 | on success the frame has at least one row and there is one vector of the configured width per row |
| `Pipeline.PrepareText` | Api/EntrenarModelo.py:122-123 | a text after cleaning and lemmatisation is ASCII |
| `Pipeline.PreprocessOutcome` | Api/EntrenarModelo.py:121-124 | `pipeline[:-1]` succeeds exactly when both text columns exist with no missing cell, the frame has a row and the width is at least 1; the error is the one the first failing stage raises |
| `Pipeline.PreprocessRows` | Api/PredictionModel.py:17 | one vector per row, in order, of the configured width, each a function of its own title and description alone |
| `Pipeline.PreprocessParity` | Api/PredictionModel.py:28 | retraining and prediction (and training) produce the same vector for the same title and description |
| `Pipeline.PipelineTokens` | Api/EntrenarModelo.py:81-92 | every token counted in the pipeline is two or more letters a-z, because the lemmatiser already folded the text to ASCII |
| `Pipeline.TrainedWidth` | Api/EntrenarModelo.py:124 | the trained pipeline's vectors have 5000 entries |

## Left out

- NLTK's `word_tokenize` and Spanish stopword list, spaCy's `es_core_news_sm`
  (lemmas and `is_punct`), and the NFKD tables are foreign libraries. They are
  parameters. Where a property depends on their content, the lemma states
  what it needs as a hypothesis. `Cleaner.CleanText` and
  `Lemmatiser.LemmaText` need tokens and lemmas without spaces.
  `Lemmatiser.LemmatiseTextWords` needs NFKD to decompose the two sides of a
  space separately and to add no space to a lemma. `nlp.pipe` batching is
  modelled as one analysis per text, which is what makes the series
  order-preserving and state-free.
- `Text.Lower` is Python's `str.lower` only on the Latin-1 range. Code points
  above U+00FF are left unchanged, so the model misses lower-case mappings
  such as Greek or Cyrillic, and mappings that change length (U+0130).
- Cells are text or missing. A non-text value such as a number read from a
  CSV is not modelled.
- `Hashing.Bucket` takes the hash as an abstract function reduced modulo
  `n_features`. The concrete 32-bit MurmurHash3 and its absolute value are
  left out.
- `Profiler.ProfileClean`: distinct titles are promised only when `Titulo` is
  a column. Without one, pandas returns an empty frame from the duplicate
  pass unchanged, so a frame whose only columns are `ID` and `Fecha` comes
  back with every row and no columns.
- The model stops at integer bucket counts. The floating-point L2
  normalisation (`norm='l2'`) is left out.
- `Hashing.Transform`: the program only builds widths of 1000 and 5000. The
  model reports a width below 1 as a failure before it looks at the rows;
  scikit-learn's own handling of such a width, which depends on its version,
  is not modelled. An empty batch and a missing document cannot occur
  together. The messages and exception types are not modelled, nor is the
  width's upper bound of 2^31 - 1.
- The `MultinomialNB` classifier (`partial_fit`, `predict`) is floating point
  and library-internal. Any rejection of labels it does happens there.
- The training script's CSV reading, its random `train_test_split` and
  `joblib.dump` are I/O and randomness. So are `load_pipeline`, and the save
  that `retrain` performs after `partial_fit` in `Api/PredictionModel.py`.
- `Api/Main.py` is not part of this model. It is HTTP routing and marshaling,
  and it shares one global pipeline across requests without a lock.
- `Api/DataModel.py` is not part of this model. It holds only schema
  declarations.
- The React front end is not part of this model.

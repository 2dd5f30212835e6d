# Product review analysis: feature extraction and recommendation, in Dafny

This project models the two core components of the product-review analysis
system and proves properties of the model.

- **`DataProcessor`** (`src/data_processor.py`) enriches a table of product
  reviews. It adds a brand for every row: the first word of the product name,
  or `"Unknown"`. It adds a category: the first of the `electronics`,
  `clothing`, `home` and `beauty` buckets whose keyword occurs in the
  lower-cased review text, or `general`. From the text's polarity it adds a
  sentiment score and a `positive` / `negative` / `neutral` label with a
  ±0.1 dead band. It adds a numeric rating. Column names are resolved between
  two naming conventions, `reviews.text` / `name` / `reviews.rating` and
  `Text` / `ProductName` / `Rating`.
- **`RecommendationSystem`** (`src/recommender.py`) holds a trained copy of
  the enriched table. From the rows of a user's history it builds brand and
  category affinity tables, where the score is `count * (1 + mean
  sentiment)`. It keeps the top three of each as preferences. Candidates are
  the rows of a preferred brand or category, at or above the sentiment
  threshold, and outside the history. When there are no such rows, every row
  outside the history is a candidate. The engine returns the `top_n`
  candidates with the best score: sentiment alone, or half sentiment and half
  rating / 5 when the table has a rating column. A row without a rating has
  a NaN score there, and `nlargest` places such rows after every number.

Files:

- `wrappers.dfy`: `Option` and `Result`.
- `text.dfy` (module `Text`): Python's `str.split()`, `str.lower()` and the
  substring test `sub in s`.
- `ranking.dfy` (module `Ranking`): a stable ranking, highest score first with
  ties in position order. It is the order in which `nlargest(keep='first')`
  returns numeric scores. The affinity tables use it for
  `sort_values(ascending=False)` as well, whose order of ties pandas leaves
  undefined (see "Left out").
- `data_processor.dfy` (module `DataProcessor`): the extractor. The brand,
  category and sentiment extractors compute values, as their Python methods
  do. `ProcessReviews` returns a new table of the derived fields, where the
  source adds those columns to the caller's frame.
- `recommender.dfy` (module `Recommender`): affinity tables, candidates,
  ranking, and `recommend` as a pure function.
  - The engine itself is the class `RecommendationSystem`. Its one field
    `df` is `None` until `Train` replaces it.
  - `Recommend` reads the field and changes nothing.

A row's identifier is its position in the table. A review history is a
sequence of positions, and repeats are kept as `iloc` keeps them. The
sentiment scorer (TextBlob) is outside the model. It is a parameter
`polarity: string -> Polarity` whose values lie in [-1, 1].

## Model

| member | source | states |
|---|---|---|
| Text.Split | src/data_processor.py:19 | `str.split()`: every word is non-empty and holds no whitespace; no words exactly when the string is all whitespace |
| Text.SplitFirstWord | src/data_processor.py:19-21 | for a string that is not all whitespace, `words[0]` is its first word: it follows only whitespace, and it ends at whitespace or at the end of the string |
| Text.FirstWordUnique | src/data_processor.py:19-21 | a string has at most one first word |
| Text.LowerUpper | src/data_processor.py:31 | lower-casing is idempotent, and lower-casing after upper-casing gives what lower-casing alone gives |
| Text.OccursAt | src/data_processor.py:33 | `kw in text` holds exactly when `kw` is the slice of `text` at some offset |
| DataProcessor.ExtractBrand | src/data_processor.py:17-22 | NaN or a name with no word gives "Unknown"; otherwise the result is the name's first word; the brand is never empty and holds no whitespace |
| DataProcessor.FirstMentioned | src/data_processor.py:32-35 | the early-returning loop stops at the first bucket that some keyword matches, and no earlier bucket matches |
| DataProcessor.ExtractCategory | src/data_processor.py:24-35 | a non-general result has a keyword in the lower-cased `str(text)`; no bucket of higher priority has one |
| DataProcessor.CategoryIsUnique | src/data_processor.py:24-35 | only one bucket satisfies those two conditions, so they fully determine the category |
| DataProcessor.CategoryIgnoresCase | src/data_processor.py:31 | lower- or upper-casing the text does not change the category |
| DataProcessor.MissingTextIsGeneral | src/data_processor.py:31 | a NaN text reads as "nan", which matches no keyword, so the category is `general` |
| DataProcessor.LabelOf | src/data_processor.py:42-46 | `positive` iff polarity > 0.1, `negative` iff < -0.1, `neutral` iff within [-0.1, 0.1] |
| DataProcessor.LabelMonotone | src/data_processor.py:42-46 | the label never falls as polarity rises; negating the polarity mirrors the label |
| DataProcessor.AnalyzeSentiment | src/data_processor.py:37-46 | NaN text gives (0, neutral); otherwise the scorer's polarity unchanged, within [-1, 1], with the label `LabelOf` gives it |
| DataProcessor.NumeralParts | src/data_processor.py:62 | splitting a string at its first '.' gives two digit strings, not both empty, exactly when the string is an unsigned numeral: digits and at most one '.', with at least one digit |
| DataProcessor.ParseDecimal | src/data_processor.py:62 | a string parses exactly when it is a numeral: an optional sign, then an unsigned numeral. So `"1-2"`, `"+"`, `"."`, `"1.2.3"` and `""` are absent |
| DataProcessor.ParseSigned | src/data_processor.py:62 | a leading `+` keeps an unsigned numeral's value and a leading `-` negates it |
| DataProcessor.ParseFraction | src/data_processor.py:62 | `sign w.f` with digit strings `w` and `f` parses to the sign applied to `w + f / 10^len(f)` (`"-4.25"` to -4.25, `".5"` to 0.5) |
| DataProcessor.ParseWhole | src/data_processor.py:62 | `sign w` with a non-empty digit string `w` parses to the sign applied to the number `w` denotes |
| DataProcessor.ParseNatText | src/data_processor.py:62 | round trip: parsing the decimal numeral of a natural number gives the number back |
| DataProcessor.ToNumeric | src/data_processor.py:61-62 | `to_numeric(errors='coerce')` on one cell: NaN gives absent; a number is kept; a string gives a value exactly when it is a numeral, so a malformed one is absent and never a default; a non-empty digit string gives the number it denotes |
| DataProcessor.ProcessReviews | src/data_processor.py:48-64 | one enriched row per raw row, each derived from the resolved columns. The sentiment fields exist iff a text column does, the rating iff a rating column does. Every label agrees with its score in [-1, 1]. With no text column every category is `general`; with no rating column every rating is absent |
| DataProcessor.ColumnPreference | src/data_processor.py:49-62 | the first naming convention is read whenever its column exists, and the second only in its absence; with no name column every brand is "Unknown" |
| Ranking.SortBy | src/recommender.py:27 | the result is a permutation of the input, in ranked order: highest score first, equal scores by position |
| Ranking.RankedScores | src/recommender.py:27 | in a ranked sequence scores never increase |
| Ranking.PermutationKeepsDistinct | src/recommender.py:23-27 | rearranging a sequence keeps its elements' keys pairwise different |
| Recommender.Distinct | src/recommender.py:23-24 | the distinct values of a column: each occurs in it, each of its values is listed, none twice |
| Recommender.Entries | src/recommender.py:23-26 | one affinity row per distinct value of the history; each describes its value; together they cover every history row |
| Recommender.AffinityTable | src/recommender.py:22-34 | `get_brand_affinity` / `get_category_affinity`: every row describes its value; every history value has a row and no value has two; scores never increase |
| Recommender.SumWithinCount | src/recommender.py:24 | with sentiments in [-1, 1], a value's sentiment total lies within ± its count |
| Recommender.MeanBounds | src/recommender.py:26 | a mean of such a total lies in [-1, 1], and `n * (1 + mean)` lies in [0, 2n] |
| Recommender.DescribedInRange | src/recommender.py:24-26 | an affinity row has mean in [-1, 1] and score in [0, 2 * count] |
| Recommender.AffinityInRange | src/recommender.py:22-34 | every affinity score is non-negative and at most twice its count |
| Recommender.Preferred | src/recommender.py:44-45 | `head(3).index`: at most three values, taken in table order; in a table of non-increasing score no value left out scores above a kept one |
| Recommender.UniformPreferred | src/recommender.py:22-45 | a history whose rows all carry one value prefers exactly that value |
| Recommender.DistinctOfConstant | src/recommender.py:23 | a column that carries one value throughout has that value as its only distinct value |
| Recommender.SingleHistoryPreferred | src/recommender.py:40-45 | a one-row history prefers exactly that row's brand and category |
| Recommender.Where | src/recommender.py:47-54 | a boolean mask: exactly the positions below n that satisfy the predicate, in increasing order |
| Recommender.PrimaryRows | src/recommender.py:47-51 | exactly the rows outside the history, of a preferred brand or category, and at or above the threshold, in table order |
| Recommender.NonHistoryRows | src/recommender.py:54 | exactly the rows outside the history, in table order |
| Recommender.Candidates | src/recommender.py:47-54 | candidates are rows outside the history. If any row passes the primary filter, they are exactly those rows; otherwise they are exactly the rows outside the history |
| Recommender.CandidateExists | src/recommender.py:53-54 | a row outside the history guarantees at least one candidate |
| Recommender.SingleCandidate | src/recommender.py:47-54 | with the history row's brand and category preferred, the one other row of that brand is the only candidate |
| Recommender.WithScore | src/recommender.py:56-61 | exactly the candidates whose score is a number (or, asked for the other side, NaN), in table order |
| Recommender.ScoreSplit | src/recommender.py:56-61 | every candidate lands on exactly one of the two sides |
| Recommender.JoinInOrder | src/recommender.py:61 | the numeric scores ranked highest first, followed by the NaN scores in table order, are in `nlargest`'s order (`AheadOf`) |
| Recommender.TopN | src/recommender.py:56-61 | `nlargest(n, 'score')` over the candidate score (`CandidateScore`: the sentiment, or `sentiment * 0.5 + rating / 5 * 0.5` when the table has a rating column, NaN for a row without a rating, see `HasScore`): min(n, candidates) distinct candidates, each one ahead of every later one in `nlargest`'s order. That order puts numbers before NaN, a higher number first, and equal numbers and NaNs in table order. No candidate left out comes ahead of a returned one |
| Recommender.TopNNonEmpty | src/recommender.py:61 | with n ≥ 1, any candidate guarantees a non-empty result |
| Recommender.TopOfOne | src/recommender.py:61 | the best one of a single candidate is that candidate |
| Recommender.Recommended | src/recommender.py:40-61 | a trained table's recommendation has at most `top_n` rows, each a table row outside the history |
| Recommender.Recommendations | src/recommender.py:36-62 | untrained gives `[]`; an out-of-range history position is an error, and so is a table without sentiment columns; a result has at most max(`top_n`, 0) rows, none from the history, all in the table |
| Recommender.BestArePrimary | src/recommender.py:47-61 | when any row passes the primary filter, every recommended row passes it |
| Recommender.BestOfFallback | src/recommender.py:53-61 | when none passes and a row outside the history with a numeric score was left out, every recommended row has a numeric score, and none is lower than the left-out row's |
| Recommender.RecommendationsAreBest | src/recommender.py:47-61 | both of the above, for any preference lists, including those `Recommended` uses |
| Recommender.RecommendedNonEmpty | src/recommender.py:53-61 | with a row outside the history and `top_n` ≥ 1, the recommendation is not empty, whatever the ratings |
| Recommender.FallbackNonEmpty | src/recommender.py:36-62 | under the same conditions a trained engine returns a non-empty list |
| Recommender.RecommendedOne | src/recommender.py:40-61 | one history row whose brand exactly one other row shares, with no other row sharing its brand or category: `top_n = 1` recommends that row |
| Recommender.SharedBrandScenario | src/recommender.py:36-62 | the same scenario through `recommend`: the result is `Ok([b])` |
| Recommender.RecommendationSystem.constructor | src/recommender.py:7-10 | a new engine has no table |
| Recommender.RecommendationSystem.Train | src/recommender.py:12-20 | `train` stores the given table, replacing any earlier one |
| Recommender.RecommendationSystem.Recommend | src/recommender.py:36-62 | `recommend` returns `Recommendations` of the stored table: `[]` untrained, at most `top_n` rows, none from the history |

## Left out

- `load_data` and the tokenizer-data download in the `DataProcessor` constructor are left out. They are file and network I/O.
- The TF-IDF vectoriser is left out, along with the `product_features` that `train` computes from it. `recommend` never reads them. `fit_transform` raises where `Train` does not: `ValueError` (empty vocabulary) when every text is empty or a stop word, as for an empty table with a text column or all-NaN texts, and an error on a non-string text cell. In each such case `self.df` was already assigned, so the engine is trained all the same.
- `train` returns `self`. `Train` returns nothing, because the model has no use for chaining.
- The sentiment scorer (TextBlob) is an opaque parameter whose values lie in [-1, 1]. Its lexicon and algorithm are not modelled.
- `src/predict.py` and `src/train.py` are not part of this model. They are command-line drivers around the two classes.
- Floating point is modelled as exact `real` arithmetic. Rounding in `count * (1 + mean)` and in the candidate score is not modelled.
- The default arguments `top_n=5` and `sentiment_threshold=0.0` are not modelled. Callers pass both.
- History positions have type `nat`, so `iloc`'s negative (from-the-end) positions are not modelled.
- The model assumes the table's default index 0..n-1. With that index the history test `index.isin(history)` compares the same numbers as `iloc` does. A table with any other index is not modelled.
- A raw column that already has a derived name (`brand`, `category`, `sentiment_score`, `sentiment_label`, `rating`) is not modelled. Its values would be overwritten or kept as pandas does.
- Text.Lower: lower-cases only the ASCII letters. Python's `str.lower()` also maps non-ASCII letters. Every keyword is ASCII, but a non-ASCII capital in the text is not lowered here.
- DataProcessor.ProcessReviews: returns a new table holding only the derived fields. Neither the in-place update of the caller's frame nor the raw columns that frame carries are modelled. `recommend` reads neither, apart from the name collisions listed above.
- DataProcessor.ToNumeric: only the numeral form `[+-]digits[.digits]` parses (`.5` and `5.` included). Surrounding whitespace, exponents and `inf` strings, which pandas also accepts, give absent here.
- DataProcessor.ExtractBrand: a number in the name column is read through its `str()` rendering. That rendering is supplied with the cell (`Cell.Num`'s `shown`) and is not computed. The unused `text` argument of `extract_brand` is dropped.
- Recommender.AffinityTable: equal affinity scores are ordered by where each value first appears in the history. pandas' `sort_values` uses quicksort, which is not stable, over an index sorted by value, so its order of ties is undefined. Only the top three are used, so this matters only when a tie straddles third place.
- Recommender.TopN: when `top_n` is at least the number of candidates, pandas answers `nlargest` with `sort_values(ascending=False).head(n)`. That sort is quicksort, so its order of equal numeric scores is undefined; the model keeps table order there too. The set of rows returned is the same either way.
- Recommender.Recommendations: the exceptions `recommend` raises are modelled as `Err` values, not as raised exceptions. A table enriched without a text column has no `sentiment_score` column, so `recommend` raises `KeyError`, modelled as `MissingColumn`. A history position outside the table raises `IndexError` as `iloc` does, modelled as `PositionOutOfRange`; this includes any non-empty history on an empty table.

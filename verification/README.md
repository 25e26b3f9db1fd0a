# AI Shopping Helper: a Dafny model of its scoring, catalog, ranking and parsing logic

AI Shopping Helper scrapes product pages or reads product photos and turns what it finds into product records. It scores each product against a category scorecard, stores the products in a SQLite catalog, and suggests cheaper alternatives and similar products. This project models the pure logic of that pipeline in Dafny 4 and proves properties of the model:

- **Quality scoring** (`QualityScorer`).
  - Per-category normalisation turns free-text specifications into numeric features, using keyword tests and "digit run followed by a unit" scans.
  - A weighted scorecard turns the features into a score in [0, 100].
  - A rating multiplier turns that score into the final score.
  - Arithmetic is exact, over `real`.
- **The catalog queries** (`ProductDb`).
  - Alternatives, category pages, search, add, update and delete.
  - Each is a pure function over a sequence of rows, with SQLite's `ORDER BY`, `LIMIT`, `OFFSET` and `LIKE` written out.
- **Recommendations** (`Recommendations`).
  - Embeddings, the vector index and cosine similarity are inputs.
  - What is modelled is target lookup, self-exclusion, the `1/(1+d)` score, ranking, the cut to `k`, the 100-character preview, the SQLite rebuild and the `USE_CHROMA` flag.
- **Helpers** (`Helpers`, `CacheManager`, `RateLimiter`).
  - Price and rating extraction, platform detection from a host, record validation, pagination, the savings percentage and product-name normalisation.
  - The FIFO cache and the sliding-window rate limiter, with the clock passed as an argument.
- **Scraper and OCR parsers** (`ProductScraper`, `ImageProcessor`, `Categories`, `SpecPatterns`).
  - Everything that happens after a page has been fetched or an image has been read: price parsing, specification extraction, ordered keyword category detection and URL dispatch.
  - OCR text parsing.

The supporting modules play these roles:

- `Base` holds `Option` and small arithmetic facts.
- `Chars` holds ASCII character classes, lower-casing, `strip`, `split`, `join` and substring search.
- `Numbers` holds `int()`/`float()` conversions, floor division and `round`.
- `Dicts` models Python's insertion-ordered dicts.
- `Regex` is a small matcher for the exact regular-expression shapes the program uses, with leftmost-first search and Python's greedy backtracking.

Several definitions model code that behaves differently from what it evidently intends. The model keeps the code as written next to a corrected definition; see "## Findings".

Behaviours of the code worth knowing:

- **Empty specifications score differently in each category.**
  - Headphones without specifications score 48, because the normaliser always emits noise cancellation 0 and build quality 3.
  - Clothing always scores 72.
  - `general` scores 100 with any specification and 70 without.
  - Only laptops score exactly 60, since their normaliser emits nothing.
- **The embedding rebuild does not always clear the store.** With no described product it returns before touching the store (`Recommendations.Rebuild`).
- **The vector-index branch does not look products up in the catalog.** It fills name, category, price, rating and platform from the index's own metadata. Only the SQLite branch looks products up, and it skips ids with no catalog row.
- **`is_valid_url` accepts any scheme.** It requires only a non-empty scheme and host, so an `ftp://` URL is valid (`Helpers.IsValidUrl`). The repository's test `test_invalid_urls` (AI_Shopping_Helper/tests/test_core.py:95-102) expects `ftp://example.com` to be rejected.
- **The OCR parser's exception handler is unreachable.** Nothing in `_parse_product_text` can raise on a string, so `ImageProcessor.ParseProductText` always returns a full record.
- **A selector that finds an element with no text still counts as found.** When that is the first element found, the name is the empty string, not "Unknown Product" (`ProductScraper.FirstText`).
- **A text field holding `None` or a non-text value raises.** `validate_product_data` calls `.strip()` on the name, category, platform, URL, image URL and description without a handler, so such a record has no validated form (`Helpers.Validate`, `Helpers.NoneNameRaises`).
- **A `_parse_price` result of 0 is passed over.** A selector whose text parses to 0 counts as not found (`ProductScraper.SelectorPrice`).

## Model

| member | source | states |
|---|---|---|
| QualityScorer.ReferenceValuesPositive | AI_Shopping_Helper/backend/ai_scoring/quality_scorer.py:68-98 | every value in the reference table is positive, so no lookup in it can cause a division by zero |
| QualityScorer.NewScorer | AI_Shopping_Helper/backend/ai_scoring/quality_scorer.py:15-66 | a new scorer registers exactly the seven built-in categories |
| QualityScorer.BuiltinWeightsSumTo100 | AI_Shopping_Helper/backend/ai_scoring/quality_scorer.py:17-66 | the weights of every built-in scorecard add up to 100 |
| QualityScorer.GetCategoryScorecard | AI_Shopping_Helper/backend/ai_scoring/quality_scorer.py:407-409 | a registered category gets its own scorecard; any other category gets the `general` one |
| QualityScorer.AddCustomScorecard | AI_Shopping_Helper/backend/ai_scoring/quality_scorer.py:411-413 | registration adds exactly the one category (or replaces it), stores the given card under it, and leaves every other category's card unchanged |
| QualityScorer.AddThenGet | AI_Shopping_Helper/backend/ai_scoring/quality_scorer.py:407-413 | after registering a card, looking the category up returns that card, and lookups of other registered categories return what they returned before |
| QualityScorer.GetEither | AI_Shopping_Helper/backend/ai_scoring/quality_scorer.py:244 | `specs.get(a, specs.get(b, ''))`: the value under `a` when present, otherwise the value under `b`, otherwise the empty string |
| QualityScorer.ExtractNumeric | AI_Shopping_Helper/backend/ai_scoring/quality_scorer.py:375-405 | empty text gives no value; every value found is non-negative |
| QualityScorer.FirstUnitMatchIsScan | AI_Shopping_Helper/backend/ai_scoring/quality_scorer.py:393-403 | trying the `(\d+)\s*unit` patterns in order with a regular-expression search gives the same result as the reference scan: the first maximal digit run followed by optional whitespace and the first unit that has one |
| QualityScorer.ExtractNumericIsScan | AI_Shopping_Helper/backend/ai_scoring/quality_scorer.py:388-405 | on non-empty text the extracted value is that of the reference scan of the lower-cased text, multiplied by 1000 exactly when "khz" occurs anywhere in it |
| QualityScorer.Record | AI_Shopping_Helper/backend/ai_scoring/quality_scorer.py:216-217 | `if value: normalized[key] = value`: a found non-zero value is stored under the key; a missing or zero value leaves the features exactly as they were; every other key keeps its presence and its value |
| QualityScorer.Ordinal | AI_Shopping_Helper/backend/ai_scoring/quality_scorer.py:234-241 | an ordinal feature is one of 2, 3 and 5: 5 when a premium word occurs, otherwise 2 when a basic word occurs, otherwise the default 3 |
| QualityScorer.Flag | AI_Shopping_Helper/backend/ai_scoring/quality_scorer.py:226-232 | a keyword feature is 1 exactly when one of its keywords occurs and 0 exactly when none does |
| QualityScorer.KeyedValue | AI_Shopping_Helper/backend/ai_scoring/quality_scorer.py:212-215 | a measurement exists only when one of its two keys is in the specifications; then it is exactly the number extracted from `specs.get(a, specs.get(b, ''))` |
| QualityScorer.NormalizeHeadphones | AI_Shopping_Helper/backend/ai_scoring/quality_scorer.py:208-249 | only the five headphone features can appear; noise cancellation is the keyword flag and build quality the material ordinal of the joined lower-cased values; battery life and driver size are the non-zero keyed measurements (in hours and millimetres) and frequency response the non-zero measurement in Hz or kHz, each absent when there is none |
| QualityScorer.BladeQuality | AI_Shopping_Helper/backend/ai_scoring/quality_scorer.py:261-270 | blade quality is 5 exactly when "stainless steel" or "titanium" occurs, 3 exactly when none of the four materials occurs, and 4 otherwise |
| QualityScorer.NormalizeTrimmer | AI_Shopping_Helper/backend/ai_scoring/quality_scorer.py:251-284 | only four trimmer features can appear (never `charging_time`); blade material is the blade rating and waterproof the keyword flag of the joined values; runtime (minutes, from `runtime` or `Battery Life`) and attachments (from `attachments` or `Accessories`) are their non-zero measurements, absent otherwise |
| QualityScorer.NormalizeMixer | AI_Shopping_Helper/backend/ai_scoring/quality_scorer.py:286-308 | only power, jar count and speed settings can appear (never warranty or safety features); each is the non-zero measurement of its value (watts, a count, a count), absent otherwise |
| QualityScorer.NormalizeSmartphone | AI_Shopping_Helper/backend/ai_scoring/quality_scorer.py:310-332 | only camera, battery and RAM can appear (never processor or storage); each is the non-zero measurement of its value (MP, mAh, GB), absent otherwise |
| QualityScorer.NormalizeClothing | AI_Shopping_Helper/backend/ai_scoring/quality_scorer.py:343-361 | clothing yields exactly one feature, the material: the fabric ordinal (5 premium, 2 basic, else 3) of the joined lower-cased values |
| QualityScorer.NormalizeGeneral | AI_Shopping_Helper/backend/ai_scoring/quality_scorer.py:363-373 | general yields exactly four features: quality, durability and value at 3, and features at the number of specification entries |
| QualityScorer.Normalize | AI_Shopping_Helper/backend/ai_scoring/quality_scorer.py:174-206 | each of headphones, trimmer, mixer, smartphone and clothing is normalised by its own normaliser, a laptop yields no feature at all, and any other category is normalised as general |
| QualityScorer.MeasuredIsScan | AI_Shopping_Helper/backend/ai_scoring/quality_scorer.py:375-405 | a feature recorded from `_extract_numeric_value` holds the reference scan of its value: present exactly when the scan finds a non-zero number, and then that number |
| QualityScorer.KeyedIsScan | AI_Shopping_Helper/backend/ai_scoring/quality_scorer.py:212-224 | a keyed measurement holds the reference scan of the keyed value when one of its keys is present, and is absent otherwise |
| QualityScorer.HeadphonesAreScans | AI_Shopping_Helper/backend/ai_scoring/quality_scorer.py:212-247 | battery life, driver size and frequency response of headphones are the reference scans of their values, the first two only when one of their keys is present |
| QualityScorer.TrimmerAreScans | AI_Shopping_Helper/backend/ai_scoring/quality_scorer.py:255-282 | a trimmer's runtime and attachments are the reference scans of their values |
| QualityScorer.MixerAreScans | AI_Shopping_Helper/backend/ai_scoring/quality_scorer.py:290-306 | a mixer's power, jar count and speed settings are the reference scans of their values |
| QualityScorer.SmartphoneAreScans | AI_Shopping_Helper/backend/ai_scoring/quality_scorer.py:314-330 | a smartphone's camera, battery and RAM are the reference scans of their values |
| QualityScorer.Share | AI_Shopping_Helper/backend/ai_scoring/quality_scorer.py:131-133 | `min(value / reference, 1)` is at most 1, is non-negative for a non-negative value, and is exactly 1 from the reference value on |
| QualityScorer.ShareMonotone | AI_Shopping_Helper/backend/ai_scoring/quality_scorer.py:131-133 | a larger value never reaches a smaller share of a positive reference |
| QualityScorer.SharePoints | AI_Shopping_Helper/backend/ai_scoring/quality_scorer.py:130-133 | points stay between 0 and the weight; a full share earns the whole weight (nothing for `charging_time`), a zero share earns nothing (the whole weight for `charging_time`) |
| QualityScorer.SharePointsMonotone | AI_Shopping_Helper/backend/ai_scoring/quality_scorer.py:130-133 | a larger share never earns fewer points, except for `charging_time`, where it never earns more |
| QualityScorer.PresentPointsMonotone | AI_Shopping_Helper/backend/ai_scoring/quality_scorer.py:125-133 | more of an ordinary feature never earns fewer points, and a longer charging time never earns more |
| QualityScorer.FeaturePoints | AI_Shopping_Helper/backend/ai_scoring/quality_scorer.py:124-138 | a missing feature earns exactly 60% of its weight; a present one is measured against its reference value, or against 1 when the table has none; the computation fails exactly on a zero reference value |
| QualityScorer.Clamp | AI_Shopping_Helper/backend/ai_scoring/quality_scorer.py:144 | the clamped score lies in [0, 100] and a score already inside is unchanged |
| QualityScorer.ResolveCategory | AI_Shopping_Helper/backend/ai_scoring/quality_scorer.py:112-113 | the category scored under always has a scorecard |
| QualityScorer.QualityScore | AI_Shopping_Helper/backend/ai_scoring/quality_scorer.py:100-148 | the quality score always lies in [0, 100]; a scorecard whose weights sum to 0 falls back to 60 |
| QualityScorer.UnknownCategoryIsGeneral | AI_Shopping_Helper/backend/ai_scoring/quality_scorer.py:112-113 | an unregistered category scores exactly as `general` |
| QualityScorer.AllMissing | AI_Shopping_Helper/backend/ai_scoring/quality_scorer.py:136-138 | a scorecard none of whose features was found totals exactly 60% of its weights |
| QualityScorer.FullPoints | AI_Shopping_Helper/backend/ai_scoring/quality_scorer.py:125-133 | a feature found at or above its reference value (1 when there is none) earns its full weight |
| QualityScorer.LaptopScoresSixty | AI_Shopping_Helper/backend/ai_scoring/quality_scorer.py:334-341 | with the built-in laptop scorecard every laptop scores exactly 60, whatever its specifications |
| QualityScorer.ClothingScoresSeventyTwo | AI_Shopping_Helper/backend/ai_scoring/quality_scorer.py:343-361 | with the built-in clothing scorecard every clothing product scores exactly 72, whatever its specifications |
| QualityScorer.GeneralScore | AI_Shopping_Helper/backend/ai_scoring/quality_scorer.py:363-373 | with the built-in general scorecard a product scores 100 when it has at least one specification and 70 when it has none |
| QualityScorer.EmptyHeadphonesFeatures | AI_Shopping_Helper/backend/ai_scoring/quality_scorer.py:208-249 | headphones without specifications get only noise cancellation 0 and build quality 3 |
| QualityScorer.EmptyHeadphonesPoints | AI_Shopping_Helper/backend/ai_scoring/quality_scorer.py:124-138 | those two features earn 48 of the headphone scorecard's 100 points |
| QualityScorer.EmptyHeadphonesScoreFortyEight | AI_Shopping_Helper/backend/ai_scoring/quality_scorer.py:100-148 | headphones without specifications score 48, not 60 |
| QualityScorer.FinalScore | AI_Shopping_Helper/backend/ai_scoring/quality_scorer.py:150-172 | a rating of 5 gives the quality score rounded to two places, a rating of 0 gives 0, and a failed computation gives 80% of the quality score |
| QualityScorer.FinalScoreBounds | AI_Shopping_Helper/backend/ai_scoring/quality_scorer.py:161-168 | a quality score in [0, 100] and a rating in [0, 5] give a final score in [0, 100] |
| QualityScorer.FinalScoreMonotone | AI_Shopping_Helper/backend/ai_scoring/quality_scorer.py:161-168 | a higher quality score or a higher rating never gives a lower final score |
| QualityScorer.FinalScoreExample | AI_Shopping_Helper/backend/ai_scoring/quality_scorer.py:161-168 | quality 80 with rating 4.5 gives 72 |
| ProductDb.Sort | AI_Shopping_Helper/backend/database/product_db.py:40 | `ORDER BY final_score DESC, price ASC` yields a permutation of the rows in which no row is listed after one it ranks strictly above |
| ProductDb.Filter | AI_Shopping_Helper/backend/database/product_db.py:36-39 | the WHERE clause keeps every qualifying row as often as it occurs and no other row |
| ProductDb.Ranked | AI_Shopping_Helper/backend/database/product_db.py:33-40 | the ordered result is a permutation of the qualifying rows: each qualifying row exactly as often as it is stored, no other row, and no row listed after one it ranks strictly above |
| ProductDb.Take | AI_Shopping_Helper/backend/database/product_db.py:41 | `LIMIT n` keeps the first n rows; a negative limit keeps them all |
| ProductDb.Skip | AI_Shopping_Helper/backend/database/product_db.py:91 | `OFFSET n` drops the first n rows; a negative offset drops none |
| ProductDb.TakeRankedIsTop | AI_Shopping_Helper/backend/database/product_db.py:33-47 | a limited ordered query returns only qualifying rows, each no more often than it is stored, in order, at most `limit` of them, and leaves a qualifying row out only when the limit is filled by rows ranked at least as high |
| ProductDb.AlternativeRows | AI_Shopping_Helper/backend/database/product_db.py:33-47 | the alternatives are the top rows, in the sense of `TakeRankedIsTop`, of the category with price at most the cap and final score at least 90% of the target: none repeated beyond its stored count, and none left out unless `limit` rows rank at least as high |
| ProductDb.FindAlternatives | AI_Shopping_Helper/backend/database/product_db.py:18-67 | one result per selected row, in order; empty specs stay as they are, valid JSON is decoded, invalid JSON becomes `{}`; a failing connection gives `[]` |
| ProductDb.ProductsByCategory | AI_Shopping_Helper/backend/database/product_db.py:80-99 | a page holds only rows of the category, in query order, at most `limit` of them; a failing connection gives `[]` |
| ProductDb.PageContents | AI_Shopping_Helper/backend/database/product_db.py:83-95 | page p holds exactly the ranked category rows from position (p-1)*limit on, as many as the limit and the remaining rows allow |
| ProductDb.EveryRowOnItsPage | AI_Shopping_Helper/backend/database/product_db.py:83-95 | the ranked row at position j appears on page j div limit + 1, at position j mod limit |
| ProductDb.Offset | AI_Shopping_Helper/backend/database/product_db.py:83 | the offset of a page from 1 on with a non-negative limit is never negative |
| ProductDb.LikePrefix | AI_Shopping_Helper/backend/database/product_db.py:218 | for a query without wildcards, `q%` matches exactly the texts that start with q, ignoring ASCII case |
| ProductDb.LikeSubstring | AI_Shopping_Helper/backend/database/product_db.py:218-221 | for a query without wildcards, `%q%` matches exactly the texts that contain q, ignoring ASCII case |
| ProductDb.SearchProducts | AI_Shopping_Helper/backend/database/product_db.py:211-235 | the result is the top of the rows whose name or description matches `%query%`, in the category when one is given, in the sense of `TakeRankedIsTop`: in order, at most `limit` of them, none repeated beyond its stored count; a failing connection gives `[]` |
| ProductDb.SearchMeansSubstring | AI_Shopping_Helper/backend/database/product_db.py:218-225 | a row qualifies exactly when the query occurs in its name or description, ignoring case, and it is in the requested category (if any) |
| ProductDb.Apply | AI_Shopping_Helper/backend/database/product_db.py:147-156 | updating keeps the id, and an update naming no allowed field changes nothing |
| ProductDb.UpdateRows | AI_Shopping_Helper/backend/database/product_db.py:162-164 | `WHERE id = ?`: rows with that id get the update and every other row is unchanged |
| ProductDb.UpdateProduct | AI_Shopping_Helper/backend/database/product_db.py:140-169 | with no allowed field the table is untouched and the result is False; otherwise only rows with the id change and the result is True exactly when such a row exists |
| ProductDb.UpdateKeepsValid | AI_Shopping_Helper/backend/database/product_db.py:140-169 | an update keeps ids unique and below the next id |
| ProductDb.AddProduct | AI_Shopping_Helper/backend/database/product_db.py:101-138 | the row written under the next id holds the supplied fields and the defaults (category `general`, price 0, rating 4.0, specs `{}`, scores 0) for the others; the id is returned; validity is kept |
| ProductDb.FindById | AI_Shopping_Helper/backend/database/product_db.py:182-209 | a row is found exactly when one has the id, and the row found has it |
| ProductDb.AddThenFind | AI_Shopping_Helper/backend/database/product_db.py:101-138 | looking up the returned id finds exactly the row that was added |
| ProductDb.Without | AI_Shopping_Helper/backend/database/product_db.py:174 | `DELETE ... WHERE id = ?` keeps exactly the rows with another id, and shrinks the table exactly when a row had the id |
| ProductDb.WithoutKeepsValid | AI_Shopping_Helper/backend/database/product_db.py:171-180 | removing rows keeps ids unique and below the next id |
| ProductDb.DeleteProduct | AI_Shopping_Helper/backend/database/product_db.py:171-180 | the result is True exactly when a row had the id; afterwards no row has it and every other row is still there |
| ProductDb.Insert | AI_Shopping_Helper/backend/database/product_db.py:40 | inserting into an ordered result gives an ordered result holding one more row, the inserted one |
| ProductDb.Window | AI_Shopping_Helper/backend/database/product_db.py:83-91 | `LIMIT n OFFSET o` returns the rows from position o on, as many as n and the remaining rows allow |
| ProductDb.WindowOfRanking | AI_Shopping_Helper/backend/database/product_db.py:83-91 | a window of an ordered result is ordered, draws its rows from it, and holds at most `limit` rows |
| Recommendations.UseChroma | AI_Shopping_Helper/backend/ai/recommendations.py:51-52 | the vector index is used when the variable is unset, and otherwise exactly when its lower-cased value is none of "0", "false", "no" |
| Recommendations.UseChromaIgnoresCase | AI_Shopping_Helper/backend/ai/recommendations.py:51-52 | the backend choice does not depend on the letter case of the variable |
| Recommendations.Preview | AI_Shopping_Helper/backend/ai/recommendations.py:260 | a description of at most 100 characters is shown whole; a longer one is cut to its first 100 characters followed by "...", so a preview never exceeds 103 characters and always agrees with the description on its first 100 |
| Recommendations.ProductTextParts | AI_Shopping_Helper/backend/ai/recommendations.py:144 | the embedded text begins with the product name and ends with the description, joined by a three-character separator |
| Recommendations.Similarity | AI_Shopping_Helper/backend/ai/recommendations.py:251 | the score is undefined exactly at distance -1 (the division by zero propagates); for any non-negative distance it lies in (0, 1], and it is the reciprocal of one plus the distance |
| Recommendations.SimilarityDecreasing | AI_Shopping_Helper/backend/ai/recommendations.py:251 | of two neighbours, the farther one is strictly less similar |
| Recommendations.Target | AI_Shopping_Helper/backend/ai/recommendations.py:216-227 | the target found is a catalog product with the requested id and a non-empty description; when none is found, every product with that id has an empty description |
| Recommendations.ChromaLoop | AI_Shopping_Helper/backend/ai/recommendations.py:243-264 | the loop as written never returns the target and keeps what it had collected as a prefix; when every distance is defined it appends exactly the first `k - collected` neighbours other than the target, in the index's order, or the first one when nothing more is wanted |
| Recommendations.ChromaRecommend | AI_Shopping_Helper/backend/ai/recommendations.py:234-264 | the index branch as written never recommends the target; when every distance is defined it returns the first `k` neighbours other than the target in the index's order (one for `k = 0`); it fails only at a distance of -1 |
| Recommendations.ChromaZeroReturnsOne | AI_Shopping_Helper/backend/ai/recommendations.py:261-263 | asked for zero recommendations, the index branch as written still returns one product, because it appends before it compares the count |
| Recommendations.ChromaLoopFixed | AI_Shopping_Helper/backend/ai/recommendations.py:243-264 | the loop with the count checked first never returns the target, keeps its prefix and, when every distance is defined, appends exactly the first neighbours other than the target up to `max(k, 0)` in all |
| Recommendations.ChromaRecommendFixed | AI_Shopping_Helper/backend/ai/recommendations.py:234-264 | the corrected index branch returns exactly the first `max(k, 0)` neighbours other than the target when every distance is defined, and fails only at a distance of -1 |
| Recommendations.Neighbours | AI_Shopping_Helper/backend/ai/recommendations.py:243-258 | the reference reading of the index's answer: one record per neighbour other than the target, in order, never the target and never more than the neighbours |
| Recommendations.ChromaFixedAgrees | AI_Shopping_Helper/backend/ai/recommendations.py:243-264 | for every `k >= 1` the corrected branch gives exactly the answer of the code as written, so the correction only changes `k = 0` (and the loop's reading of a negative `k`) |
| Recommendations.ChromaOrdered | AI_Shopping_Helper/backend/ai/recommendations.py:238-264 | when the index answers nearest first with non-negative distances, the recommendations come out from most to least similar |
| Recommendations.SortPairs | AI_Shopping_Helper/backend/ai/recommendations.py:294 | sorting by similarity yields a non-increasing ranking that is a permutation of its input |
| Recommendations.SliceTo | AI_Shopping_Helper/backend/ai/recommendations.py:297 | Python's `s[:k]` keeps a prefix: `min(k, len)` elements for non-negative `k`, and all but the last `-k` otherwise |
| Recommendations.Chosen | AI_Shopping_Helper/backend/ai/recommendations.py:293-305 | the pairs used are a ranking, drawn from the stored pairs, never the target, each with a catalog row, and no more than `k` of them |
| Recommendations.SqliteRecommend | AI_Shopping_Helper/backend/ai/recommendations.py:265-318 | with no stored embedding nothing is returned; otherwise every record is a product other than the target with a catalog row and a stored embedding whose similarity, rounded to four places, it carries; records are ranked by similarity and there are at most `k` |
| Recommendations.SqliteKeepsBest | AI_Shopping_Helper/backend/ai/recommendations.py:293-305 | a stored product with a catalog row that is not the target and is left out of the result was cut off by `k`: there were more than `k` candidates and every returned record is at least as similar |
| Recommendations.ChosenKeepsBest | AI_Shopping_Helper/backend/ai/recommendations.py:293-297 | a candidate with a catalog row missing from the chosen pairs lost to the cut at `k`, behind pairs at least as similar |
| Recommendations.GetRecommendations | AI_Shopping_Helper/backend/ai/recommendations.py:194-325 | as written: a missing or undescribed target gives an empty list; the SQLite backend gives exactly the SQLite recommendations; the index gives the first `k` neighbours other than the target (one for `k = 0`) when every distance is defined, and fails only at a distance of -1; the target is never recommended |
| Recommendations.GetRecommendationsFixed | AI_Shopping_Helper/backend/ai/recommendations.py:194-325 | with the count compared before appending: a missing target gives an empty list, SQLite gives exactly the SQLite recommendations, the index gives the first `max(k, 0)` neighbours other than the target when every distance is defined, and at most `max(k, 0)` products are ever returned |
| Recommendations.GetRecommendationsFixedAgrees | AI_Shopping_Helper/backend/ai/recommendations.py:243-264 | the corrected entry point gives exactly the answer of the code as written on the SQLite backend and, on the index, for every `k >= 1` |
| Recommendations.Described | AI_Shopping_Helper/backend/ai/recommendations.py:101-105 | the rebuild reads exactly the catalog products with a non-empty description |
| Recommendations.StoreAll | AI_Shopping_Helper/backend/ai/recommendations.py:179-184 | after the inserts the table's ids are the old ones plus every inserted product's id, and rows of ids not inserted are unchanged |
| Recommendations.StoreAllValue | AI_Shopping_Helper/backend/ai/recommendations.py:179-184 | the row stored for a product holds the encoding of its own text when no later product has the same id |
| Recommendations.Rebuild | AI_Shopping_Helper/backend/ai/recommendations.py:127-186 | with no described product the table is left untouched; otherwise it holds one row per described product and no other |
| Recommendations.RebuildValues | AI_Shopping_Helper/backend/ai/recommendations.py:141-186 | with unique catalog ids, each described product's row holds the encoding of "name - description" |
| Recommendations.DescribedUnique | AI_Shopping_Helper/backend/ai/recommendations.py:101-105 | the filter for described products keeps catalog ids unique |
| Recommendations.ChromaLoopFixedAgrees | AI_Shopping_Helper/backend/ai/recommendations.py:243-264 | from any partial result shorter than a positive `k`, the corrected loop continues exactly as the loop as written |
| Recommendations.InsertPair | AI_Shopping_Helper/backend/ai/recommendations.py:294 | inserting into a ranking gives a ranking holding one more pair, the inserted one |
| Recommendations.ExcludeId | AI_Shopping_Helper/backend/ai/recommendations.py:293 | the candidate pairs are exactly the stored pairs of other products |
| Recommendations.WithRow | AI_Shopping_Helper/backend/ai/recommendations.py:300-305 | a chosen pair is kept exactly when its product has a catalog row, and the order is kept |
| Recommendations.ToRecs | AI_Shopping_Helper/backend/ai/recommendations.py:300-316 | each chosen pair becomes one record, in order, carrying its product id and its similarity rounded to four places |
| Recommendations.ToRecsOrdered | AI_Shopping_Helper/backend/ai/recommendations.py:294-316 | rounding keeps the records ranked by similarity |
| Helpers.FirstAccepted | AI_Shopping_Helper/backend/utils/helpers.py:46-55 | the loop yields a value exactly when some search from the current one on found a capture that converts, and then it is the value of such a capture |
| Helpers.FirstMatchValue | AI_Shopping_Helper/backend/utils/helpers.py:46-55 | trying the patterns in order yields a value exactly when some pattern finds a capture that converts, and that value is the converted capture of the first such pattern |
| Helpers.NoSearchNoValue | AI_Shopping_Helper/backend/utils/helpers.py:46-55 | when no pattern matches, there is no value |
| Helpers.PriceValue | AI_Shopping_Helper/backend/utils/helpers.py:49-51 | a capture converts, after removing its commas, to a non-negative number or not at all |
| Helpers.ExtractPrice | AI_Shopping_Helper/backend/utils/helpers.py:33-55 | empty text has no price; a price is found exactly when one of the four patterns finds a capture that converts, and it is the comma-free value of the first such pattern's capture; it is never negative |
| Helpers.PriceNeedsMarker | AI_Shopping_Helper/backend/utils/helpers.py:39-44 | text without any of the markers ₹, Rs, INR or Price, in any letter case, has no price |
| Helpers.FirstMatchDecides | AI_Shopping_Helper/backend/utils/helpers.py:46-51 | the first pattern that matches with a convertible capture decides the value |
| Helpers.PriceExample | AI_Shopping_Helper/backend/utils/helpers.py:33-55 | "₹2,499" gives the price 2499 |
| Helpers.RatingValue | AI_Shopping_Helper/backend/utils/helpers.py:73-76 | a capture gives a rating only when it parses to a number between 0 and 5 |
| Helpers.ExtractRating | AI_Shopping_Helper/backend/utils/helpers.py:58-80 | empty text has no rating; a rating is found exactly when some pattern's capture parses into [0, 5], and it is the value of the first such pattern, so an out-of-range match moves on to the next pattern |
| Helpers.RatingNeedsDigits | AI_Shopping_Helper/backend/utils/helpers.py:63-68 | text with no digit that does not mention "rating" has no rating |
| Helpers.RatingExample | AI_Shopping_Helper/backend/utils/helpers.py:58-80 | "4.5/5" gives the rating 4.5 |
| Helpers.FirstPlatform | AI_Shopping_Helper/backend/utils/helpers.py:123-138 | the platform search answers "unknown" exactly when no remaining keyword occurs in the domain |
| Helpers.GetPlatformName | AI_Shopping_Helper/backend/utils/helpers.py:117-140 | the platform is "unknown" exactly when none of the seven keywords occurs in the lower-cased host with "www." removed; otherwise some keyword occurs there |
| Helpers.IsSupportedPlatform | AI_Shopping_Helper/backend/utils/helpers.py:105-114 | a host is supported exactly when its lower-cased form with "www." removed contains one of the eight supported domains |
| Helpers.SupportedIsNamed | AI_Shopping_Helper/backend/utils/helpers.py:85-138 | every supported host is named by a platform other than "unknown" |
| Helpers.PlatformIgnoresCase | AI_Shopping_Helper/backend/utils/helpers.py:105-140 | neither the platform name nor support depends on the letter case of the host |
| Helpers.CleanName | AI_Shopping_Helper/backend/utils/helpers.py:151-152 | the name is the stripped name when that is not empty, and "Unknown Product" otherwise, so it is never empty |
| Helpers.CleanPrice | AI_Shopping_Helper/backend/utils/helpers.py:155-159 | the price is the number clamped below at 0, and 0 when it is missing or does not convert |
| Helpers.CleanRating | AI_Shopping_Helper/backend/utils/helpers.py:162-167 | the rating is the number clamped to [0, 5], and 4.0 when it is missing or does not convert |
| Helpers.CleanCategory | AI_Shopping_Helper/backend/utils/helpers.py:170-175 | the category is the lower-cased, stripped value when it is one of the nine known categories, and "general" otherwise |
| Helpers.CleanPlatform | AI_Shopping_Helper/backend/utils/helpers.py:178-179 | the platform is the lower-cased, stripped value, or "unknown" when that is empty |
| Helpers.CleanQuality | AI_Shopping_Helper/backend/utils/helpers.py:190-194 | the quality score is the number clamped to [0, 100], and 0 when it is missing or does not convert |
| Helpers.CleanUrl | AI_Shopping_Helper/backend/utils/helpers.py:182-183 | the URL is kept, stripped, exactly when it has a scheme and a host; otherwise it becomes "" |
| Helpers.Validate | AI_Shopping_Helper/backend/utils/helpers.py:146-206 | validation fails exactly when one of the six text fields (name, category, platform, URL, image URL, description) holds a non-text value, as `.strip()` then raises unhandled; otherwise it yields the cleaned record |
| Helpers.CleanRecord | AI_Shopping_Helper/backend/utils/helpers.py:146-206 | a cleaned record has a non-empty name and platform, a known category, a non-negative price and final score, a rating in [0, 5], a quality score in [0, 100], and a URL that is empty or has a scheme and a host |
| Helpers.NoneNameRaises | AI_Shopping_Helper/backend/utils/helpers.py:151 | a name stored as `None` or any non-text value makes validation fail |
| Helpers.CleanedTextStable | AI_Shopping_Helper/backend/utils/helpers.py:170 | lower-casing and stripping text that is already lower-cased and stripped changes nothing |
| Helpers.ValidateIdempotent | AI_Shopping_Helper/backend/utils/helpers.py:146-206 | for a record whose text fields are text, validating the validated record gives it back unchanged |
| Helpers.InvalidDataExample | AI_Shopping_Helper/backend/utils/helpers.py:146-206 | an empty name, a price and a rating that do not convert, and an unknown category give "Unknown Product", price 0, rating 4.0 and category "general" |
| Helpers.PaginatedResponse | AI_Shopping_Helper/backend/utils/helpers.py:263-274 | a zero limit fails with a division by zero; otherwise the data and parameters are passed through, and with a positive limit the page count p satisfies (p - 1) * limit < total <= p * limit |
| Helpers.PagesIsCeiling | AI_Shopping_Helper/backend/utils/helpers.py:272 | with a positive limit, the page count is the least number of pages that covers the total, that is ceil(total / limit) |
| Helpers.SavingsPercentage | AI_Shopping_Helper/backend/utils/helpers.py:351-357 | a non-positive original price gives 0; a discount no higher than the original gives a non-negative percentage, a non-negative discounted price gives at most 100, and no discount gives 0 |
| Helpers.SavingsRoundTrip | AI_Shopping_Helper/backend/utils/helpers.py:351-357 | taking the percentage off the original price gives back the discounted price |
| Helpers.DropStopWords | AI_Shopping_Helper/backend/utils/helpers.py:368-370 | every kept word is a word of the input that is not a stop word; a word that is not a stop word is kept exactly as often as it occurs, and a stop word never |
| Helpers.DropStopWordsAppend | AI_Shopping_Helper/backend/utils/helpers.py:370 | filtering two word lists joined is filtering each and joining the results, so the kept words stay in their input order |
| Chars.SplitWsKeepsText | AI_Shopping_Helper/backend/utils/helpers.py:369 | `str.split()` loses only whitespace: the words glued together are exactly the text's non-whitespace characters, in order |
| Chars.SplitJoinWords | AI_Shopping_Helper/backend/utils/helpers.py:369-373 | splitting words joined with single spaces gives back the same words, so `' '.join` loses nothing |
| Chars.KeepCounts | AI_Shopping_Helper/backend/utils/helpers.py:374 | character deletion keeps each character it accepts exactly as often as it occurs and no other character |
| Helpers.NormalizeProductName | AI_Shopping_Helper/backend/utils/helpers.py:359-376 | an empty name normalises to ""; the result is lower-cased, holds only word characters and whitespace, and neither begins nor ends with whitespace |
| Helpers.NormalizeWordName | AI_Shopping_Helper/backend/utils/helpers.py:359-376 | for a name of word characters and whitespace, the result is the lower-cased words that are not stop words, in input order, joined with single spaces, and splitting it gives back exactly those words |
| Helpers.NormalizeStopWord | AI_Shopping_Helper/backend/utils/helpers.py:359-376 | each of the 14 stop words on its own normalises to "" |
| Helpers.OnlyStopWords | AI_Shopping_Helper/backend/utils/helpers.py:359-376 | a name made only of stop words normalises to "" |
| Helpers.PunctuatedStopWord | AI_Shopping_Helper/backend/utils/helpers.py:368-376 | punctuation is removed after the stop words are dropped, so a stop word followed by a comma, such as "the,", normalises to the stop word itself |
| Helpers.NormalizeNotIdempotent | AI_Shopping_Helper/backend/utils/helpers.py:359-376 | normalising twice differs from normalising once: for every stop word w, "w," gives w and then "" |
| CacheManager.NewCache | AI_Shopping_Helper/backend/utils/helpers.py:211-213 | a new cache is empty and keeps the given size limit (1000 by default) |
| CacheManager.Lookup | AI_Shopping_Helper/backend/utils/helpers.py:215-217 | a key has a value exactly when it is stored |
| CacheManager.Set | AI_Shopping_Helper/backend/utils/helpers.py:219-226 | a write fails only when the cache is full and empty (a limit of zero or less: there is no oldest key to evict); otherwise the key reads back the new value, a cache with a positive limit never exceeds it, and every other key keeps its value except the oldest one, which a full cache loses; the keys keep their insertion order: a cache that is not full keeps all its keys and appends a new key at the end, and a full one drops the first key, keeps the rest in order and appends a new key at the end |
| CacheManager.EvictOldest | AI_Shopping_Helper/backend/utils/helpers.py:221-224 | eviction removes the first-inserted key and only that key, shrinking the cache by one and keeping the other entries in order |
| CacheManager.Assign | AI_Shopping_Helper/backend/utils/helpers.py:226 | assignment stores the value under the key, adds at most one entry and changes no other key; every existing key keeps its position, and a new key goes at the end, as in a Python dict |
| CacheManager.FullOverwriteShrinks | AI_Shopping_Helper/backend/utils/helpers.py:219-226 | overwriting a key that is present in a full cache still evicts the oldest entry, so the cache ends one entry smaller |
| CacheManager.Delete | AI_Shopping_Helper/backend/utils/helpers.py:228-230 | the key is gone afterwards, every other key is unchanged, and deleting a missing key changes nothing |
| CacheManager.Clear | AI_Shopping_Helper/backend/utils/helpers.py:232-234 | after clearing no key has a value and the limit is kept |
| CacheManager.Run | AI_Shopping_Helper/backend/utils/helpers.py:211-234 | any run of calls keeps the keys unique and the size limit unchanged |
| CacheManager.RunBounded | AI_Shopping_Helper/backend/utils/helpers.py:219-226 | with a positive limit, no run of writes, deletions and clears fails or takes the cache over its limit |
| CacheManager.SetNewKeyLast | AI_Shopping_Helper/backend/utils/helpers.py:219-226 | writing a key that is not cached into a cache with a positive limit leaves the newest `maxSize` keys of the old keys followed by the new one |
| CacheManager.KeepsNewestWrites | AI_Shopping_Helper/backend/utils/helpers.py:219-226 | first in, first out: writing distinct keys that are not yet cached, one after another, never fails and leaves exactly the newest `maxSize` keys of the old keys followed by the written ones, in writing order, so the key evicted is always the earliest written |
| Dicts.PutKeys | AI_Shopping_Helper/backend/utils/helpers.py:226 | assigning to a dict keeps its key order and appends a key it did not hold |
| RateLimiter.NewLimiter | AI_Shopping_Helper/backend/utils/helpers.py:279-282 | a new limiter has no recorded requests and keeps its limit (100) and window (3600 s) |
| RateLimiter.Recent | AI_Shopping_Helper/backend/utils/helpers.py:297-300 | the recent times are exactly the stored times after the cut-off, in order |
| RateLimiter.RecentAppend | AI_Shopping_Helper/backend/utils/helpers.py:297-309 | recording a time adds it to the recent ones exactly when it lies after the cut-off |
| RateLimiter.Prune | AI_Shopping_Helper/backend/utils/helpers.py:291-294 | the clean-up keeps exactly the identifiers with at least one time inside the window, each with all its stored times |
| RateLimiter.IsAllowed | AI_Shopping_Helper/backend/utils/helpers.py:284-310 | a request is allowed exactly when its identifier has fewer recent requests than the limit; every other identifier is pruned and otherwise untouched; a refusal records nothing; an allowance appends the current time to the identifier's kept times |
| RateLimiter.NoneRecent | AI_Shopping_Helper/backend/utils/helpers.py:291-300 | an identifier dropped by the clean-up had no recent request, so dropping it does not change its count |
| RateLimiter.StaysWithinLimit | AI_Shopping_Helper/backend/utils/helpers.py:284-310 | when every identifier is within the limit before a call, it is within the limit after it: no identifier ever gets more allowed requests in one window than the limit |
| RateLimiter.RecentShrinks | AI_Shopping_Helper/backend/utils/helpers.py:293-299 | as the clock advances, the number of recent requests can only fall |
| RateLimiter.WithinLimitLater | AI_Shopping_Helper/backend/utils/helpers.py:284-310 | a limiter within its limit at one time is still within it at any later time |
| Categories.FirstCategory | AI_Shopping_Helper/backend/scraping/product_scraper.py:462-464 | the search finds nothing exactly when no remaining category has a keyword in the text; otherwise it finds the first category that has one |
| Categories.Categorize | AI_Shopping_Helper/backend/scraping/product_scraper.py:445-466 | the category is "general" or a table category; it is "general" when no keyword occurs, and it is the first category, in table order, with a keyword in the text |
| Categories.OcrExtendsScraper | AI_Shopping_Helper/backend/utils/image_processor.py:209-218 | the image parser's table has the scraper's categories in the same order, each with all of the scraper's keywords |
| Categories.ExtendsFindsEarlier | AI_Shopping_Helper/backend/utils/image_processor.py:220-222 | a table with more keywords per category finds a category no later than the smaller one |
| Categories.ExtendsNotGeneral | AI_Shopping_Helper/backend/utils/image_processor.py:220-224 | a table with more keywords never falls back to "general" where the smaller table names a category |
| Categories.ScraperNamesCategories | AI_Shopping_Helper/backend/scraping/product_scraper.py:451-460 | no scraper category is called "general" |
| Categories.OcrNotGeneral | AI_Shopping_Helper/backend/utils/image_processor.py:207-224 | the image parser finds a category in every text in which the scraper finds one |
| Categories.HairExample | AI_Shopping_Helper/backend/utils/image_processor.py:213 | "hair" is a trimmer to the image parser but "general" to the scraper |
| Categories.EmptyTextGeneral | AI_Shopping_Helper/backend/utils/image_processor.py:220-224 | with no empty keyword, an empty text is "general" |
| SpecPatterns.SpecsFrom | AI_Shopping_Helper/backend/scraping/product_scraper.py:421-426 | the specifications have unique keys drawn from the table's names, and with distinct names each name holds exactly what its own pattern found |
| SpecPatterns.KeyValueMatch | AI_Shopping_Helper/backend/scraping/product_scraper.py:414-418 | a text starting with "key: " and a value character matches there, capturing the run of value characters |
| SpecPatterns.KeyValueFound | AI_Shopping_Helper/backend/scraping/product_scraper.py:421-426 | the value read from "key: v" is v, stripped, up to the first character outside the value class |
| ProductScraper.FirstRunValue | AI_Shopping_Helper/backend/scraping/product_scraper.py:436-443 | text without a digit reads as 0 |
| ProductScraper.FirstRunAfter | AI_Shopping_Helper/backend/scraping/product_scraper.py:436-439 | the number read is the first run of digits, wherever it starts |
| ProductScraper.ParsePrice | AI_Shopping_Helper/backend/scraping/product_scraper.py:430-443 | as written: text without a digit gives 0 |
| ProductScraper.ParsePriceReadsDecimals | AI_Shopping_Helper/backend/scraping/product_scraper.py:433-439 | as written, a price with decimals reads as the intended whole price times 10 to the number of decimals, plus the decimals |
| ProductScraper.ParsePriceGlued | AI_Shopping_Helper/backend/scraping/product_scraper.py:433-439 | as written, the whole part's digits and the decimals are read as one number |
| ProductScraper.PriceJunkDeleted | AI_Shopping_Helper/backend/scraping/product_scraper.py:433 | the deletion keeps the digits of the whole part and the decimals, and drops the commas and the decimal point |
| ProductScraper.ParsePriceDecimalsExample | AI_Shopping_Helper/backend/scraping/product_scraper.py:430-443 | "₹1,299.00" reads as 129900 as written and as 1299 with the decimal point kept |
| ProductScraper.ParsePriceFixed | AI_Shopping_Helper/backend/scraping/product_scraper.py:430-443 | with the decimal point kept, text without a digit still gives 0 |
| ProductScraper.ParsePriceFixedWhole | AI_Shopping_Helper/backend/scraping/product_scraper.py:430-443 | with the decimal point kept, a currency mark followed by a price with thousands separators and decimals reads as the whole part of the price |
| ProductScraper.FirstText | AI_Shopping_Helper/backend/scraping/product_scraper.py:170-182 | the name is the stripped text of the first selector that found an element, or "Unknown Product" when none did |
| ProductScraper.SelectorPrice | AI_Shopping_Helper/backend/scraping/product_scraper.py:184-199 | for any price parser, the price is 0 exactly when no selector's stripped text parses to a non-zero price; otherwise it is the parse of the first selector whose text does |
| ProductScraper.ElementRating | AI_Shopping_Helper/backend/scraping/product_scraper.py:201-209 | the rating is the first number in the element's text, 4.0 when there is no element or no number; it is never negative |
| ProductScraper.ScanDecimalParses | AI_Shopping_Helper/backend/scraping/product_scraper.py:206-208 | every number the rating pattern finds converts with float() |
| ProductScraper.BulletPair | AI_Shopping_Helper/backend/scraping/product_scraper.py:218-221 | a bullet gives a specification exactly when it holds a ':'; the key, split at the first ':', never holds one |
| ProductScraper.BulletPairRoundTrip | AI_Shopping_Helper/backend/scraping/product_scraper.py:218-221 | writing a key without ':' and a value, both already stripped, as "key:value" and reading the bullet back gives the pair |
| ProductScraper.BulletPairs | AI_Shopping_Helper/backend/scraping/product_scraper.py:216-221 | every pair comes from a bullet, in bullet order |
| ProductScraper.RowPairs | AI_Shopping_Helper/backend/scraping/product_scraper.py:224-230 | every pair comes from a table row with exactly two cells, both stripped |
| ProductScraper.ItemPairs | AI_Shopping_Helper/backend/scraping/product_scraper.py:335-342 | every pair comes from a detail row with both a key and a value element, both stripped |
| ProductScraper.AmazonSpecs | AI_Shopping_Helper/backend/scraping/product_scraper.py:211-232 | the specifications form a dict with unique keys |
| ProductScraper.AmazonSpecsKeys | AI_Shopping_Helper/backend/scraping/product_scraper.py:211-232 | every key comes from a bullet or from a table row |
| ProductScraper.AmazonTableWins | AI_Shopping_Helper/backend/scraping/product_scraper.py:223-230 | the last table row with a key decides its value, whatever the bullets say |
| ProductScraper.AmazonBulletKept | AI_Shopping_Helper/backend/scraping/product_scraper.py:215-221 | a bullet's value stands when no later bullet and no table row has its key |
| ProductScraper.GenericSpecTable | AI_Shopping_Helper/backend/scraping/product_scraper.py:413-424 | the five specifications are Battery, Display, RAM, Storage and Camera, each named by its pattern's text before the first '[' |
| ProductScraper.GenericSpecsAsWritten | AI_Shopping_Helper/backend/scraping/product_scraper.py:405-428 | as written, each specification holds the stripped capture of its pattern, where the value class excludes backslash and n, in either case |
| ProductScraper.GenericSpecs | AI_Shopping_Helper/backend/scraping/product_scraper.py:405-428 | with the value running to the end of the line, the only keys are the five names, and each holds exactly the stripped capture of its pattern when it matches |
| ProductScraper.GenericSpecsAsWrittenCut | AI_Shopping_Helper/backend/scraping/product_scraper.py:414-418 | as written, a value is cut at its first n: "Name: v" followed by "n" gives just v |
| ProductScraper.GenericSpecReadsLine | AI_Shopping_Helper/backend/scraping/product_scraper.py:414-418 | with the value running to the end of the line, "Name: v" followed by a newline gives v, stripped |
| ProductScraper.GenericSpecsCutExample | AI_Shopping_Helper/backend/scraping/product_scraper.py:405-428 | "Display: 6.1 inch" then a newline gives the display "6.1 i" as written |
| ProductScraper.GenericSpecsLineExample | AI_Shopping_Helper/backend/scraping/product_scraper.py:405-428 | the same text gives the display "6.1 inch" with the value running to the end of the line |
| ProductScraper.GenericPrice | AI_Shopping_Helper/backend/scraping/product_scraper.py:361-382 | the price is the comma-free integer of the first pattern whose capture converts, and 0 when no pattern has one |
| ProductScraper.GenericPriceNeedsMarker | AI_Shopping_Helper/backend/scraping/product_scraper.py:366-371 | a page without any of the markers ₹, Rs, INR and "Price:", in exactly that letter case, has price 0 |
| ProductScraper.GenericRating | AI_Shopping_Helper/backend/scraping/product_scraper.py:384-403 | the rating is the number captured by the first matching pattern, with no range check, and 4.0 when no pattern finds a number; it is never negative |
| ProductScraper.GenericRatingNeedsDigits | AI_Shopping_Helper/backend/scraping/product_scraper.py:389-403 | a page without digits has the default rating 4.0 |
| ProductScraper.RatingLabelNeedsDigits | AI_Shopping_Helper/backend/scraping/product_scraper.py:391 | the "Rating:" pattern needs a digit after the label |
| ProductScraper.ScraperCategory | AI_Shopping_Helper/backend/scraping/product_scraper.py:445-466 | the category is "general" or one of the eight table categories |
| ProductScraper.NameKeywordCategorizes | AI_Shopping_Helper/backend/scraping/product_scraper.py:447-464 | a keyword anywhere in the name, in any letter case, makes the category something other than "general" |
| ProductScraper.ScraperCategoryIgnoresCase | AI_Shopping_Helper/backend/scraping/product_scraper.py:447 | the category does not depend on the letter case of the name |
| ProductScraper.SiteOf | AI_Shopping_Helper/backend/scraping/product_scraper.py:44-51 | a URL containing "amazon" in any letter case goes to the Amazon extractors; otherwise "flipkart" goes to Flipkart, then "myntra" to Myntra, and anything else to the generic extractors |
| ProductScraper.SiteIgnoresCase | AI_Shopping_Helper/backend/scraping/product_scraper.py:44-51 | the dispatch does not depend on the letter case of the URL |
| ProductScraper.SiteSpecs | AI_Shopping_Helper/backend/scraping/product_scraper.py:211-428 | each platform's specification extractor yields a dict with unique keys; on a generic site each of the five names holds what its pattern as written, whose value class excludes backslash and n in either case, finds in the page text |
| ProductScraper.ScrapeProduct | AI_Shopping_Helper/backend/scraping/product_scraper.py:32-168 | as written: a product is returned exactly when the page was fetched; it carries the URL and the platform its dispatch chose, the name of its name selectors, the `_parse_price` value of the first price selector with a non-zero price (or the generic price), the rating of its platform's extractor, the specifications of `SiteSpecs`, and the category its name and specifications name |
| ProductScraper.ScrapeProductFixed | AI_Shopping_Helper/backend/scraping/product_scraper.py:32-168 | the corrected scrape keeps the name, rating, platform and URL of the code as written; it differs only in the price on Amazon, Flipkart and Myntra (decimal point kept) and in the generic specifications (values to the end of the line), with unique keys and the category they name |
| ProductScraper.ScrapeFixedAgrees | AI_Shopping_Helper/backend/scraping/product_scraper.py:184-199 | on Amazon, Flipkart and Myntra pages whose price texts hold no decimal point, the corrected scrape gives exactly the product of the code as written |
| ImageProcessor.OcrPrice | AI_Shopping_Helper/backend/utils/image_processor.py:121-137 | the price stays 0 when no pattern finds a capture that converts; otherwise it is the comma-free integer of the first pattern whose capture converts |
| ImageProcessor.OcrPriceNeedsMarker | AI_Shopping_Helper/backend/utils/image_processor.py:122-127 | a text that mentions none of ₹, rs, inr and price, in any letter case, has price 0 |
| ImageProcessor.OcrSpecTable | AI_Shopping_Helper/backend/utils/image_processor.py:140-150 | there is one pattern per specification name, built from its keyword with an optional colon |
| ImageProcessor.OcrSpecNamesDistinct | AI_Shopping_Helper/backend/utils/image_processor.py:140-150 | the nine specification names are distinct |
| ImageProcessor.OcrSpecsAsWritten | AI_Shopping_Helper/backend/utils/image_processor.py:139-155 | as written, each specification holds the stripped capture of its pattern, where the value class excludes backslash and the letter n |
| ImageProcessor.OcrSpecs | AI_Shopping_Helper/backend/utils/image_processor.py:139-155 | with each value running to the end of its line, only the nine names can be keys, and each holds exactly the stripped capture of its pattern when it matches |
| ImageProcessor.OcrSpecsAsWrittenCut | AI_Shopping_Helper/backend/utils/image_processor.py:141-149 | as written, a value is cut at its first n: "keyword: v" followed by "n" gives just v |
| ImageProcessor.OcrSpecReadsLine | AI_Shopping_Helper/backend/utils/image_processor.py:141-149 | with the value running to the end of the line, "keyword: v" followed by a newline gives v, stripped |
| ImageProcessor.OcrSpecsCutExample | AI_Shopping_Helper/backend/utils/image_processor.py:139-155 | "display: 6.1 inch" then a newline gives the display "6.1 i" as written |
| ImageProcessor.OcrSpecsLineExample | AI_Shopping_Helper/backend/utils/image_processor.py:139-155 | the same text gives the display "6.1 inch" with the value running to the end of the line |
| ImageProcessor.OcrRating | AI_Shopping_Helper/backend/utils/image_processor.py:157-171 | the rating stays 4.0 when no pattern finds a number; otherwise it is the number found by the first matching pattern, with no range check; it is never negative |
| ImageProcessor.OcrRatingNeedsDigits | AI_Shopping_Helper/backend/utils/image_processor.py:158-171 | a text without digits keeps the default rating 4.0 |
| ImageProcessor.OcrRatingLabelNeedsDigits | AI_Shopping_Helper/backend/utils/image_processor.py:160 | the "rating" pattern needs a digit after the label |
| ImageProcessor.ColonSpacesDecimalFails | AI_Shopping_Helper/backend/utils/image_processor.py:160 | an optional colon, spaces and a number cannot match in a text without digits |
| ImageProcessor.FirstNameLine | AI_Shopping_Helper/backend/utils/image_processor.py:176-181 | the name is the first stripped line that is longer than 5 characters and holds none of ₹, Rs, Price and ':', or "" when no line qualifies; a name found is always one of the stripped lines |
| ImageProcessor.OcrNameAsWritten | AI_Shopping_Helper/backend/utils/image_processor.py:118-181 | as written, the name found is empty or a line that qualifies |
| ImageProcessor.OcrName | AI_Shopping_Helper/backend/utils/image_processor.py:176-181 | with the text split at line feeds, the name found is empty or a line that qualifies, and it never holds a line feed |
| ImageProcessor.OcrNameAsWrittenWhole | AI_Shopping_Helper/backend/utils/image_processor.py:118 | as written, a text without a backslash is judged as one line: its stripped whole is the name when it qualifies, and otherwise there is no name |
| ImageProcessor.OcrNameFirstLine | AI_Shopping_Helper/backend/utils/image_processor.py:176-181 | a first line that qualifies is the name |
| ImageProcessor.OcrNameAsWrittenExample | AI_Shopping_Helper/backend/utils/image_processor.py:118-181 | as written, "Wireless Headphones" then a newline and "₹1,999" gives no name, because the single line holds the ₹ |
| ImageProcessor.OcrNameExample | AI_Shopping_Helper/backend/utils/image_processor.py:176-181 | split at line feeds, the same text gives the name "Wireless Headphones" |
| ImageProcessor.ParseProductText | AI_Shopping_Helper/backend/utils/image_processor.py:107-187 | as written: the name is empty or a qualifying line; each of the nine specification keys holds what its pattern as written, whose value class excludes backslash and n, finds in the lower-cased text, and no other key occurs; the rating is non-negative; the category is "general" or a table category; the exception handler's empty record is never returned |
| ImageProcessor.ParseProductTextFixed | AI_Shopping_Helper/backend/utils/image_processor.py:107-187 | the corrected parser keeps the price, rating and category of the code as written, takes a name from the lines split at line feeds that never holds a line feed, and reads each specification to the end of its line |
| ImageProcessor.ParseFixedSameName | AI_Shopping_Helper/backend/utils/image_processor.py:118 | on a text with no line feed and no backslash, the corrected parser finds the same name as the code as written |
| ImageProcessor.ParseIgnoresCase | AI_Shopping_Helper/backend/utils/image_processor.py:119-174 | the price, specifications, rating and category do not depend on letter case; only the name does |
| ImageProcessor.ParseCategoryCoversScraper | AI_Shopping_Helper/backend/utils/image_processor.py:207-224 | the image parser names a category wherever the scraper's keyword table would |
| ImageProcessor.ParseEmptyText | AI_Shopping_Helper/backend/utils/image_processor.py:107-183 | an empty text gives the starting record: no name, price 0, no specifications, "general" and rating 4.0 |

## Left out

- **Fetching and reading input.**
  - HTTP requests, Selenium, BeautifulSoup selectors, OpenCV and Tesseract are not modelled.
  - A `ProductScraper.Page` holds what each selector found, and the OCR parser takes the recognised text as its input.
- **Embedding and vector-store libraries.**
  - SentenceTransformer, ChromaDB and the numpy cosine similarity, including its `1e-10` epsilon, are not modelled.
  - Distances, similarities and the index's answer (taken as already cut to `k + 1` neighbours, nearest first) are inputs.
  - The encoder is a function parameter of the rebuild.
- **`add_product_embedding`.** Not modelled. It writes through the vector-index collection even when SQLite storage is selected, where that collection is never created, so it has no behaviour worth stating.
- **SQLite beyond the queries.**
  - Connections, transactions, `get_categories`, `store_feedback`, product statistics and batch inserts are not modelled.
  - Any database error is a single `online` flag that selects the `except` branch.
  - Ties in `ORDER BY` keep catalog order. SQLite does not promise this.
- **Rounding.**
  - `round(x, n)` is exact round-half-even on `real`.
  - Python rounds the nearest binary double, so a decimal tie may round the other way there.
  - Every other calculation is exact: there are no float overflows, NaNs or infinities.
- **Text.**
  - Strings are ASCII: `\d`, `\s`, `\w` and `str.lower()` are their ASCII versions.
  - `₹` is the one non-ASCII character the patterns use.
- **URL parsing.** `urlparse` is a parameter of validation (it gives the scheme and the host), and platform detection takes the host.
- **Out of scope.** `format_currency`, `generate_key` (MD5), `clean_text`, `extract_brand_from_name`, the response envelopes other than pagination, and the loggers are not modelled.
- **Time.** The rate limiter's clock is the `now` argument.
- QualityScorer.ExtractNumeric: its own contract states only that empty text gives no value and that every value is non-negative. The full value is stated by `QualityScorer.ExtractNumericIsScan` against an independent scan.
- Recommendations.ChromaRecommend: states the at-most-`k` bound only for `k >= 1`, because as written a `k` of 0 still returns one product (see Findings).
- Recommendations.ChromaRecommend: for `k < 0` the source asks the index for `n_results = k + 1 <= 0` neighbours. The index's response to that request (an error or an empty answer) is not modelled: the answer is an input, so the contracts describe only what the loop does with whatever answer it is given, and make no claim about what the source returns for a negative `k`.
- Recommendations.ChromaLoop: states "at most `max(k, 0)` entries, or exactly one" for the same reason.
- Recommendations.ChromaRecommend: states the neighbours returned only when every distance the index returned is defined; when some distance is -1 it states only the bounds above, and that an error needs such a distance; which neighbours come back before the loop reaches it is not stated.
- ImageProcessor.ParseProductText: its contract states the shape of the name, rating and category and the value of each specification. The values of the other fields are stated by the members it is built from (`OcrNameAsWritten`, `OcrPrice`, `OcrRating`, `Categories.Categorize`).
- Recommendations.GetRecommendations: states the at-most-`k` bound for the index branch only for `k >= 1`, because as written a `k` of 0 still returns one product (see Findings). A negative `k` is left out as for `Recommendations.ChromaRecommend`.
- Helpers.NormalizeProductName: its own contract states the shape of the result. Which words survive, in what order, is stated by `Helpers.NormalizeWordName` for names made of word characters and whitespace. Names with punctuation get no such lemma, because deleting punctuation can empty a word and leave two spaces in a row.
- ProductScraper.ScraperCategory: its contract states only the range of the result. The choice of category is stated by `Categories.Categorize` and `ProductScraper.NameKeywordCategorizes`.

## Findings

| source | as written | input that shows it | evidently intended | confidence | as-written member | corrected member |
|---|---|---|---|---|---|---|
| AI_Shopping_Helper/backend/ai/recommendations.py:259-263 | appends a recommendation before comparing the count with `num_recommendations` | `num_recommendations = 0`, so the index is asked for one neighbour (`n_results = 1`), and that neighbour is not the target: the target was never indexed, or another product has the same text at distance 0. The branch then returns that neighbour | at most `num_recommendations` products, none for 0 | high, not executed | Recommendations.ChromaZeroReturnsOne | Recommendations.ChromaRecommendFixed |
| AI_Shopping_Helper/backend/scraping/product_scraper.py:433 | the class `[₹Rs.,]` also deletes the decimal point, gluing the decimals to the whole part | "₹1,299.00" parses to 129900 | 1299, the whole part of the price | high, not executed | ProductScraper.ParsePriceDecimalsExample | ProductScraper.ParsePriceFixed |
| AI_Shopping_Helper/backend/scraping/product_scraper.py:414-418 | in a raw string, `[^\\n]` excludes backslash and the letter n (either case under IGNORECASE), not the line feed | "Display: 6.1 inch" and a line feed give "6.1 i" | the value runs to the end of the line: "6.1 inch" | high, not executed | ProductScraper.GenericSpecsCutExample | ProductScraper.GenericSpecs |
| AI_Shopping_Helper/backend/utils/image_processor.py:141-149 | the same raw-string class `[^\\n]` ends a value at the first n or backslash | "display: 6.1 inch" and a line feed give "6.1 i" | "6.1 inch" | high, not executed | ImageProcessor.OcrSpecsCutExample | ImageProcessor.OcrSpecs |
| AI_Shopping_Helper/backend/utils/image_processor.py:118 | `text.split('\\n')` splits at a backslash followed by n, so OCR text is one line | "Wireless Headphones", a line feed, then "₹1,999" gives no name | split at line feeds: the name "Wireless Headphones" | high, not executed | ImageProcessor.OcrNameAsWrittenExample | ImageProcessor.OcrName |

The remaining lemmas of each row connect the two halves:

- `Recommendations.ChromaFixedAgrees` shows that the corrected index branch agrees with the code as written for every `k >= 1`.
- `ProductScraper.ParsePriceReadsDecimals` states the general error: the result is the intended price times 10 to the number of decimals, plus the decimals. `ProductScraper.ParsePriceFixedWhole` proves that the correction reads the whole part.
- `GenericSpecsAsWrittenCut` / `GenericSpecReadsLine` and `OcrSpecsAsWrittenCut` / `OcrSpecReadsLine` state the two behaviours for every value.
- `ImageProcessor.OcrNameAsWrittenWhole` and `ImageProcessor.OcrNameFirstLine` state the two name behaviours in general.

`ProductScraper.ScrapeProduct`, `ImageProcessor.ParseProductText` and `Recommendations.GetRecommendations` model the code as written. The corrected definitions are assembled into `ProductScraper.ScrapeProductFixed`, `ImageProcessor.ParseProductTextFixed` and `Recommendations.GetRecommendationsFixed`. `ScrapeFixedAgrees`, `ParseFixedSameName` and `GetRecommendationsFixedAgrees` state where each agrees with the code as written.

# Validate-and-clean core of the week-2 orders ETL, in Dafny

This project models the validate-and-clean layer of the `bootcamp_data` package. The package is a small pandas pipeline that turns raw orders and users into one analytics table. The model covers three parts.

- **The validators of `quality.py`**: required columns, non-empty tables, unique keys and numeric ranges. Each is a function that passes, or fails with the report the source puts in its message (the missing names, the duplicate-row count).
- **The column transforms of `transforms.py`**, which `etl.py` repeats verbatim at lines 95-158 and which are modelled once:
  - schema coercion;
  - text normalisation;
  - value mapping;
  - null flags;
  - the missingness report;
  - timestamp parsing and calendar parts;
  - linear-interpolation quantiles, `iqr_bounds`, `winsorize` and the outlier flag.
- **The pipeline of `etl.py`**:
  - its own unique-key check;
  - `safe_left_join`, with pandas' left-merge semantics, many-to-one validation and `_x`/`_y` renaming;
  - `transform`;
  - the `orders_clean` projection of `load_outputs`;
  - the counts of `write_run_meta`.

A table is a `Frames.Table`: distinct column names in order, a map from name to column, and a row count that every column has. A cell is `Option<Value>`, where `None` is pandas' null (NA, NaN, NaT). Numbers are exact `real`s and `int`s. A failure that the source raises as an exception is a `Result.Err` or `Outcome.Fail` carrying a `Failure`.

Library behaviour that the source calls but does not define is a parameter, `Transforms.Library`:
- the text pandas renders for a float, timestamp or date;
- `pd.to_datetime(..., errors="coerce", utc=True)` on one cell;
- the calendar parts of a UTC timestamp.

`add_missing_flags` is the one imperative function in the core: it copies the frame, then loops assigning columns. It is modelled as the method `Transforms.AddMissingFlags`, with a `while` loop proved equal to the fold `Transforms.MissingFlags`. Everything else in the core is an expression chain and is modelled as functions.

Where the code and its documentation disagree, the model follows the code:
- **`enforce_schema`**: a `quantity` that parses to a number with a fraction (for example "2.5") makes `astype("Int64")` raise. So the function does raise, on that input only (`Transforms.EnforceSchema` returns `Err(NonIntegralQuantity)`). Anything unparseable still becomes null.
- **`etl.py`'s `assert_unique_key`**: it uses `duplicated()` alone, so two null keys count as a repeat. `Etl.AssertUniqueKeyEtl` is that check. `Etl.UniqueKeyChecksCompared` relates it to both modes of the `quality.py` check.
- **`etl.py`'s `require_columns` and `assert_non_empty`**: they differ from the `quality.py` ones only in exception class and message. The model uses `Quality.RequireColumns` and `Quality.AssertNonEmpty` for both.

Two consequences of the code, proved about `transform`:
- **Text-cast collisions.** `transform` checks the uniqueness of `users.user_id` before casting it to text, but validates the join after the cast. So the ids `1` and `"1"` pass the check and then make the many-to-one join raise. See `Etl.CastKeysCanCollide` and `Etl.TransformRejectsCastCollision`. Ids that are all text cannot collide (`Etl.TextIdsPassTheJoinCheck`).
- **A users `amount` column.** If the users table has an `amount` column, the join renames both copies to `amount_x` and `amount_y`. The following `winsorize(analytics["amount"])` then fails (`Etl.TransformFailures`).

## Model

| member | source | states |
|---|---|---|
| Quality.RequireColumns | src/bootcamp_data/quality.py:17-18 | fails iff some listed column is absent, and then reports exactly the absent listed names (the `etl.py:25-29` copy behaves the same) |
| Quality.RequireColumnsInListingOrder | src/bootcamp_data/quality.py:17 | the missing names are reported in listing order: checking `a + b` reports `a`'s missing names followed by `b`'s |
| Quality.AssertNonEmpty | src/bootcamp_data/quality.py:24-34 | fails iff the table has no rows; the name only labels the report (the `etl.py:31-34` copy behaves the same) |
| Quality.AssertUniqueKey | src/bootcamp_data/quality.py:51-55 | missing key column fails; with nulls disallowed, any null fails first; passes iff no non-null value repeats; a duplicate report carries the number of non-null rows whose value another row also holds, which is positive |
| Quality.DuplicateRowsCountsRepeatedRows | src/bootcamp_data/quality.py:54-55 | for every column, the `keep=False` count equals the size of the set of non-null rows whose value some other row repeats |
| Quality.DuplicateRowsPositive | src/bootcamp_data/quality.py:54-55 | the `keep=False` duplicate-row count is positive iff some non-null value occurs at two positions |
| Quality.OccurrencesAtLeastTwo | src/bootcamp_data/quality.py:54 | a value occurs at least twice iff it sits at two distinct positions |
| Quality.DuplicateRowsExample | src/bootcamp_data/quality.py:54-55 | `[a, a, b]` reports 2 duplicate rows, not 1; `[null, null, b]` reports 0 |
| Quality.NullsAreNotDuplicates | src/bootcamp_data/quality.py:51-55 | an all-null key passes with nulls allowed and fails with `KeyHasNulls` otherwise |
| Quality.AssertInRange | src/bootcamp_data/quality.py:73-79 | nulls are ignored; fails iff a non-null value is below a given `lo` or above a given `hi`; a value below `lo` is the one reported |
| Quality.UnboundedRangeAlwaysPasses | src/bootcamp_data/quality.py:75-79 | with neither bound supplied the check always passes |
| Sorting.SortBy | src/bootcamp_data/transforms.py:44 | the sort keeps length and elements (same multiset) and orders by the key |
| Sorting.SortBySorted | src/bootcamp_data/transforms.py:44 | sorting data already in order changes nothing |
| Numeric.ParseDecimal | src/bootcamp_data/transforms.py:24-25 | a text that `to_numeric` reads holds a digit and only digits, one point and a leading sign; an all-digit text reads as its natural number |
| Numeric.IntTextRoundTrip | src/bootcamp_data/transforms.py:22-25 | reading back the text of an integer gives that integer |
| Numeric.ParseExamples | src/bootcamp_data/transforms.py:24 | "-3.25" reads as -3.25; "abc" and "1.2.3" are not numbers |
| Transforms.StringColumn | src/bootcamp_data/transforms.py:22-23 | `astype("string")` keeps nulls and text cells, and turns every other cell into text |
| Transforms.StringColumnIdempotent | src/bootcamp_data/transforms.py:22-23 | casting to text twice is casting once |
| Transforms.NumberColumn | src/bootcamp_data/transforms.py:24 | a cell becomes null iff it is null or not a number; otherwise it becomes its number |
| Transforms.IntegerColumn | src/bootcamp_data/transforms.py:25 | raises iff some number has a fraction; otherwise nulls and non-numbers become null and every number becomes that integer |
| Transforms.EnforceSchema | src/bootcamp_data/transforms.py:21-26 | fails iff a coerced column is missing (order_id reported first) or a quantity has a fraction; otherwise names, row count and the other columns are unchanged, and the four columns are the coerced ones |
| Transforms.EnforceSchemaIdempotent | src/bootcamp_data/transforms.py:21-26 | coercing an already coerced table changes nothing |
| TextNorm.Strip | src/bootcamp_data/transforms.py:64 | neither end of a stripped text is whitespace |
| TextNorm.Collapse | src/bootcamp_data/transforms.py:66 | after collapsing, every whitespace is a single space not followed by another |
| TextNorm.NormalizeIsNormalized | src/bootcamp_data/transforms.py:62-67 | a normalised text has no upper-case letter, no whitespace at either end and no run of two whitespace characters |
| TextNorm.NormalizedIsFixed | src/bootcamp_data/transforms.py:62-67 | a text in normal form normalises to itself |
| TextNorm.NormalizeIdempotent | src/bootcamp_data/transforms.py:62-67 | normalising twice is normalising once |
| TextNorm.NormalizeKeepsWords | src/bootcamp_data/transforms.py:62-67 | normalising only drops or merges whitespace and lowers case: its non-space characters are the input's, case-folded |
| TextNorm.StripPadded | src/bootcamp_data/transforms.py:64 | stripping whitespace padding gives back the padded text |
| TextNorm.NormalizeExample | src/bootcamp_data/transforms.py:62-67 | `" Paid  \n"` normalises to `"paid"` |
| Transforms.NormalizeText | src/bootcamp_data/transforms.py:53-67 | nulls stay null and every other cell becomes text |
| Transforms.NormalizeTextProperties | src/bootcamp_data/transforms.py:53-67 | every non-null result is normalised and keeps the case-folded words of its input; a second pass changes nothing |
| Transforms.ApplyMapping | src/bootcamp_data/transforms.py:83 | length is kept; a non-null key of the mapping is replaced by its image; every other cell, null included, is unchanged |
| Transforms.ApplyMappingIdempotent | src/bootcamp_data/transforms.py:83 | with a mapping whose images map to themselves, mapping twice is mapping once |
| Transforms.AddMissingFlags | src/bootcamp_data/transforms.py:99-102 | the copy-then-loop method computes exactly the fold that assigns one flag per listed name, in order |
| Transforms.MissingFlagsShape | src/bootcamp_data/transforms.py:99-102 | succeeds iff every listed column exists; the row count is kept and the old columns keep their order at the front |
| Transforms.MissingFlagsKeepsOthers | src/bootcamp_data/transforms.py:99-102 | only `c__isna` columns are added, and every other column keeps its contents |
| Transforms.MissingFlagsMarkNulls | src/bootcamp_data/transforms.py:101 | each `c__isna` is true exactly at the nulls `c` held on entry |
| Transforms.FlagNameInjective | src/bootcamp_data/transforms.py:101 | distinct columns get distinct flag names |
| Transforms.MissingnessReport | src/bootcamp_data/transforms.py:38-45 | one row per column (the same rows as unsorted), ordered by non-increasing share of nulls |
| Transforms.MissingnessReportCounts | src/bootcamp_data/transforms.py:40-43 | each row holds a column of the table, its null count and that count divided by the row count |
| Transforms.MissingnessReportCovers | src/bootcamp_data/transforms.py:40 | every column of the table has a row |
| Transforms.MissingnessReportDistinct | src/bootcamp_data/transforms.py:40 | no column has two rows |
| Transforms.ShareBounds | src/bootcamp_data/transforms.py:43 | the share of nulls is in [0, 1]: 0 exactly without nulls, 1 exactly when all cells are null |
| Transforms.ParseTimes | src/bootcamp_data/transforms.py:119 | a cell becomes null iff it is null or cannot be parsed; otherwise it becomes the parsed timestamp |
| Transforms.ParseDatetime | src/bootcamp_data/transforms.py:119-120 | fails iff the column is missing; otherwise only that column is replaced, by its parsed timestamps |
| Transforms.ParseDatetimeIdempotent | src/bootcamp_data/transforms.py:119-120 | when the parser reads a timestamp as itself, parsing twice is parsing once |
| Transforms.PartColumn | src/bootcamp_data/transforms.py:126-130 | a calendar part is null exactly where the timestamp is, and otherwise the library's part of it |
| Transforms.AddTimeParts | src/bootcamp_data/transforms.py:122-131 | fails iff the column is missing or holds a non-timestamp; otherwise the five parts are added, derived from the original column, and other columns are kept |
| Quantiles.Ascending | src/bootcamp_data/transforms.py:137-138 | the data in ascending order, a permutation of the input |
| Quantiles.Quantile | src/bootcamp_data/transforms.py:137-138 | defined iff there is a value |
| Quantiles.QuantileWithinData | src/bootcamp_data/transforms.py:137-138 | a quantile lies between two of the data values |
| Quantiles.QuantileExtremes | src/bootcamp_data/transforms.py:137-138 | the 0 and 1 quantiles are the least and greatest values |
| Quantiles.QuantileMonotone | src/bootcamp_data/transforms.py:137-138 | a higher level never gives a lower quantile |
| Quantiles.InterpolateBetweenRanks | src/bootcamp_data/transforms.py:137-138 | linear interpolation lies between the floor-rank and ceiling-rank values |
| Quantiles.QuartilesExample | src/bootcamp_data/transforms.py:137-138 | the quartiles of [1, 2, 3, 4, 5, 100] are 2.25 and 4.75 |
| Quantiles.IqrBounds | src/bootcamp_data/transforms.py:134-140 | bounds exist iff some value is non-null |
| Quantiles.IqrBoundsOrdered | src/bootcamp_data/transforms.py:139-140 | with k >= 0 the bounds enclose the quartiles, so lo <= hi |
| Quantiles.IqrBoundsExample | src/bootcamp_data/transforms.py:134-140 | the 1.5 IQR bounds of [1, 2, 3, 4, 5, 100] are -1.5 and 8.5 |
| Quantiles.ClipProperties | src/bootcamp_data/transforms.py:146 | a clipped value lies in the bounds, is unchanged when already inside, and clipping keeps order |
| Quantiles.Winsorize | src/bootcamp_data/transforms.py:142-146 | levels outside [0, 1] fail; otherwise length and null positions are kept |
| Quantiles.WinsorizeClamps | src/bootcamp_data/transforms.py:144-146 | each winsorized value lies between the `lo` and `hi` quantiles, values already there are unchanged, and order is kept |
| Quantiles.OutlierFlagMeaning | src/bootcamp_data/transforms.py:160-161 | a null gets a null flag; a non-null value is flagged iff it is below lo or above hi |
| Quantiles.MiddleHalfNotFlagged | src/bootcamp_data/transforms.py:160-161 | with k >= 0 a value between the quartiles is never flagged |
| Quantiles.OutlierExample | src/bootcamp_data/transforms.py:160-161 | in [1, 2, 3, 4, 5, 100] only 100 is flagged |
| Transforms.AsNumbers | src/bootcamp_data/transforms.py:160-161 | fails iff some cell is neither null nor a number; otherwise nulls stay null and numbers are read exactly |
| Transforms.AddOutlierFlag | src/bootcamp_data/transforms.py:160-161 | a missing or non-numeric column fails; otherwise `col__is_outlier` is added and nothing else changes |
| Transforms.AddOutlierFlagMeaning | src/bootcamp_data/transforms.py:160-161 | the column itself is unchanged, a null amount gets a null flag, and a flag is true iff the value is outside the IQR bounds |
| Etl.AssertUniqueKeyEtl | src/bootcamp_data/etl.py:36-39 | fails iff the key column is missing or some value, null included, repeats |
| Etl.UniqueKeyChecksCompared | src/bootcamp_data/etl.py:36-39 | the strict `quality.py` check implies this one, this one implies the lenient one, and two nulls fail it |
| Etl.TwoNullsRepeat | src/bootcamp_data/etl.py:38 | two nulls count as a repeated value |
| Etl.Matches | src/bootcamp_data/etl.py:43 | the right rows a left key matches (nulls match nulls), in increasing order |
| Etl.MatchTwiceIsRepeat | src/bootcamp_data/etl.py:43 | a key matching twice means the right key repeats |
| Etl.RowPairs | src/bootcamp_data/etl.py:43 | every merged row pairs a left row with a right row of equal key, or with none when nothing matches |
| Etl.RowPairsOneToOne | src/bootcamp_data/etl.py:43 | when no key matches twice, merged row i is left row i with its match, if any |
| Etl.RowPairsFanOut | src/bootcamp_data/etl.py:43 | a key that matches twice adds rows |
| Etl.SafeLeftJoin | src/bootcamp_data/etl.py:41-43 | fails iff a side lacks the key, or validation finds a repeated right key, or the `_x`/`_y` renaming leaves two columns with one name (within a side or across the sides); a repeated key gives the many-to-one error; otherwise the columns are the left ones then the renamed right ones |
| Etl.JoinLeftColumns | src/bootcamp_data/etl.py:43 | each left column, under its possibly suffixed name, follows the left row of each merged row |
| Etl.JoinRightColumns | src/bootcamp_data/etl.py:43 | each right column other than the key follows the matching right row, null where there is none |
| Etl.Lookup | src/bootcamp_data/etl.py:43 | the value of the first right row with the key, or null when no right row has it |
| Etl.JoinManyToOne | src/bootcamp_data/etl.py:79-84 | with validation passing: one merged row per left row in left order; left values kept; right values those of the one matching user, or null |
| Etl.JoinKeepsLeft | src/bootcamp_data/etl.py:79-84 | with validation passing, an unrenamed left column comes through whole |
| Etl.JoinRowCount | src/bootcamp_data/etl.py:43 | without validation the row count is at least the left one, and equal iff no key matches twice |
| Etl.CheckInputs | src/bootcamp_data/etl.py:47-51 | passes iff orders has its six columns, users its three, both have rows and the user ids do not repeat; the orders column check is reported first |
| Etl.StatusMapSettled | src/bootcamp_data/etl.py:54 | the status map sends "refunded" to "refund", and its images map to themselves |
| Etl.StatusCleanValues | src/bootcamp_data/etl.py:58-63 | `status_clean` is null iff the status is; otherwise it is normalised text, never "refunded"; "refunded" becomes "refund" and any other status keeps its normalised spelling |
| Etl.CleanOrders | src/bootcamp_data/etl.py:56-66 | a schema failure is passed on; succeeds iff the schema succeeds and `status` exists; the row count is kept |
| Etl.CleanOrdersNames | src/bootcamp_data/etl.py:56-66 | the chain adds exactly `status_clean`, `amount__isna` and `quantity__isna` |
| Etl.CleanOrdersStatus | src/bootcamp_data/etl.py:58-63 | `status_clean` is the cleaned raw status |
| Etl.CleanOrdersFlags | src/bootcamp_data/etl.py:64-65 | the flags mark the nulls of the coerced amount and quantity |
| Etl.CleanOrdersKeeps | src/bootcamp_data/etl.py:56-66 | coerced columns are `enforce_schema`'s; any other input column is unchanged |
| Etl.CleanUsers | src/bootcamp_data/etl.py:69 | only `user_id` is replaced, by its text cast; names and row count are kept |
| Etl.CleanUsersKeepsTextIds | src/bootcamp_data/etl.py:69 | ids already text or null are left exactly as they are |
| Etl.Timestamps | src/bootcamp_data/etl.py:72-76 | fails iff `created_at` is missing; `created_at` becomes the parsed column, the five parts derive from it, and other columns are kept |
| Etl.PreJoin | src/bootcamp_data/etl.py:56-76 | an orders-chain failure is passed on; succeeds iff that chain succeeds and `created_at` exists; the row count is kept |
| Etl.Finish | src/bootcamp_data/etl.py:86-89 | missing `amount` fails; succeeds iff `amount` is numeric; otherwise only `amount_winsor` and `amount__is_outlier` are written |
| Etl.FinishKeeps | src/bootcamp_data/etl.py:86-89 | the last two steps add or change only `amount_winsor` and `amount__is_outlier` |
| Etl.FinishWinsor | src/bootcamp_data/etl.py:86-88 | `amount_winsor` is null iff `amount` is; otherwise it lies between the 1% and 99% quantiles, equals the amount when already inside, and keeps order |
| Etl.FinishOutlier | src/bootcamp_data/etl.py:89 | `amount__is_outlier` is null iff `amount` is; otherwise it is true iff the amount is outside the 1.5 IQR bounds |
| Etl.Transform | src/bootcamp_data/etl.py:44-92 | a failed input check is reported before any other step runs |
| Etl.TransformKeepsRows | src/bootcamp_data/etl.py:56-92 | the output has exactly one row per raw order |
| Etl.TransformKeepsOrderColumn | src/bootcamp_data/etl.py:79-89 | an orders-side column the users do not share comes through the join and last steps unchanged |
| Etl.TransformStatusClean | src/bootcamp_data/etl.py:54-63 | the output's `status_clean` is the cleaned status of each order |
| Etl.TransformCreatedAt | src/bootcamp_data/etl.py:72-73 | the output's `created_at` is the parsed timestamp of each order |
| Etl.TransformUserId | src/bootcamp_data/etl.py:56-84 | the output's key is each order's `user_id` cast to text |
| Etl.TransformUserColumn | src/bootcamp_data/etl.py:69-84 | a user column holds, in row i, the value of the user whose text id equals the order's, or null when none does |
| Etl.TransformAmountColumns | src/bootcamp_data/etl.py:86-89 | the output's `amount_winsor` and `amount__is_outlier` are the winsorized amounts and the outlier flags of its own `amount` |
| Etl.AmountNotInJoinNames | src/bootcamp_data/etl.py:79-86 | if both sides have `amount`, the join has no column of that name |
| Etl.AmountNumericInJoin | src/bootcamp_data/etl.py:79-86 | if the users have no `amount`, the join carries the coerced amounts, numbers or nulls only |
| Etl.TransformFailures | src/bootcamp_data/etl.py:56-92 | after the checks pass, only four failures remain: a fractional quantity, ids equal as text (and only then the many-to-one error), two columns left with one name after the `_x`/`_y` renaming, or a users `amount` column |
| Etl.CastKeysCanCollide | src/bootcamp_data/etl.py:51-69 | the ids 1 and "1" are distinct raw but equal after the text cast |
| Etl.TransformRejectsCastCollision | src/bootcamp_data/etl.py:51-84 | whenever user ids collide as text, `transform` fails with the many-to-one error although the input checks passed |
| Etl.TextIdsPassTheJoinCheck | src/bootcamp_data/etl.py:51-84 | with all-text user ids, the many-to-one validation never fails after the checks pass |
| Etl.UserSide | src/bootcamp_data/etl.py:167 | the users columns other than `user_id` |
| Etl.OrdersClean | src/bootcamp_data/etl.py:167-169 | keeps the row count and a column iff it is `user_id` or not a users column; the kept columns are unchanged and stay in order |
| Etl.OrdersCleanKeepsOrders | src/bootcamp_data/etl.py:167-169 | after `transform`, `orders_clean` has one row per order and every orders-side column the users do not share |
| Etl.WriteRunMeta | src/bootcamp_data/etl.py:173-180 | records the three row counts; `missing_created_at` is the null count of `created_at`, 0 without the column, and 0 iff no timestamp is null; `country_match_rate` is 0.0 without `country`, NaN on no rows, otherwise in [0, 1], and 1 iff every row has a country |
| Etl.MatchRate | src/bootcamp_data/etl.py:180 | the share of rows with a country lies in [0, 1]: 1 iff every row has one, 0 iff none does |
| Etl.RunMetaOfTransform | src/bootcamp_data/etl.py:175-180 | after `transform`, rows out equal rows in, and `missing_created_at` counts the orders whose `created_at` is null or unparseable |

## Left out

- File I/O, configuration and logging are not modelled: `load_inputs`, the parquet writes, the JSON dump, `ETLConfig` and `run_etl` (etl.py:7-22, 160-211). The scripts under `scripts/` only sequence those calls.
- Datetime parsing, UTC conversion and calendar parts are `Library` parameters. This covers `pd.to_datetime`, `.dt.date`, `.dt.year`, `to_period("M")`, `day_name()` and `.dt.hour`. So is the text pandas renders for a float, timestamp or date under `astype("string")`.
- The `.dt` accessor on a column with no timestamp values at all is not modelled. The model treats it as a column of nulls, while pandas may refuse an all-null column of object dtype.
- Floating-point behaviour is not modelled: numbers are exact, and the `Float64`/`Int64` dtypes are number and integer cells.
- Etl.WriteRunMeta: `round(..., 3)` on `country_match_rate` is left out; the rate is exact.
- Numeric.ParseDecimal: `pd.to_numeric` also accepts exponents, "inf", "nan" and surrounding whitespace. The model reads plain signed decimals only, and anything else is null.
- TextNorm.Normalize: case folding covers ASCII letters only; Unicode case folding (such as "ß" to "ss") is not modelled. Whitespace is Python's set of whitespace code points.
- Tables with duplicate column labels are outside the model.
- Etl.SafeLeftJoin: pandas raises on suffixed labels only when they repeat within one side. A left label renamed onto a right label (left `a` and `a_y`, right `a`) yields a frame with two `a_y` columns. Tables cannot hold duplicate labels here, so the model reports that case as `ClashingColumns` too.
- Etl.TransformFailures: its `ClashingColumns` case includes those cross-side collisions, for the same reason.
- Quality.AssertUniqueKey: in an object column Python treats `1`, `1.0` and `True` as equal keys. The model's `Int(1)`, `Num(1.0)` and `Flag(true)` are distinct values, so a mixed-type key column such as `[1, 1.0]` passes here but fails in pandas.
- Etl.AssertUniqueKeyEtl: the same mixed-type equality of `duplicated()` is not modelled, for the same reason.
- Timestamp and date cells are not numbers: `to_numeric` turns them into null, and `quantile` refuses them.
- Transforms.MissingnessReport: the sort is stable, so ties keep column order; pandas leaves tie order unspecified.
- Exception classes (AssertionError, ValueError, KeyError, TypeError) and message texts are not modelled. Each failure is a `Failure` value carrying the reported data: the missing names, the duplicate count, the bound, the column.
- Quantiles.OutlierFlags: a null amount gets a null flag (`Option<bool>`), following pandas' three-valued logic on nullable dtypes.
- The validators never modify their inputs. This holds by construction: they are functions on values and return no table.

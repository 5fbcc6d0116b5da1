# Stock-direction pipeline: a Dafny model

This project models the deterministic core of a small stock-direction pipeline written
in Python with pandas. The pipeline has these stages:

- It cleans a price table (column checks, median fill, missing-share filters, z-score
  normalisation and clipping, date sort and OHLCV casts, forward fill, daily returns).
- It computes technical features: gap, daily range, moving averages, rolling volatility,
  volume z-scores, Wilder RSI and MACD, plus the three homework features.
- It builds the modelling table, labels each row with the next day's direction and cuts
  the rows into a training part and a holdout by position.
- It trains and saves a classifier bundle, then scores the holdout with accuracy,
  precision, recall, F1 and ROC-AUC, and sweeps the decision threshold.
- It checks the feature payload of a prediction request and the file format a path names.

Modelling conventions:

- A data frame is a value (`Frames.Frame`): a row count, uniquely named typed columns and
  the `source_file` attribute.
- A missing cell (NaN, NaT) is `None`. Floats are Dafny reals.
- A division that pandas turns into an infinity is also missing.
- Every pandas operation in the code copies its input, so the cleaning and feature steps
  are functions from frame to frame.
- The loops that reassign columns one by one are methods with those loops:
  `fill_missing_median`, `normalize_data`, `clip_extreme_zscores` and the threshold
  sweep. The run of column assignments in `add_technical_features` is a method of
  successive statements (`Features.WriteFeatures`).
- The saved model and the processed-data directory are the state of a class,
  `ModelIO.Workspace`, whose methods update it.
- What the code delegates to libraries it does not show comes in as a parameter:
  - the square root (`sqrt`, constrained by `Stats.IsSqrt`);
  - the string parsers of `to_numeric` and `to_datetime` (`Frames.Parsers`);
  - what Python's `float` reads from a string (`Frames.FloatReader`), used by `astype(float)` and `validate_features`;
  - the scaler and logistic regression (`fit`) and their `predict_proba` (`predict`);
  - scikit-learn's ROC-AUC (`auc`).

Modules, one per file:

| module | file | models |
|---|---|---|
| `Frames` | frames.dfy | frames, cells, errors, column reads and writes, row selection |
| `Stats` | stats.dfy | sum, mean, both variances, median, the square-root contract |
| `Cleaning` | cleaning.dfy | `project/src/cleaning.py` generic part, `homework/homework6/src/cleaning.py` |
| `Ohlcv` | ohlcv.dfy | `sort_and_cast_ohlcv`, `ffill_ohlcv_by_date`, `add_returns` |
| `Indicators` | indicators.dfy | shift, diff, rolling mean and std, `ewm(adjust=False)`, `_rsi` |
| `Features` | features.dfy | `add_technical_features`, `select_model_dataset` |
| `BasicFeatures` | basic_features.dfy | `homework/homework9/src/features.py` |
| `Metrics` | metrics.dfy | `evaluate_classifier`, the threshold sweep, `np.linspace` |
| `Dataset` | dataset.dfy | the `y_up` label, the complete-row table, the positional split |
| `ModelIO` | model_io.dfy | `project/src/model_io.py` |
| `Analysis` | analysis.dfy | `run_full_analysis` |
| `Payload` | payload.dfy | `validate_features`, both copies |
| `Storage` | storage.dfy | `detect_format` |

## Model

| member | source | states |
|---|---|---|
| Frames.Set | project/src/features.py:31 | `df[name] = d` overwrites the column in place or appends it last; the named column then holds `d`, every other column is unchanged, and the frame stays well formed |
| Frames.SetGet | project/src/features.py:31 | writing a column's own cells back leaves the frame as it was |
| Frames.SetAdds | homework/homework9/src/features.py:16 | one column write adds exactly that column and keeps every other column |
| Frames.AddsTrans | homework/homework9/src/features.py:52-55 | two steps that add column sets `a` and then `b` together add `a + b` |
| Frames.TakeRows | project/src/cleaning.py:50 | selecting rows by position keeps every column, each taken at those positions, along with the attributes |
| Frames.TakeData | project/src/cleaning.py:50 | the cells of one column at the selected positions, in that order, missing exactly where the source cell is |
| Frames.TakeRowsGet | project/src/analysis.py:69 | a column of the selected rows is the column taken at the same positions |
| Frames.TakeRowsAll | project/src/features.py:74 | taking every row in order gives the frame back |
| Frames.FrameExt | project/src/features.py:74 | two frames with the same rows, attributes and names are equal once every column agrees |
| Frames.SelectColumns | project/src/features.py:74 | `df[cols]` with distinct names returns exactly those columns in that order, each holding what it held |
| Frames.CompleteRows | project/src/features.py:74 | lists, in ascending order, exactly the positions of the rows with no missing cell in the named columns |
| Frames.CompleteRowsAgree | project/src/analysis.py:65 | frames that agree on the named columns have the same complete rows |
| Frames.DropNa | project/src/analysis.py:65 | `dropna(subset=...)` keeps every column and the attributes and leaves no missing cell in the subset |
| Frames.DropNaSubset | project/src/model_io.py:36 | `dropna(subset=...)` raises a KeyError iff a subset name is absent, listing the absent names in order; otherwise it is `DropNa` |
| Frames.AscendingBelow | project/src/cleaning.py:50 | a strictly ascending selection of positions below `n` has at most `n` entries, so a filter never adds rows |
| Frames.Missing | project/src/cleaning.py:18 | the names absent from a set, exactly those and in the order given |
| Frames.MissingConcat | project/src/analysis.py:24 | the missing-name filter distributes over concatenation, so it keeps the order of the list |
| Frames.Project | project/src/analysis.py:70-71 | `df[features]` holds the named columns in the order given, a repeated name giving a repeated column |
| Frames.AsFloats | project/src/cleaning.py:116 | the floats arithmetic such as `pct_change` reads from a column: defined on every numeric column, keeping exactly the missing cells missing, and refused on datetime columns and on object columns holding a string |
| Frames.CastFloat | project/src/cleaning.py:74 | `astype(float)` raises iff the column holds datetimes or a string `float` cannot read; otherwise each number is kept, each string is read by `float`, each missing cell stays missing, and on every column arithmetic can read it agrees with that view |
| Frames.FloatColumn | homework/homework9/src/features.py:16 | reading a column for arithmetic raises a KeyError iff it is absent, and a conversion error iff it is not numeric; otherwise it returns one float per row |
| Frames.Lower | project/src/utils_storage.py:9 | lower-casing keeps the length and maps every character through ASCII lower-casing |
| Stats.DefinedEmpty | project/src/cleaning.py:31 | a column has no defined value iff every cell is missing |
| Stats.DefinedAll | project/src/cleaning.py:75 | a column without missing cells has all its values, in order, as its defined values |
| Stats.SumConcat | project/src/cleaning.py:75 | the sum of a concatenation is the sum of the sums |
| Stats.MeanConstant | project/src/cleaning.py:75 | the mean of a constant sequence is that constant |
| Stats.SqDevZero | project/src/cleaning.py:76 | the squared deviations from `m` sum to 0 iff every value is `m` |
| Stats.VarianceZeroIffConstant | project/src/cleaning.py:76-77 | both the ddof=0 and the ddof=1 variance vanish exactly on constant sequences |
| Stats.SqrtZero | project/src/cleaning.py:77 | a square root is non-negative and zero only at zero |
| Stats.SumAffine | project/src/cleaning.py:77 | `(x - m) / d` applied to every value sums to `(sum - n*m) / d` |
| Stats.SqDevAffine | project/src/cleaning.py:77 | scaling the deviations by `d` scales their squares by `d*d` |
| Stats.StandardizedSumZero | homework/homework6/src/cleaning.py:73-76 | standardising by the mean and any non-zero divisor gives values that sum to 0 and have mean 0 |
| Stats.StandardizedVariance | homework/homework6/src/cleaning.py:73-76 | standardising a non-constant sequence by its mean and ddof=0 standard deviation gives variance 1 |
| Stats.StandardizedSqDev | project/src/cleaning.py:76-77 | dividing the deviations by the standard deviation makes their squares sum to the number of values |
| Stats.SortSorted | project/src/cleaning.py:31 | the sort behind the median returns an ascending sequence |
| Stats.CountSort | project/src/cleaning.py:31 | sorting keeps how many values lie at or below, and at or above, any bound |
| Stats.MedianSplits | project/src/cleaning.py:31 | at least half the values lie at or below the median and at least half at or above it, so it lies between the smallest and the largest value |
| Cleaning.NumericNames | project/src/cleaning.py:15 | `select_dtypes(include=["number"])` lists exactly the float64 and Int64 columns |
| Cleaning.EnsureColumns | project/src/cleaning.py:9-21 | with no list, the numeric columns; with a list, an error iff some name is absent, listing exactly the absent names in order, otherwise the list itself unchanged |
| Cleaning.ApplyAll | project/src/cleaning.py:30-32 | the loop `for c in cols: out[c] = step(c, out[c])` on a copy, stopping at the first error; a success keeps the rows, names and attributes |
| Cleaning.ApplyAllErr | project/src/cleaning.py:30-32 | once the column loop has raised, the remaining columns do not change the outcome |
| Cleaning.ApplyAllSnoc | project/src/cleaning.py:30-32 | one more turn of the loop writes the next column on the frame built so far |
| Cleaning.ApplyAllDistinct | project/src/cleaning.py:30-32 | over distinct columns the loop succeeds iff the step succeeds on each selected input column; a success replaces exactly the selected columns by their images, and a failure reports the first failing column's error |
| Cleaning.FillNa | project/src/cleaning.py:32 | `fillna(v)` replaces exactly the missing cells by `v` and keeps every defined cell |
| Cleaning.NumberView | project/src/cleaning.py:31 | the median reads numbers from every dtype and fails only on an object column holding a string |
| Cleaning.MedianOf | project/src/cleaning.py:31 | `median(skipna=True)` exists iff some cell is defined |
| Cleaning.FillColumn | project/src/cleaning.py:31-32 | filling one column raises iff its median cannot be taken, or the column is Int64 with a missing cell and a median that is not a whole number; otherwise it keeps the dtype and every defined cell, and a missing cell takes the median when there is one |
| Cleaning.FillColumnNoGap | homework/homework6/src/cleaning.py:25-27 | a column with no missing cell whose median can be taken comes back unchanged, without error, whatever its median |
| Cleaning.FillColumnComplete | homework/homework6/src/cleaning.py:25-27 | a filled column with at least one defined value has no missing cell left |
| Cleaning.FillMissingMedian | project/src/cleaning.py:23-33 | `fill_missing_median` raises the column-validation error first; otherwise it is the column loop of `FillColumn` over the validated list |
| Cleaning.FillMissingMedianColumns | homework/homework6/src/cleaning.py:18-28 | for distinct columns: it fails iff some selected column cannot be filled, with the first such column's error; otherwise every selected column is filled, the names are kept and every other column is unchanged |
| Cleaning.KeptRows | project/src/cleaning.py:49-50 | lists, in ascending order, exactly the rows whose missing share is at most the threshold |
| Cleaning.KeptColumns | project/src/cleaning.py:52-53 | lists, in ascending order, exactly the columns whose missing share is at most the threshold |
| Cleaning.PickColumns | project/src/cleaning.py:54 | the columns at ascending positions, rows untouched |
| Cleaning.DropMissing | project/src/cleaning.py:35-57 | a threshold outside [0, 1] raises first, then an unknown axis; the row axis keeps exactly the rows whose missing share is at most the threshold, in order, with every column; the column axis keeps exactly such columns, in order, with every row |
| Cleaning.ShareAtMostOne | homework/homework6/src/cleaning.py:43-45 | a missing count over a positive total is a share of at most 1 |
| Cleaning.ThresholdOneKeepsAll | homework/homework6/src/cleaning.py:43-49 | at threshold 1 every row is kept when there is a column, and every column when there is a row |
| Cleaning.AffineCells | project/src/cleaning.py:77 | `(s - mu) / sd` maps each defined cell and keeps each missing cell missing |
| Cleaning.DefinedAffine | project/src/cleaning.py:77 | the defined values of the mapped column are the mapped defined values |
| Cleaning.ZScores | project/src/cleaning.py:74-77 | the z-scores of a column, one per cell (their values are stated by `ZScoresConstant` and `ZScoresStandardize`) |
| Cleaning.ZScoresConstant | project/src/cleaning.py:77 | a column whose defined values are all equal becomes 0.0 in every cell |
| Cleaning.ZScoresStandardize | homework/homework6/src/cleaning.py:69-76 | a non-constant column becomes `(x - mean) / std` at its defined cells, and those z-scores have mean 0 and variance 1 |
| Cleaning.ZScoresIdempotent | project/src/cleaning.py:73-77 | normalising a normalised column changes nothing |
| Cleaning.NormalizeColumn | project/src/cleaning.py:74-77 | one turn of the normalisation loop raises iff `astype(float)` cannot convert the column; otherwise it gives the z-scores of the converted values as floats |
| Cleaning.NormalizeData | project/src/cleaning.py:59-78 | `normalize_data` reports the column-validation error first, then rejects any method that is not "zscore" in some case; otherwise it is the column loop of z-scores |
| Cleaning.NormalizeDataColumns | homework/homework6/src/cleaning.py:69-77 | for distinct columns: it fails iff `astype(float)` cannot convert some selected column; otherwise each selected column holds the z-scores of its converted values and every other column is unchanged |
| Cleaning.ClipCells | project/src/cleaning.py:131 | `np.clip` on a Series keeps missing cells missing and bounds every value to [-abs(z), abs(z)] whatever the sign of `z` (pandas orders the two bounds): values inside the band pass unchanged, the others go to the nearer bound |
| Cleaning.ClipColumn | project/src/cleaning.py:126-131 | one turn of the clipping loop raises iff `astype(float)` cannot convert the column, and keeps the column length |
| Cleaning.ClipColumnBounds | project/src/cleaning.py:126-131 | a constant column is skipped and keeps cells and dtype; any other column holds, at exactly the cells defined after the cast, z-scores within [-abs(z), abs(z)] for every `z`, those already inside the band unchanged and the others at the nearer bound |
| Cleaning.ClipExtremeZscores | project/src/cleaning.py:119-132 | `clip_extreme_zscores` reports the column-validation error first; otherwise it is the column loop of `ClipColumn` |
| Cleaning.ClipExtremeZscoresColumns | project/src/cleaning.py:123-132 | for distinct columns: it fails iff `astype(float)` cannot convert some selected column; otherwise each selected column is clipped on its own and every other column is unchanged |
| Ohlcv.ToDates | project/src/cleaning.py:89 | `to_datetime(errors="coerce")` always gives a datetime column of the same length, keeps missing cells missing, and leaves a datetime column as it is |
| Ohlcv.ToNumeric | project/src/cleaning.py:93 | `to_numeric(errors="coerce")` always gives a numeric column and never raises; it keeps numbers and missing cells, reads a datetime column as int64 with NaT as the int64 minimum, and leaves a numeric column as it is |
| Ohlcv.ToInt64 | project/src/cleaning.py:95 | the Int64 cast raises iff some coerced value is not a whole number; otherwise it gives the same values as Int64 |
| Ohlcv.InsertBy | project/src/cleaning.py:90 | inserting a row position into an order adds exactly that position |
| Ohlcv.SortBy | project/src/cleaning.py:90 | the row sort is a permutation of the positions it is given |
| Ohlcv.InsertBySorted | project/src/cleaning.py:90 | for a total order on the keys, inserting a row into a sorted order keeps it sorted |
| Ohlcv.SortBySorted | project/src/cleaning.py:90 | for a total order on the keys, the row sort puts the keys in ascending order |
| Ohlcv.SortBySortedInput | project/src/cleaning.py:90 | sorting positions already in order leaves them in place |
| Ohlcv.OrderBy | project/src/cleaning.py:90 | the order of a sort by a total order is a permutation of all rows, ascending by key |
| Ohlcv.OrderByReachesAll | project/src/cleaning.py:90 | every row appears in the sort order |
| Ohlcv.OrderBySorted | project/src/cleaning.py:90 | on keys already in order the sort is the identity |
| Ohlcv.Order | project/src/cleaning.py:90 | the order of `sort_values("date")` on datetimes is a permutation of all rows, ascending by date with NaT last |
| Ohlcv.SortByDate | project/src/cleaning.py:88-90 | the date block keeps the rows, names and attributes |
| Ohlcv.CastIfPresent | project/src/cleaning.py:92-93 | casting a present column changes that column only |
| Ohlcv.CastPrices | project/src/cleaning.py:91-93 | the four price columns present are cast to numbers and no other column changes |
| Ohlcv.SortAndCastOhlcv | project/src/cleaning.py:82-96 | `sort_and_cast_ohlcv` keeps the rows, names and attributes |
| Ohlcv.RowOrder | project/src/cleaning.py:88-90 | the rows are reordered by a permutation of all positions |
| Ohlcv.SortByDateColumns | project/src/cleaning.py:88-90 | after the date block every column is its input column reordered by that permutation, with the date column parsed as well |
| Ohlcv.SortAndCastColumns | project/src/cleaning.py:82-96 | every column of the result is its input column reordered then cast by its role; it fails iff the reordered volume cannot be cast to Int64; the permutation puts the parsed dates in ascending order |
| Ohlcv.TakeDates | project/src/cleaning.py:89-90 | parsing dates commutes with reordering rows |
| Ohlcv.FFill | project/src/cleaning.py:105 | `ffill()` keeps defined cells, gives a missing cell the value above it, and leaves a leading missing cell missing |
| Ohlcv.FFillNearest | project/src/cleaning.py:105 | a filled cell is missing iff nothing at or above it is defined; otherwise it is the nearest defined value at or above it |
| Ohlcv.FFillIdempotent | project/src/cleaning.py:105 | forward-filling twice is forward-filling once |
| Ohlcv.FFillData | project/src/cleaning.py:105 | the fill of a numeric column keeps its dtype and length |
| Ohlcv.FFillDataIdempotent | project/src/cleaning.py:105 | the fill of a numeric column is idempotent |
| Ohlcv.Present | project/src/cleaning.py:104 | the OHLCV names that are columns, in the listed order, without repeats |
| Ohlcv.FillForward | project/src/cleaning.py:105 | `out[cols] = out[cols].ffill()` fills exactly the listed columns and leaves every other column unchanged |
| Ohlcv.FfillOhlcvByDate | project/src/cleaning.py:98-106 | `ffill_ohlcv_by_date` fails iff the sort and cast fails, with its error, and keeps the rows and names |
| Ohlcv.SettledAfterCast | project/src/cleaning.py:82-96 | what `sort_and_cast_ohlcv` returns has parsed dates in ascending order, numeric prices and an Int64 volume |
| Ohlcv.DateSettledAfterCast | project/src/cleaning.py:88-90 | after `sort_and_cast_ohlcv` the date column holds time points in ascending order, NaT last |
| Ohlcv.SettledAfterFill | project/src/cleaning.py:105 | the forward fill keeps a frame in that state |
| Ohlcv.SortAndCastSettled | project/src/cleaning.py:82-96 | a frame already in that state goes through `sort_and_cast_ohlcv` unchanged |
| Ohlcv.FfillOhlcvIdempotent | project/src/cleaning.py:98-106 | applying `ffill_ohlcv_by_date` twice gives what applying it once does |
| Ohlcv.FillForwardTwice | project/src/cleaning.py:105 | forward-filling the same columns twice fills them once |
| Ohlcv.PctChange | project/src/cleaning.py:116 | `pct_change()` is missing on row 0, and elsewhere is the change between the padded values of the row and the row above |
| Ohlcv.PctChangeConsecutive | project/src/cleaning.py:116 | between two defined prices the return is `p[i] / p[i-1] - 1`, missing when `p[i-1]` is 0 |
| Ohlcv.PctChangeGap | project/src/cleaning.py:116 | a missing price after a defined non-zero one has return 0 |
| Ohlcv.PctChangeAfterGap | project/src/cleaning.py:116 | the first price after a gap is compared with the last defined price before it, and before any defined price the return is missing |
| Ohlcv.AddReturns | project/src/cleaning.py:108-117 | `add_returns` raises the sort-and-cast error first, then an error when the price column is absent, then one when it cannot be read as floats; it succeeds exactly when none of these applies, writing the returns of the cast prices, in place or appended, and keeping every other column of the cast frame |
| Ohlcv.AddReturnsOhlcv | project/src/cleaning.py:113-116 | for an OHLCV price or the volume, once the cast succeeds `add_returns` succeeds exactly when the column is present |
| Indicators.Shift | project/src/features.py:31 | `shift(1)` moves every value one row down and leaves row 0 missing |
| Indicators.Diff | project/src/features.py:14 | `diff()` is missing on row 0 and elsewhere is the value minus the one above it |
| Indicators.Window | project/src/features.py:37 | the `w` cells ending at row `i` |
| Indicators.WindowValues | project/src/features.py:37 | the values of a complete trailing window, in order |
| Indicators.RollingMean | project/src/features.py:37-38 | `rolling(w).mean()` is defined exactly where the trailing window is complete, so never on the first `w - 1` rows |
| Indicators.RollingMeanAt | project/src/features.py:37-38 | where defined, the rolling mean is the mean of the trailing window |
| Indicators.RollingMeanPrefix | project/src/features.py:37-38 | on a gap-free series the rolling mean is the difference of two prefix sums over the window length |
| Indicators.RollingMeanConstant | project/src/features.py:37-38 | a window full of one value has that value as its mean |
| Indicators.SampleStd | project/src/features.py:42 | the ddof=1 standard deviation is non-negative and 0 exactly on constant values |
| Indicators.RollingStd | project/src/features.py:42 | `rolling(w).std()` is defined exactly where the window is complete, never on the first `w - 1` rows, and is 0 exactly on a constant window |
| Indicators.RollingStdAt | project/src/features.py:46 | where defined, the rolling std is the sample standard deviation of the trailing window |
| Indicators.EwmStep | project/src/features.py:53 | one input of the `adjust=False` kernel counts an observation iff it is present, and a value exists from the first observation on |
| Indicators.EwmAfterSnoc | project/src/features.py:53 | the state after one more row is one more step |
| Indicators.Ewm | project/src/features.py:53-56 | `ewm(adjust=False).mean()` gives one value per row |
| Indicators.EwmFirst | project/src/features.py:53 | without `min_periods` the average starts at the first value |
| Indicators.SpanAlpha | project/src/features.py:53-56 | `span=n` gives a smoothing factor in (0, 1] |
| Indicators.EwmAfterFull | project/src/features.py:53 | over a gap-free run every row is counted and the old weight stays 1 |
| Indicators.StepAfterFull | project/src/features.py:53 | after a gap-free run a step is the textbook smoothing step |
| Indicators.EwmRecurrence | project/src/features.py:53-56 | on a gap-free series `ema[0] = x[0]` and `ema[t] = alpha * x[t] + (1 - alpha) * ema[t-1]` |
| Indicators.EwmFullStep | project/src/features.py:53 | on a gap-free prefix one more value is blended in with weight `alpha` |
| Indicators.EwmConstant | project/src/features.py:53-56 | a constant series averages to that constant on every row |
| Indicators.StepAtLeast | project/src/features.py:17 | one kernel step keeps a lower bound of the value and the observation |
| Indicators.StepAtMost | project/src/features.py:17 | one kernel step keeps an upper bound of the value and the observation |
| Indicators.EwmAfterAtLeast | project/src/features.py:17 | every average is at least any lower bound of the observations |
| Indicators.EwmAfterAtMost | project/src/features.py:17 | every average is at most any upper bound of the observations |
| Indicators.EwmWithin | project/src/features.py:17-18 | the weighted mean never leaves the range of the observations |
| Indicators.EwmSeen | project/src/features.py:17 | the count of observations never exceeds the rows seen, and is below it when row 0 is missing |
| Indicators.EwmWarmup | project/src/features.py:17-18 | with `min_periods = n` and row 0 missing, rows `0 .. n - 1` have no value whatever the rest |
| Indicators.EwmAtLeast | project/src/features.py:17 | an average is at least any lower bound of the observations |
| Indicators.Gain | project/src/features.py:15 | `clip(lower=0)` keeps exactly the defined cells, is non-negative, and keeps positive differences |
| Indicators.Loss | project/src/features.py:16 | `-clip(upper=0)` keeps exactly the defined cells, is non-negative, and negates negative differences |
| Indicators.WilderAlpha | project/src/features.py:17-18 | `alpha = 1/n` is a smoothing factor in (0, 1] |
| Indicators.AvgGain | project/src/features.py:17 | the smoothed gains, one per row |
| Indicators.AvgLoss | project/src/features.py:18 | the smoothed losses, one per row |
| Indicators.RsiValue | project/src/features.py:19-20 | `100 - 100 / (1 + u/d)` is missing when an average is missing; a zero loss gives 100, or NaN when the gain is 0 as well; a positive loss gives a value in [0, 100) |
| Indicators.RsiBounds | project/src/features.py:20 | a non-negative gain over a positive loss gives an RSI in [0, 100) |
| Indicators.Rsi | project/src/features.py:13-20 | `_rsi` gives one value per row |
| Indicators.RsiWarmup | project/src/features.py:14-18 | row 0 has no difference, so the RSI is undefined on rows `0 .. n - 1` whatever the prices |
| Indicators.RsiRange | project/src/features.py:19-20 | where both averages exist and the average loss is positive, the RSI lies in [0, 100) |
| Features.GapPct | project/src/features.py:31 | `gap_pct` is missing on row 0, and on row `i` is `open[i] / close[i-1] - 1` exactly when both are defined and the earlier close is non-zero |
| Features.ZeroAsMissing | project/src/features.py:34 | `replace(0, np.nan)` turns exactly the zeros into missing cells |
| Features.DailyRangePct | project/src/features.py:34 | `daily_range_pct` is missing, never an error, where the close is 0; it is `(high - low) / close` exactly where all three are defined and the close is non-zero |
| Features.MaRatio | project/src/features.py:39 | `ma_ratio_5_20` gives one value per row |
| Features.MovingAverageWarmup | project/src/features.py:37-39 | `ma_5` is missing on rows 0-3, and `ma_20` and the ratio on rows 0-18 |
| Features.MaRatioConstant | project/src/features.py:37-39 | a constant non-zero close gives a ratio of 0 from row 19 on |
| Features.VolumeZ20 | project/src/features.py:45-47 | `volume_z20` gives one value per row |
| Features.VolumeZ20Defined | project/src/features.py:45-47 | `volume_z20` is missing on rows 0-18; it is defined iff the 20-row window is complete and not constant (0 / 0 otherwise); where complete it is the last volume's distance from the window mean over the window's sample std |
| Features.VolumeZ20Cell | project/src/features.py:45-47 | one cell of `volume_z20`, read off the rolling mean and rolling std of the same window |
| Features.Macd | project/src/features.py:53-55 | `macd` gives one value per row |
| Features.MacdSignal | project/src/features.py:56 | `macd_signal` gives one value per row |
| Features.MacdStart | project/src/features.py:53-56 | both averages start at the first close, so `macd[0] = macd_signal[0] = 0` |
| Features.MacdConstant | project/src/features.py:53-56 | a constant close gives `macd` and `macd_signal` 0 on every row |
| Features.EnsureDatetime | project/src/features.py:6-11 | `_ensure_datetime_tz` succeeds iff there is a `date` column, and raises a KeyError for it otherwise; on success it parses that column and changes no other |
| Features.SortedCopy | project/src/features.py:28 | the frame the features are computed on is the parsed frame with its rows reordered by date |
| Features.Operands | project/src/features.py:31-47 | reading the input columns succeeds iff each is present and numeric; otherwise the error is the first absent column's KeyError, or one column's conversion error |
| Features.FeatureData | project/src/features.py:31-56 | the ten feature columns, one value per row each |
| Features.Write | project/src/features.py:31-56 | one assignment of the sequence extends the written prefix by the next feature column |
| Features.WriteFeatures | project/src/features.py:31-56 | the ten successive assignments write exactly the feature columns and keep every other column |
| Features.OperandsFail | project/src/features.py:31-47 | a failed read of input columns is the error of one of them |
| Features.InputFails | project/src/features.py:31-47 | one input that cannot be read as floats fails the whole feature step |
| Features.AddTechnicalFeatures | project/src/features.py:22-58 | `add_technical_features` raises a KeyError without `date`; otherwise it succeeds iff every input column of the date-sorted frame is present and numeric, fails with one input's error, and on success holds every feature column as its function of the inputs with every other column unchanged |
| Features.Technical | project/src/features.py:31-58 | on the sorted frame, success iff every input is readable, and then every feature column as its function of the inputs |
| Features.Assign | project/src/features.py:31-56 | the computed feature series written in order, nothing else changed |
| Features.SelectModelDataset | project/src/features.py:60-74 | `select_model_dataset` raises a KeyError iff a modelling column is absent, listing the absent ones in order; otherwise it returns exactly the eleven columns in their order with no missing cell |
| Features.SelectModelDatasetRows | project/src/features.py:74 | its rows are the complete input rows in their original order, each column holding the input cells at those rows |
| Features.SelectedModelColumns | project/src/features.py:74 | the projection on the modelling columns reads each of them as the input does |
| BasicFeatures.VolatilityRatio | homework/homework9/src/features.py:16 | `(high - low) / close` is defined exactly where all three are defined and the close is non-zero, and is that quotient |
| BasicFeatures.AddVolatilityRatio | homework/homework9/src/features.py:5-17 | a KeyError iff one of high, low, close is absent, naming exactly the absent set; otherwise success iff all three are numeric, with `volatility_ratio` written and every other column kept |
| BasicFeatures.RatioColumn | homework/homework9/src/features.py:16 | the ratio of a frame holding the inputs, or the error of a non-numeric input |
| BasicFeatures.VolumeZscore | homework/homework9/src/features.py:26-30 | the volume z-score keeps exactly the missing cells missing |
| BasicFeatures.VolumeZscoreConstant | homework/homework9/src/features.py:28-30 | a constant volume has std 0, so the divisor is 1 and every cell becomes 0 |
| BasicFeatures.VolumeZscoreSumZero | homework/homework9/src/features.py:28-30 | whatever the divisor, the defined z-scores sum to 0 |
| BasicFeatures.AddVolumeZscore | homework/homework9/src/features.py:19-31 | a KeyError without `volume`; otherwise success iff it is numeric, with `volume_zscore` written and every other column kept |
| BasicFeatures.Interaction | homework/homework9/src/features.py:44 | `ret_1d * volume_zscore` row by row, missing where either side is |
| BasicFeatures.AddRetVolInteraction | homework/homework9/src/features.py:33-45 | a KeyError naming `ret_1d` when absent, else naming `volume_zscore` when absent; otherwise the product written and every other column kept |
| BasicFeatures.AddBasicFeatures | homework/homework9/src/features.py:47-55 | on success exactly the three feature columns are added and every other column is unchanged |
| BasicFeatures.ChainAdds | homework/homework9/src/features.py:52-55 | the three steps in order add the three columns |
| BasicFeatures.SameColumn | homework/homework9/src/features.py:52-55 | a column that a step does not write reads the same after it |
| BasicFeatures.BasicFeaturesOk | homework/homework9/src/features.py:47-55 | the wrapper succeeds whenever the five input columns are present and numeric |
| BasicFeatures.LaterStepsOk | homework/homework9/src/features.py:53-54 | after the ratio, the z-score and interaction steps succeed on numeric inputs |
| BasicFeatures.BasicFeaturesAdded | homework/homework9/src/features.py:47-55 | on success the five inputs were numeric and the three new columns hold the features computed from the input columns |
| Metrics.Decide | project/src/analysis.py:34 | `(proba >= thr).astype(int)` is a 0/1 vector, 1 exactly where the probability reaches the threshold |
| Metrics.DecideMonotone | project/src/analysis.py:34 | raising the threshold never turns a 0 into a 1 |
| Metrics.Count | project/src/analysis.py:36-39 | a confusion count never exceeds the number of rows |
| Metrics.Matches | project/src/analysis.py:36 | the number of agreements never exceeds the number of rows |
| Metrics.ConfusionPartition | project/src/analysis.py:36-39 | on 0/1 labels the four confusion counts partition the rows, and the agreements are the true positives plus the true negatives |
| Metrics.Ratio | project/src/analysis.py:37-39 | a ratio of counts with `zero_division=0` is non-negative, at most 1 when the numerator is at most the denominator, 0 on a zero denominator, and otherwise the exact quotient |
| Metrics.Accuracy | project/src/analysis.py:36 | accuracy is NaN iff there are no rows; otherwise it lies in [0, 1] and equals the agreements over the rows |
| Metrics.Precision | project/src/analysis.py:37 | precision lies in [0, 1] and is 0 when nothing is predicted positive |
| Metrics.Recall | project/src/analysis.py:38 | recall lies in [0, 1] and is 0 when nothing is truly positive |
| Metrics.F1 | project/src/analysis.py:39 | F1 lies in [0, 1] and is 0 without a true positive |
| Metrics.F1Harmonic | project/src/analysis.py:37-39 | F1 is the harmonic mean of precision and recall, and 0 when both are 0 |
| Metrics.HarmonicCounts | project/src/analysis.py:37-39 | with a true positive, `2tp / (2tp + fp + fn)` is the harmonic mean of `tp / (tp + fp)` and `tp / (tp + fn)` |
| Metrics.RocAuc | project/src/analysis.py:40 | a defined ROC-AUC is scikit-learn's score of the labels and probabilities |
| Metrics.RocAucNaN | project/src/analysis.py:40 | ROC-AUC is NaN exactly when every label is the same |
| Metrics.EvaluateClassifier | project/src/analysis.py:33-41 | accuracy is NaN iff there are no rows and otherwise lies in [0, 1]; precision, recall and F1 lie in [0, 1]; ROC-AUC is NaN iff the labels are all equal |
| Metrics.Linspace | project/src/analysis.py:87 | `np.linspace(a, b, n)` has `n` points, the first `a` and the last `b` |
| Metrics.LinspacePoint | project/src/analysis.py:87 | every point but the last is `a` plus a whole number of equal positive steps |
| Metrics.LinspaceBounds | project/src/analysis.py:87 | with `a < b` every point lies in [a, b] |
| Metrics.LinspaceAscending | project/src/analysis.py:87 | with `a < b` the points rise strictly |
| Metrics.ThresholdGrid | project/src/analysis.py:87 | the sweep grid has 25 thresholds from 0.2 to 0.8, all within that range |
| Metrics.ThresholdSweep | project/src/analysis.py:43-48 | one accuracy and one F1 per threshold, in grid order, each the score of the decisions at that threshold, the F1s in [0, 1] and the defined accuracies in [0, 1] |
| Dataset.Lead | project/src/analysis.py:64 | `shift(-1)` moves every value one row up and leaves the last row missing |
| Dataset.UpLabels | project/src/analysis.py:64 | `y_up[i]` is 1 iff the next row's return is present and positive, else 0; the last row gets 0, not missing |
| Dataset.UpLabelsCount | project/src/model_io.py:35 | the labels hold as many ones as there are positive returns from the second row on |
| Dataset.LabelData | project/src/analysis.py:64 | the label column is an integer column with no missing cell |
| Dataset.Label | project/src/analysis.py:64 | labelling fails with the read error iff `ret_1d` cannot be read as floats; then it fails iff `ret_1d` is a non-empty nullable Int64 column, whose last comparison is `<NA>` and cannot become an int; otherwise it adds exactly `y_up`, holding the labels of the returns |
| Dataset.LabelInt64Refused | project/src/model_io.py:35 | a one-row Int64 `ret_1d` is refused with the "cannot convert NA to integer" error |
| Dataset.LabelIdempotent | project/src/model_io.py:35 | labelling an already labelled frame changes nothing |
| Dataset.Labelled | project/src/analysis.py:64-65 | the label's errors first, then a KeyError iff some feature is neither a column nor `y_up`, naming exactly those; otherwise the labelled frame with incomplete rows dropped |
| Dataset.LabelledAgain | project/src/model_io.py:34-36 | the table built from a labelled frame is the table built from the frame |
| Dataset.LabelledRows | project/src/analysis.py:65 | the label never drops a row: the table holds exactly the rows complete on the features, in order |
| Dataset.LabelNeverMissing | project/src/analysis.py:65 | adding a column with no missing cell to the subset does not change the complete rows |
| Dataset.LabelledLabels | project/src/model_io.py:35-36 | every row of the table carries a 0/1 label |
| Dataset.TakeLabels | project/src/analysis.py:69 | selecting rows of a label column keeps it a label column |
| Dataset.LabelValues | project/src/analysis.py:71 | `y.values` of a label column is a 0/1 vector whose column is that label column |
| Dataset.Trunc | project/src/analysis.py:68 | Python's `int()` of a float truncates toward zero |
| Dataset.SliceStop | project/src/analysis.py:69 | `iloc[:cut]` counts a negative cut from the end and clamps a cut past either end |
| Dataset.CutIndex | project/src/analysis.py:68 | the cut is a row position within the table |
| Dataset.CutFloor | project/src/analysis.py:68 | for a fraction in [0, 1] the cut is the floor of `n * (1 - test_frac)` |
| Dataset.CutMonotone | project/src/analysis.py:68 | a larger holdout fraction never moves the cut later |
| Dataset.Split | project/src/analysis.py:68-69 | the training part has `cut` rows, the two parts together have every row, and both keep every column and the attributes |
| Dataset.SplitPartition | project/src/analysis.py:69 | training row `i` is table row `i` and holdout row `j` is table row `cut + j`, so every training row precedes every holdout row |
| ModelIO.Candidates | project/src/model_io.py:20 | the files matching the glob, exactly those |
| ModelIO.Newest | project/src/model_io.py:20 | the first file with the latest modification time, as a stable sort newest-first would put first |
| ModelIO.TextLeTotal | project/src/model_io.py:23 | any two strings compare in Python's string order |
| ModelIO.TextLeTransitive | project/src/model_io.py:23 | Python's string order chains |
| ModelIO.TextLeAntisymmetric | project/src/model_io.py:23 | two strings that sort before each other are equal |
| ModelIO.TextKeyLeTotal | project/src/model_io.py:23 | text dates with missing ones last are totally ordered |
| ModelIO.TextOrder | project/src/model_io.py:23 | the order of `sort_values("date")` on a text column is a permutation of all rows, ascending by text with missing cells last |
| ModelIO.ReadSorted | project/src/model_io.py:23 | reading and sorting a file with `date` fails iff some date does not parse and the text column also holds a number (TypeError); when every date parses it is the date block of `sort_and_cast_ohlcv`; it keeps the rows, names and source |
| ModelIO.ReadOrder | project/src/model_io.py:23 | the row order of reading is a permutation of all rows |
| ModelIO.ReadSortedColumns | project/src/model_io.py:23 | every non-date column is its file column in that permutation; the date column is parsed iff every date parses (all or nothing); the dates come out ascending as datetimes with NaT last, or else ascending as text with missing cells last |
| ModelIO.DatesInOrder | project/src/model_io.py:23 | after a full parse the dates are ascending, NaT last |
| ModelIO.SmallTextOrder | project/src/model_io.py:23 | text dates sort as strings: "10" before "9" before "x" |
| ModelIO.UnparsedDateKeepsText | project/src/model_io.py:23 | one unparsable date keeps the whole column as text, sorted as strings rather than by the times the other dates parse to |
| ModelIO.LoadLatest | project/src/model_io.py:19-25 | `load_latest_processed` raises FileNotFoundError iff no file matches, and succeeds iff some file matches, the newest one has a `date` column and reading it succeeds; then it holds that file read and sorted by date, with its name recorded as the source |
| ModelIO.LoadLatestChronological | project/src/model_io.py:23 | the loaded frame is in date order: datetimes ascending with NaT last when every date parses, otherwise the dates kept as text and ascending as strings, missing ones last |
| ModelIO.LoadLatestRows | project/src/model_io.py:23 | the loaded frame holds the rows of the newest file, each exactly once, every column reordered by the read permutation, the date column parsed iff every date parses |
| ModelIO.TrainCut | project/src/model_io.py:38 | `int(len(dfm) * 0.8)` is the floor of 80% of the rows |
| ModelIO.TrainCutIsDefaultSplit | project/src/model_io.py:38 | the training cut is the cut of a split that holds out a fifth of the rows |
| ModelIO.TrainModel | project/src/model_io.py:33-52 | `train_model` fails iff the labelled table cannot be built, with that error; otherwise the bundle's pipeline is `fit` on the features and labels of the first 80% of the table, with the features as passed, the threshold, the source name or "<unknown>", and version "1.0.0" |
| ModelIO.TrainRows | project/src/model_io.py:39 | `dfm.iloc[:cut]` has `TrainCut` rows and every column |
| ModelIO.TrainingRows | project/src/model_io.py:38-39 | the training rows are the first `TrainCut` rows of the table, row for row, whatever the caller's test fraction |
| ModelIO.Workspace.constructor | project/src/model_io.py:11-12 | a workspace holding the given saved bundle and processed files |
| ModelIO.Workspace.SaveBundle | project/src/model_io.py:54-57 | saving replaces the saved bundle and leaves the data directory unchanged |
| ModelIO.Workspace.LoadBundle | project/src/model_io.py:59-60 | the saved bundle, or FileNotFoundError when there is none |
| ModelIO.Workspace.EnsureModel | project/src/model_io.py:62-71 | a saved bundle is returned unchanged; otherwise the bundle trained from the newest processed file (or the error of loading or training) is returned, and saved on success; the data directory is never changed |
| Analysis.Table | project/src/analysis.py:63-65 | the loading error, or the labelled table of the newest file, which holds the date, every feature and a 0/1 label in every row |
| Analysis.TrainOnLabelled | project/src/analysis.py:74 | relabelling an already labelled frame trains the same bundle as training on the unlabelled one |
| Analysis.HoldoutOverlap | project/src/analysis.py:68-74 | with `test_frac >= 0.2` the holdout starts at or before the 80% training cut, so it can overlap the rows the saved model was fit on; with `test_frac <= 0.2` it starts at or after it; at 0.2 the two meet |
| Analysis.HoldoutColumns | project/src/analysis.py:69-71 | the holdout holds the date, every feature and a 0/1 label in every row |
| Analysis.Analyze | project/src/analysis.py:62-97 | the analysis fails iff the table cannot be built, with that error; otherwise its predictions have one probability, one truth and one decision per holdout row |
| Analysis.AnalyzeReport | project/src/analysis.py:99-108 | the report counts `n_train = cut` and `n_train + n_test` = the table's rows, and returns the features, threshold and the three output paths |
| Analysis.AnalyzeBundle | project/src/analysis.py:74-75 | the saved bundle is the one `train_model` gives for the newest processed file |
| Analysis.AnalyzeScores | project/src/analysis.py:77-95 | the holdout probabilities come from the saved pipeline on the holdout features, the truth is the holdout labels, the decisions are the probabilities at the threshold, and the metrics are `evaluate_classifier` of them |
| Analysis.RunFullAnalysis | project/src/analysis.py:58-108 | `run_full_analysis` leaves the data untouched; it fails iff the analysis fails, saving nothing; otherwise it saves the bundle and returns the report, the predictions, and one accuracy and one F1 per grid threshold |
| Payload.ToFloat | project/src/analysis.py:28 | `float(v)` of a JSON number is that number, of a boolean 1.0 or 0.0, of a string what `float` reads, and fails on null, objects and arrays |
| Payload.FirstNonNumeric | project/src/analysis.py:27-30 | the first required name whose value does not convert, every earlier one converting; absent iff every value converts |
| Payload.ValidateFeatures | project/src/analysis.py:16-31 | a ValueError iff `features` is absent or not an object; then one iff some required name is missing, listing exactly the missing names in required order; then one iff some value does not convert, naming the first such; it succeeds exactly when none of these applies, with a row of `len(required)` entries, entry `i` being `float(feats[required[i]])` |
| Payload.ExtraKeysIgnored | homework/homework13/src/utils.py:5-20 | payloads that agree on the required names validate to the same row or the same error, whatever other keys they hold |
| Payload.SameMissing | homework/homework13/src/utils.py:13 | the missing names depend only on which required names are present |
| Payload.SameFirstNonNumeric | homework/homework13/src/utils.py:16-19 | the non-numeric error depends only on the values of the required names |
| Storage.DetectFormat | project/src/utils_storage.py:8-12 | "csv" for a `.csv` suffix, otherwise "parquet" for `.parquet`, `.pq` or `.parq`, in any case; otherwise a ValueError naming the path |
| Storage.FormatKnown | project/src/utils_storage.py:10-11 | the format is always "csv" or "parquet" |
| Storage.FormatIgnoresCase | project/src/utils_storage.py:9 | two paths that agree once lower-cased name the same format |
| Storage.FormatOfLower | project/src/utils_storage.py:9 | a path and its lower-cased form name the same format |
| Storage.UpperCaseCsv | project/src/utils_storage.py:9-10 | `DATA.CSV` is a CSV file |
| Storage.UpperCaseParquet | project/src/utils_storage.py:9-11 | `x.PQ` and `prices.Parquet` are Parquet files |
| Storage.JsonRefused | project/src/utils_storage.py:12 | `prices.json` is refused with an error naming it |

## Left out

- Floating point: values are exact reals. Rounding, infinities and `np.isclose` are not modelled. A division that pandas turns into an infinity is a missing cell. A standard deviation that is tiny but non-zero, which `np.isclose(sd, 0.0)` in `normalize_data` and `clip_extreme_zscores` treats as zero, is treated as non-zero.
- The float products behind the cuts, `len(dfm) * (1 - test_frac)` and `len(dfm) * 0.8`, are exact. A rounding error that lands just below a whole number would move the cut by one row.
- Square roots, the string parsers behind `to_numeric`, `to_datetime` and `float` (`Frames.FloatReader`), the scaler and logistic regression (`fit`), their `predict_proba` and `roc_auc_score` are parameters. The model states what the code does with their results, not how they are computed. Time zones are not modelled (`utc=True` only shifts time points).
- Lower-casing covers ASCII letters only.
- Frames carry no row index. `drop_missing` keeps the labels of the surviving rows, and the date sorts keep the reordered labels. Nothing in the modelled code reads them, and the other row filters reset them, so rows are identified by position only.
- Sorting: `sort_values` is modelled as a stable sort (NaT last). pandas' default quicksort may order rows with equal dates differently; nothing here depends on the order among equal dates beyond that.
- `ModelIO.LoadLatest`: a file is given as the frame `read_csv` infers before date parsing, and a file without `date` gives `KeysNotFound(["date"])` where pandas raises a ValueError. The date parse is one string parser applied cell by cell, all or nothing; pandas 2 first infers a single format from the first date and counts a date in another format as unparsable, which the parser parameter captures only when it is chosen for that file.
- File I/O and the rest of the web and plotting glue are not modelled:
  - reading and writing CSV and Parquet (`write_df`, `read_df`), `ensure_dir`, `mkdir`;
  - `joblib` persistence, beyond the saved bundle kept by `ModelIO.Workspace`;
  - the metrics and predictions CSVs, beyond the values returned;
  - drawing the threshold chart, the Flask app, and the configuration and download helpers in the other homework folders.
- scikit-learn's refusal to fit or score empty input is not modelled: `fit` and `predict` are total. `accuracy_score` on empty input (NaN) is `None`.
- `Metrics.RocAuc`: the value of a defined score is whatever scikit-learn returns (`auc`). Only when it is NaN is stated.
- `Ohlcv.SortAndCastOhlcv`, `Ohlcv.FfillOhlcvByDate`, `Ohlcv.SortByDate`: their own contracts state only shape. The column contents, order and failure condition are stated by `Ohlcv.SortAndCastColumns`, `Ohlcv.SortByDateColumns`, `Ohlcv.SettledAfterCast` and `Ohlcv.FfillOhlcvIdempotent`.
- `Indicators.Ewm`, `Indicators.Rsi`, `Features.MaRatio`, `Features.Macd`, `Features.MacdSignal`, `Features.VolumeZ20`: their own contracts state only the length. Their values are stated by the lemmas beside them: recurrence, constants, warm-up, bounds and definedness.
- `BasicFeatures.AddBasicFeatures`: its own contract states only which columns are added. Success and contents are stated by `BasicFeatures.BasicFeaturesOk` and `BasicFeatures.BasicFeaturesAdded`.
- `Cleaning.FillMissingMedian`, `Cleaning.NormalizeData`, `Cleaning.ClipExtremeZscores`: with a column list that repeats a name, the loop is modelled, but the column-by-column lemmas assume distinct names.
- `train_model` copies its input (`df.copy()`), so the caller's frame is untouched. Frames here are values, so this holds by construction and has no lemma.

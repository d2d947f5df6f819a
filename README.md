# Stock analysis and LSTM forecasting — a Dafny model

This project models the computational core of a Streamlit app that downloads
daily stock prices, analyses them, and forecasts closing prices with an LSTM
network. There are two parts.

- **The forecasting pipeline** (`preprocessing_model.py`):
  - choose a scaler by name and fit it on the whole Close column;
  - cut the series at `ceil(n * size)`;
  - build the (window, next close) training pairs, with a window of 60 by default;
  - train a network with an optimizer chosen by name;
  - predict every row after the cut from the window before it;
  - forecast `days` future closes recursively, feeding each scaled prediction
    back into the window.
- **The analysis helpers** (`preprocessing.py`), all on a price table:
  - running peak and drawdown, and the longest drawdown in days;
  - daily returns and the up/down counts;
  - the omega ratio;
  - trailing means of the close;
  - the average true range;
  - the ticker with the highest or lowest last value of a column.

Modules:

- `Base` (base.dfy): `Option`, `Result`, the `Bar` row, Python's `s[start:]`
  slice (`SliceFrom`), and sequence minimum and maximum.
- `PipelineErrors` (base.dfy): the exceptions the pipeline can end in.
- `Scaling` (scaling.dfy): `scale_data`.
- `Training` (training.dfy): `modelling`.
- `Windowing` (windowing.dfy): `split_num`, `make_datasets`, `train_data`,
  `preprocessing` and `test_data`.
- `Forecaster` (forecaster.dfy): `meramal`.
- `Series` (series.dfy): the column arithmetic of the analysis helpers, as
  pure functions with lemmas.
- `Frames` (frame.dfy): the class `Frame`, the price table.
  - `data_drawdown`, `treshold_return` and `omega_ratio` add columns to it in
    place, so they are methods with `modifies this`.
  - The other helpers read it.

How the external parts are modelled:

- The trained network is an opaque function from a window of scaled closes to
  the next scaled close.
- Keras' fit is an opaque `Fitter` that receives the training pairs and the
  configuration.
- The mean/standard deviation and median/IQR behind StandardScaler and
  RobustScaler are an opaque `Stats` parameter.
- MinMaxScaler is fitted exactly.
- A pandas NaN cell is `None`.
- An error the Python code raises is a `Failure` naming it:
  - an unknown scaler or optimizer name leaves a local unbound;
  - sklearn refuses an empty column;
  - reshaping an empty window array fails;
  - `Normalizer` has no `inverse_transform`;
  - a missing column raises `KeyError`;
  - an unknown `annot_cum_and_return` operator leaves `result` unbound;
  - an empty selection has no `values[0]`.

## Model

| member | source | states |
|---|---|---|
| Scaling.ParseScaler | preprocessing_model.py:14-21 | a name selects a scaler exactly when it is one of the four scaler names, and the scaler selected carries that name |
| Scaling.Transform | preprocessing_model.py:23 | `transform` of one value: (x - center) / spread for the affine scalers, which send their centre to 0; the sign of x for Normalizer, within [-1, 1] |
| Scaling.InverseTransform | preprocessing_model.py:109 | `inverse_transform` of one value, y * spread + center; it exists exactly for the affine scalers, Normalizer has none (also preprocessing_model.py:128) |
| Scaling.AffineRoundTrip | preprocessing_model.py:23 | a MinMax, Standard or Robust scaler's inverse transform undoes its transform, and its transform undoes its inverse |
| Scaling.Fit | preprocessing_model.py:15-23 | only Normalizer fits to the unit-norm scaler; a fitted MinMaxScaler maps every value of the column into [0, 1], the column's minimum to 0 and its maximum to 1, and a constant column entirely to 0 |
| Scaling.ScaleData | preprocessing_model.py:12-25 | an unknown name fails (unbound scaler); an empty column fails; otherwise it succeeds with the scaler fitted on the whole column, one scaled value per row, each value the transform of its row, each row recovered by the inverse transform, and MinMax values in [0, 1] |
| Training.ParseOptimizer | preprocessing_model.py:69-83 | a name selects an optimizer exactly when it is one of the five optimizer names, and the optimizer selected carries that name |
| Training.Modelling | preprocessing_model.py:61-89 | fails with an unbound optimizer exactly when the name matches none of the five optimizers (activation and loss names are taken as valid); otherwise returns the network fitted on the training pairs with the optimizer of that name and the given batch, epochs, window, learning rate, loss and activation |
| Training.DefaultModelling | preprocessing_model.py:61 | with the default arguments, training always succeeds with Adam, learning rate 0.0001, batch 1, one epoch, window 60, mean squared error and a linear activation |
| Windowing.SplitNum | preprocessing_model.py:27-29 | the training length is the least integer at or above n * size, and lies in [0, n] when size is in [0, 1] |
| Windowing.DefaultSplitOf300 | preprocessing_model.py:27-29 | 300 rows cut at 0.8 give 240 training rows and, with a window of 60, 180 training pairs |
| Windowing.MakeDatasets | preprocessing_model.py:32-35 | one value per row, the row's close |
| Windowing.TrainData | preprocessing_model.py:45-58 | yields max(min(trainLen, n) - window, 0) pairs; pair k is the window scaled[k..k+window) with label scaled[k+window], and every index it reads lies before the cut |
| Windowing.Preprocessing | preprocessing_model.py:37-42 | fails with no training windows exactly when min(trainLen, n) <= window; otherwise returns the non-empty training pairs of `train_data` |
| Windowing.TestData | preprocessing_model.py:92-111 | fails with no test windows unless window <= trainLen < n; then fails for a scaler without inverse and succeeds for the others, with one price per row after the cut, price k being the inverse transform of the network's output on the window ending just before row trainLen + k |
| Base.SliceFrom | preprocessing_model.py:94 | Python's `s[start:]`: its length for a non-negative start past or within the series and for a negative start counted from the end, clamped at the whole series; the result is always a suffix of s (also preprocessing_model.py:119) |
| Forecaster.Seed | preprocessing_model.py:119 | the first window is the last `window` scaled values, or the whole series when the window is 0 or longer than the series |
| Forecaster.NextWindow | preprocessing_model.py:133 | one buffer update drops the oldest value and appends the scaled prediction, keeping the length of a non-empty window, with the prediction as its newest value |
| Forecaster.Path | preprocessing_model.py:121-133 | the scaled predictions of `days` steps: the network on the current window, then the rest from the updated window; exactly `days` values |
| Forecaster.PathPrefix | preprocessing_model.py:121-133 | forecasting more days does not change the earlier days |
| Forecaster.WindowIsSuffix | preprocessing_model.py:133 | after k steps the window keeps its length and holds the last values of the seed followed by the k scaled predictions |
| Forecaster.Feedback | preprocessing_model.py:121-133 | day k's scaled prediction is the network applied to the seed extended by the k earlier predictions, cut to the seed's length |
| Forecaster.Meramal | preprocessing_model.py:115-135 | for days > 0 a scaler without inverse fails; otherwise it returns max(days, 0) prices, price k being the inverse transform of day k's scaled prediction from the seed window |
| Forecaster.ForecastWindowLength | preprocessing_model.py:119-133 | with 1 <= window <= n the rolling window always holds exactly `window` values |
| Series.PeakBoundsCloses | preprocessing.py:86 | the peak at a row is at least every close up to that row |
| Series.PeakIsAClose | preprocessing.py:86 | the peak at a row is the close of some row up to that row |
| Series.PeakMonotone | preprocessing.py:86 | the peak column never falls |
| Series.PeakAt | preprocessing.py:86 | `cummax` at a row: the larger of the previous peak and the row's close, so never below that close |
| Series.PeakColumn | preprocessing.py:86 | the Peak column (`cummax`): one cell per row, always defined, and never below that row's close |
| Series.DrawdownOf | preprocessing.py:87 | (Close - Peak) / Peak, NaN for a zero peak; negative or zero below a positive peak, and zero exactly at it |
| Series.DrawdownColumn | preprocessing.py:87 | the Drawdown column: one drawdown per row, of the row's close against its running peak |
| Series.DrawdownOfPositivePrices | preprocessing.py:84-89 | for positive prices the drawdown is defined and never positive, and it is zero exactly at rows standing at their peak |
| Series.UnderwaterBelowPeak | preprocessing.py:86-87 | a row with a negative drawdown closes strictly below its peak |
| Series.RecoveryFrom | preprocessing.py:104-108 | the end found is the first row, in row order, that closes at or above its peak and is dated on or after the start; no earlier row qualifies |
| Series.Recovery | preprocessing.py:104-110 | `drawdown_ends[drawdown_ends >= start]`, first element: a row at or above its peak dated on or after the start, with no such row before it |
| Series.Duration | preprocessing.py:110 | days from a drawdown start to its end; never negative, as the end is dated on or after the start |
| Series.MaxOf | preprocessing.py:116 | the result is one of the durations and no duration exceeds it |
| Series.RecoveryAfterStart | preprocessing.py:101-111 | on a table `data_drawdown` built, with increasing dates, a drawdown ends strictly after the row it starts on, so its duration is positive |
| Series.LongestDrawdownPositive | preprocessing.py:101-118 | with increasing dates, a longest drawdown that exists is positive |
| Series.NoFallNoDrawdown | preprocessing.py:84-118 | a close that never falls has no drawdown, so the longest drawdown is None |
| Series.PctChange | preprocessing.py:92 | `pct_change`: one cell per row, NaN on the first row, and defined on a later row exactly when the previous close is not zero (also preprocessing.py:165) |
| Series.Change | preprocessing.py:92 | the return between two closes: NaN exactly when the previous close is zero; after a positive close it is non-negative exactly when the price did not fall (also preprocessing.py:165) |
| Series.UpFlags | preprocessing.py:94 | `np.where(return >= 0, True, False)`: one flag per return, True exactly for a defined return at or above 0 |
| Series.CountOf | preprocessing.py:96 | how many flags equal a given value; at most the number of rows |
| Series.CountsCoverAllRows | preprocessing.py:96 | the True and False counts add up to the number of rows |
| Series.ThresholdCounts | preprocessing.py:91-98 | the counts of `treshold_return` cover every row, and a non-empty table has at least one False (its first row has no return) |
| Series.UpMeansNoFall | preprocessing.py:92-94 | for positive prices a row is True exactly when it has a previous row and did not close below it |
| Series.SumBounds | preprocessing.py:33 | a sum of values between lo and hi lies between count * lo and count * hi |
| Series.RollingMean | preprocessing.py:33 | `rolling(window=w).mean()` at a row: the mean of the w closes ending there, defined exactly when 0 < w and the window is full |
| Series.RollingColumn | preprocessing.py:33 | a rolling-mean column: one cell per row, defined exactly on the rows where 0 < w and a full window of w closes ends |
| Series.MeanWithinWindow | preprocessing.py:33 | a trailing mean with a full window is defined and lies between any bounds of the closes in its window |
| Series.ThresholdPartition | preprocessing.py:167-168 | the sums above and below the threshold, plus the threshold times the returns equal to it, give the sum of all defined returns |
| Series.SumAbove | preprocessing.py:167 | sum of the defined returns strictly above the threshold; not negative for a threshold of at least 0 |
| Series.SumBelow | preprocessing.py:168 | sum of the defined returns strictly below the threshold; not positive for a threshold of at most 0 |
| Series.SumBelowZero | preprocessing.py:168-170 | for a threshold of at most 0, the denominator is zero exactly when no defined return lies below the threshold |
| Series.OmegaIgnoresNeutral | preprocessing.py:167-170 | a return equal to the threshold and a NaN return change neither sum, so appending one leaves the ratio unchanged |
| Series.Omega | preprocessing.py:163-172 | the ratio is NaN exactly when the sum below the threshold is zero; for a threshold of at most 0 that is exactly when no defined return lies below it, and at threshold 0 a defined ratio is never negative |
| Series.TrueRange | preprocessing.py:228-231 | the true range is one of the three candidates and at least each of them; on the first row, with no previous close, it is High - Low; it is non-negative when High >= Low |
| Series.TrueRanges | preprocessing.py:228-231 | the true range of every row, with the previous close taken from the row before; never below the row's High - Low |
| Series.TrueRangeMeanNonNegative | preprocessing.py:228-233 | when every High is at least its Low, every defined trailing mean of the true range is non-negative |
| Series.OfTicker | preprocessing.py:29 | the selected rows are exactly the rows whose ticker is the one asked for, and no more than the table has (also preprocessing.py:226) |
| Series.OfTickerAppend | preprocessing.py:29 | the selection keeps row order and repeats: selecting from a concatenation concatenates the selections (also preprocessing.py:226) |
| Series.OfTickerOne | preprocessing.py:29 | a single row is kept exactly when it has the ticker (also preprocessing.py:226) |
| Series.OfTickerAll | preprocessing.py:29 | a table whose rows all have the ticker is kept whole |
| Series.StrBelowTotal | preprocessing.py:243 | the name order of group keys is total: two different tickers are ordered one way or the other |
| Series.StrBelowTransitive | preprocessing.py:243 | the name order of group keys is transitive |
| Series.StrBelowIrreflexive | preprocessing.py:243 | no ticker comes before itself |
| Series.InsertSorted | preprocessing.py:243 | adding a ticker to keys sorted by name without repeats gives the old keys and that ticker, still sorted by name without repeats |
| Series.TickerGroups | preprocessing.py:243 | every ticker of the table is a group key, every group key is some row's ticker, and the keys are sorted by name without repeats |
| Series.LastDefined | preprocessing.py:243 | the last value of a ticker is the value of one of its rows after which none of its rows is defined, and it is NaN only when all of its rows are NaN |
| Series.ParseExtreme | preprocessing.py:244-247 | "max" selects the highest, "min" the lowest, any other operator neither |
| Series.BestOf | preprocessing.py:245-247 | the extreme skips NaN: it is defined exactly when some value is, it is one of the values, and it beats every defined value |
| Series.FirstIndexOf | preprocessing.py:249 | the index found holds the value and no earlier index does |
| Series.AnnotOf | preprocessing.py:241-250 | an unknown operator fails (unbound result); it fails with no row exactly when no ticker has a defined last value; otherwise the ticker returned is in the table, the value returned is its last value, and that value is the highest (or lowest) of all tickers' last values |
| Frames.Frame.DataDrawdown | preprocessing.py:84-89 | adds the Peak and Drawdown columns, built from the closes, and changes nothing else |
| Frames.Frame.TresholdReturn | preprocessing.py:91-98 | adds the return column and the is_true flags, and returns the True and False counts, which cover every row and include at least one False for a non-empty table |
| Frames.Frame.DrawdownDuration | preprocessing.py:101-118 | a missing Drawdown, then a missing Peak column, fails; otherwise returns None when no drawdown start has an end, else the longest start-to-end duration, which is the duration of some start and at least every other |
| Frames.Frame.OmegaRatio | preprocessing.py:163-172 | adds the returns column and returns the omega ratio of those returns at the threshold |
| Frames.Frame.Rolling | preprocessing.py:26-35 | selecting a ticker in a table without a ticker column fails; otherwise returns the closes (of one ticker in multi mode) and one column for each window length asked for and no other, row i of column w being the trailing mean of the w closes ending at row i |
| Frames.Frame.CalculateAtr | preprocessing.py:224-235 | a table without a ticker column fails; otherwise row i of the two columns is the 14-row and the 30-row trailing mean of the ticker's true ranges, defined from the 14th and 30th row on, and non-negative when every High is at least its Low |
| Frames.Frame.Column | preprocessing.py:243 | `data[column]`: found exactly when the name is High, Low, Close or an added numeric column, with one cell per row |
| Frames.Frame.AnnotCumAndReturn | preprocessing.py:241-250 | a table without a ticker column fails first; then a column that is neither High, Low, Close nor an added numeric column fails; otherwise the result of `AnnotOf` on that column |
| Frames.ExtremeLastCloseFound | preprocessing.py:241-250 | on a non-empty table with a ticker column, the highest and the lowest last close are always found |

## Left out

- Downloading prices (`yfinance`), plotting, the Streamlit pages and every
  helper outside the ones above (Sharpe, Sortino, Calmar, information, capture
  ratios, beta, volatility, cumulative return, correlation) are not part of this model.
- The LSTM network, its training and `predict` are opaque functions. Nothing
  is stated about what the network computes.
- StandardScaler and RobustScaler take their centre and spread from an opaque
  `Stats` parameter. Mean, standard deviation, median and IQR are not computed.
- Scaling.Fit: Normalizer is modelled by its forward transform alone. On a
  one-value row that is the sign of the value, as the l2 norm gives. Training
  on these values is modelled; `TestData` and `Meramal` fail at the missing
  inverse.
- Prices are exact reals. Floating-point rounding is not modelled, so the
  [0, 1] bound of MinMax values and the exact round trips hold only up to rounding in the program.
- Series.Omega: a non-zero return divided by a zero previous close is
  `None` in the model. pandas gives ±inf, which it then adds to the sums.
- Series.Change, Series.PctChange, Series.DrawdownOf: a division by zero is
  `None` (NaN) whatever the numerator. pandas gives NaN only for 0 / 0 and
  ±inf for a non-zero numerator; the model has no infinite cells.
- Dates are day numbers; `(end - start).days` is their difference.
- A single-stock table has no ticker column. Its rows carry a placeholder
  ticker, and the table records that the column is missing. `Rolling` in
  multi mode, `calculate_atr` and `annot_cum_and_return` fail on such a
  table, as `MissingColumn("ticker")`. The source raises `AttributeError`
  for the first two and `KeyError` for the third.
- Frames.Frame.Column, Frames.Frame.AnnotCumAndReturn: boolean flag columns
  such as `is_true` cannot be read by name, so `annot_cum_and_return` on them
  is not modelled; naming one fails as a missing column.
- Frames.Frame.Column: a table has High, Low and Close besides the added
  columns. Open, Adj Close and Volume are not modelled, so naming them
  fails as a missing column.
- Frames.Frame.TresholdReturn: pandas' `value_counts` orders the counts by
  frequency and omits a zero count; the model returns both counts by name.
- Series.AnnotOf: on a tie, the ticker returned is the first group key by name
  among those holding the extreme. The contract only says that it holds the
  extreme.
- Frames.Frame.Rolling: a window length of 0 gives an all-NaN column; pandas'
  own handling of that length is not modelled. A repeated window length
  overwrites its column.
- Training.Modelling: the network layers (LSTM 128, LSTM 64, Dense 25, Dense 1)
  and the arguments of `fit` are passed through to the opaque fitter.
- Windowing.TestData: `y_test`, the held-out prices, is computed by the
  source but not returned; the model states only its length.
- advance_forecasting.py:70 calls `test_data` without `window`, so its test
  windows use the default 60 while the network was trained on the chosen
  window. Those pages are not part of this model, and `TestData` takes the
  window explicitly.
- Training.Modelling: Keras also rejects an unknown activation name
  (preprocessing_model.py:66) and an unknown loss name
  (preprocessing_model.py:85-87). The model takes every activation and loss
  name as valid, so its failure covers only the optimizer name.

# Next-day stock price prediction: a verified model of the data pipeline core

This project models two stages of a small stock-prediction system.

- **Training-set preparation.** `src/data_preparation.py` reads each `.csv` file of daily bars from the data directory. It takes the ticker from the file name, deduplicates the rows and computes features: percent changes, 5/10/20-bar moving averages, the high–low range, RSI/MACD/ROC, calendar parts and the next-day close as target. It then drops every incomplete row and concatenates the frames into one training set.
- **Prediction service.** The POST branch of `home()` in `app.py` takes a ticker and an optional as-of date. It upper-cases the ticker and picks one stored row of that ticker: the row of the requested date, or the latest earlier row, or the ticker's latest row when no date is given. It feeds that row's nine feature columns to the trained regressor and labels the prediction Up or Down against the row's close.

Modules:

| file | module | contents |
|---|---|---|
| `wrappers.dfy` | `Wrappers` | `Option`, `Result` |
| `seqs.dfy` | `Seqs` | row filter, stable sort by key, concatenation of frames |
| `calendar.dfy` | `Calendar` | proleptic Gregorian calendar over day numbers |
| `features.dfy` | `Features` | `compute_features` |
| `preparation.dfy` | `Preparation` | the per-file steps and the loop of `prepare_dataset` |
| `serving.dfy` | `Serving` | the request handler `home()` |
| `end_to_end.dfy` | `EndToEnd` | a property of the two stages together |

Conventions of the model:

- **Dates.** A date is a day number, with day 0 = 0001-01-01, which is a Monday. So pandas' `dayofweek` is the day number mod 7. `Calendar.FromDay` and `Calendar.ToDay` convert between day numbers and calendar dates, and are proved to be inverse both ways. 2024-01-01 is day 738885.
- **Numbers.** Prices and volumes are exact reals.
- **Undefined values.** A column value is a `Cell`: `NaN`, a number, or a signed infinity. This follows IEEE division for finite operands:
  - `pct_change` after a zero value gives an infinity, which `dropna` keeps;
  - 0/0 gives NaN, which `dropna` drops.
- **The `ta` indicators** (RSI, MACD, ROC) are function parameters (`Features.Indicators`). Nothing is assumed about their warm-up.
- **Loaded objects.** The trained model (`Serving.Model`) and the collated dataset are parameters of the handler. So is `pd.to_datetime` on the date text (`Serving.DateParser`). The model and the date parser each return either a value or the message of the exception they raise.
- **The directory listing** is an explicit sequence of `Preparation.SourceFile` entries, in listing order. An entry's rows are absent when reading the file or selecting its columns raises.

Stored tickers are compared with the upper-cased request by exact equality (`app.py:96`, `app.py:102`). Stored tickers are never upper-cased, so a stored ticker holding a lower-case letter never matches a request.

This has a consequence, proved by `EndToEnd.UnderscorelessNamesNeverServed`:
- Suppose every data file is named without an underscore, such as `AAPL.csv`.
- `file.split('_')[0]` then keeps the whole name, so the stored ticker is `AAPL.csv`, extension included.
- That ticker holds lower-case letters, so no upper-cased request can ever equal it, and every request fails.

The ingestion step that names the files, `src/data_ingestion.py`, is not part of this model. The lemma takes the naming as a hypothesis.

## Model

| member | source | states |
|---|---|---|
| Serving.Upper | app.py:96 | the result has the input's length, holds no lower-case ASCII letter, keeps every other character, and maps each lower-case letter to its capital |
| Serving.Home | app.py:94-125 | an answer, and every unknown-ticker or no-data error, names the upper-cased ticker; an answer is Up exactly when the prediction is strictly above the last close (the lemmas below state each outcome) |
| Serving.Message | app.py:100-112 | the unknown-ticker and no-data messages end with the ticker they concern; a date-parsing or model exception is shown with its own message |
| Serving.HomeMissingTicker | app.py:96-100 | the request fails with "Ticker is required." exactly when the ticker field is empty or absent |
| Serving.HomeUnknownTicker | app.py:102-106 | the request fails as an unknown ticker exactly when the ticker is non-empty and its upper-cased form equals no stored ticker; the error names the upper-cased ticker |
| Serving.TickerRows | app.py:102-103 | the rows kept for a ticker are date-sorted, and a row is kept exactly when it is a stored row of that ticker |
| Serving.OnOrBefore | app.py:110 | a row is kept exactly when it is a candidate row dated on or before the date |
| Serving.HomeNoDataOnOrBefore | app.py:108-112 | for a known ticker and a parsed date, "No data available on or before" is returned exactly when every row of the ticker is dated after the date |
| Serving.LatestDate | app.py:114 | the result is the date of some row and no row is later |
| Serving.BaseRow | app.py:116-118 | the base row is one of the candidate rows, and is dated on the requested date whenever some candidate is |
| Serving.BaseRowLatest | app.py:116-118 | on date-sorted candidates all dated on or before the as-of date, no candidate is later than the base row |
| Serving.FeatureVector | app.py:120 | the model input has exactly nine cells, all defined when the row is complete |
| Serving.Respond | app.py:123 | once rows are resolved, the only possible failure is the model's own |
| Serving.HomeAnswer | app.py:116-124 | every answer is made from a stored row of the upper-cased ticker; the last close is that row's close; the predicted price is the model's output on that row's nine features; the status is Up exactly when the prediction is strictly above the last close |
| Serving.HomeAsOf | app.py:108-125 | with a date, the reported date is the requested date, and the base row is dated on or before it and is the latest such row of the ticker |
| Serving.HomeLatest | app.py:113-118 | without a date, the reported date is the ticker's latest date and the base row is dated on it |
| Serving.DateFallbackExample | app.py:116-118 | for rows dated 2024-01-01/03/05 and a request for 2024-01-04, the base row is the 2024-01-03 row and the reported date is 2024-01-04 |
| Serving.FallbackRow | app.py:116-118 | among rows dated 2024-01-01/03/05, the latest row on or before 2024-01-04 is the 2024-01-03 row |
| Serving.LowerCaseTickerUnreachable | app.py:96-102 | when every stored ticker contains a lower-case letter, no request succeeds |
| EndToEnd.UnderscorelessNamesNeverServed | src/data_preparation.py:50 | if no eligible file name contains an underscore, no request against the written training set succeeds |
| Features.Quotient | src/data_preparation.py:12 | a division by a non-zero value is the real quotient; a division by zero is NaN exactly when the dividend is zero too |
| Features.PctChange | src/data_preparation.py:12 | undefined at row 0; equal to (s[i] - s[i-1]) / s[i-1] when the previous value is non-zero; after a zero value, NaN exactly when the current value is also zero; a numeric result r satisfies s[i] = s[i-1] * (1 + r) |
| Features.RollingMean | src/data_preparation.py:13-15 | undefined exactly while fewer than k values exist |
| Features.MeanOfConstant | src/data_preparation.py:13-15 | on a constant series every defined moving average equals the constant |
| Features.MeanWithinWindow | src/data_preparation.py:13-15 | a moving average lies between any lower and upper bound of its window's values |
| Features.MeanSlides | src/data_preparation.py:13-15 | k times the change of the moving average from row i to row i+1 is the entering value minus the leaving value |
| Features.NextValue | src/data_preparation.py:34 | the shifted value is undefined exactly at the last row |
| Features.RowAt | src/data_preparation.py:12-34 | row i carries bar i unchanged; `return` and `vol_chg` are undefined exactly at row 0 or after 0 followed by 0; ma5/10/20 are undefined exactly before rows 4, 9 and 19; volatility is high minus low and always defined; the target is the next close and is undefined exactly at the last row; day of week in 0..6, month in 1..12, day in 1..31; month start exactly on day 1, month end exactly when the next day starts a month (`Features.RowColumns` ties every calendar column to bar i's date) |
| Features.RowColumns | src/data_preparation.py:12-31 | `return` and `vol_chg` of row i are the percent changes of the close and volume series, and ma5/10/20 are the 5/10/20-bar moving averages of the close series; `dayofweek` is the day of week of bar i's date, `month` and `day` are its month and day of month, and `is_month_start`/`is_month_end` are 1 exactly when that date is the first/last day of its month |
| Features.Frame | src/data_preparation.py:7-34 | the frame before `dropna` has one row per bar, and row i is the row that `Features.RowAt` and `Features.RowColumns` describe: it carries bar i and the columns computed at row i |
| Features.NoLookAhead | src/data_preparation.py:12-31 | every column of row i except the target and the ta indicators is the same when the bars after row i are removed |
| Features.CompleteRange | src/data_preparation.py:36 | a complete row is never one of the first 19 rows or the last row |
| Features.DropIncomplete | src/data_preparation.py:36 | a row survives `dropna` exactly when it is a row of the frame with no NaN column |
| Features.DropIncompleteLength | src/data_preparation.py:36 | over n bars in any order, at most n - 20 rows survive `dropna`, none for 20 bars or fewer |
| Features.DropIncompleteKeeps | src/data_preparation.py:36 | every complete row survives `dropna` |
| Features.DropIncompleteOrigin | src/data_preparation.py:34-36 | every surviving row is complete and is row i, with 19 <= i < n-1, carrying bar i and bar i+1's close as target |
| Features.DropIncompleteSorted | src/data_preparation.py:36 | date-sorted bars give date-sorted surviving rows |
| Features.ComputeFeatures | src/data_preparation.py:6-37 | the output has at most n - 20 rows, none for 20 bars or fewer, and every output row is complete |
| Features.OutputRows | src/data_preparation.py:34-36 | the output holds exactly the complete rows of the frame over the date-sorted bars; each output row is row i of that frame, with 19 <= i < n-1, carries sorted bar i, and has sorted bar i+1's close as its target |
| Features.OutputBars | src/data_preparation.py:36 | every output row carries one of the input bars unchanged |
| Features.OutputSorted | src/data_preparation.py:36 | the output is in ascending date order |
| Calendar.FromDay | src/data_preparation.py:28-29 | every day number gives a valid Gregorian date |
| Calendar.DayOfWeek | src/data_preparation.py:27 | the day of week lies in 0..6 |
| Calendar.FromDayToDay | src/data_preparation.py:27-29 | converting a day number to a date and back gives the same day number |
| Calendar.ToDayFromDay | src/data_preparation.py:27-29 | converting a valid date to a day number and back gives the same date |
| Calendar.MonthEndBeforeMonthStart | src/data_preparation.py:30-31 | a day is the last of its month, with leap Februaries counted, exactly when the next day is the first of a month |
| Calendar.NextCivil | src/data_preparation.py:30-31 | the next date is valid and one day number later, and it is the first of a month exactly when the date is the last day of its month |
| Calendar.DaysBeforeYearClosedForm | src/data_preparation.py:27 | the days before year y are 365(y-1) plus the leap days given by the 4/100/400 rule |
| Calendar.NewYear2024 | src/data_preparation.py:27 | 2024-01-01 is day 738885, a Monday (day of week 0), and day 738885 converts back to 2024-01-01 |
| Seqs.Filter | src/data_preparation.py:36 | a row is kept exactly when it is an input row satisfying the predicate, and no more rows than the input are kept |
| Seqs.FilterConcat | src/data_preparation.py:36 | filtering distributes over concatenation |
| Seqs.FilterWithin | src/data_preparation.py:36 | if every kept row lies in a stretch [lo, hi), at most hi - lo rows are kept |
| Seqs.FilterSorted | src/data_preparation.py:36 | filtering keeps a sorted sequence sorted |
| Seqs.InsertSorted | src/data_preparation.py:8 | inserting into a sorted sequence keeps it sorted and adds exactly that one element |
| Seqs.SortByKeySorted | src/data_preparation.py:8 | the sort's result is ordered by the key, is a permutation of the input and has its length |
| Seqs.SortedMembers | app.py:103 | a row is in the sorted rows exactly when it is in the input |
| Seqs.Concat | src/data_preparation.py:61 | a row is in the concatenation exactly when it is in one of the frames |
| Preparation.TickerOf | src/data_preparation.py:50 | the ticker is a prefix of the name without an underscore, and is followed by an underscore when shorter than the name |
| Preparation.TickerOfJoined | src/data_preparation.py:50 | a name `<t>_<rest>` with no underscore in t gives the ticker t |
| Preparation.TickerOfPlain | src/data_preparation.py:50 | a name without an underscore is its own ticker, extension included |
| Preparation.WithTicker | src/data_preparation.py:51 | row i keeps the date, open, high, low, close and volume of raw row i and gets the ticker; the row count is unchanged |
| Preparation.DropDuplicates | src/data_preparation.py:52 | a row is in the result exactly when it is an input row, and no two rows of the result are equal |
| Preparation.DropDuplicatesDistinct | src/data_preparation.py:52 | rows that are already distinct are left as they are |
| Preparation.PrepareDataset | src/data_preparation.py:46-65 | the loop over the listing writes exactly the concatenation of the frames of the eligible files, in listing order, and writes nothing when there are none (`Preparation.FramesInOrder` gives the frames one by one) |
| Preparation.ProcessFile | src/data_preparation.py:49-53 | every row a file yields is complete, carries the ticker parsed from the file's name, and has the date, prices and volume of one of the file's rows; a file of 20 rows or fewer yields nothing |
| Preparation.Frames | src/data_preparation.py:46-55 | the loop collects at most one frame per directory entry; `Preparation.FramesInOrder` states which frames, in which order |
| Preparation.FramesInOrder | src/data_preparation.py:46-55 | the collected frames are exactly the processed frames of the readable `.csv` entries, one per entry, in listing order |
| Preparation.FramesOfEligible | src/data_preparation.py:46-55 | every readable `.csv` entry contributes its processed frame |
| Preparation.FramesEmpty | src/data_preparation.py:46-55 | no frame is collected exactly when no entry is a readable `.csv` file |
| Preparation.FramesFromFiles | src/data_preparation.py:46-55 | every collected frame is the processed frame of some readable `.csv` entry |
| Preparation.Collated | src/data_preparation.py:60-65 | no training set is written exactly when no entry is a readable `.csv` file |
| Preparation.CollatedRows | src/data_preparation.py:46-61 | every row of the training set is complete, carries the ticker of some readable `.csv` entry, and has the date, prices and volume of one of that file's rows |
| Preparation.CollatedKeeps | src/data_preparation.py:46-62 | every row that a readable `.csv` file yields is written to the training set |

## Left out

- Flask routing, the GET branch, the HTML template and `render_template_string` (`app.py:84-93`, `app.py:126-140`). This includes the two-decimal formatting and a zero price being shown as nothing. The handler's result is the prediction or the failure; `Serving.Message` gives the error texts.
- `joblib.load` and `pd.read_csv` at start-up (`app.py:9-11`). The model and the dataset are parameters. The round trip of dates through the CSV file is taken as exact.
- Date parsing. `pd.to_datetime` is a parameter, and a parsed date is a whole day. A time of day in the request text, which would make an exact-date match fail, is not modelled.
- The RSI, MACD and ROC computations of the `ta` library. They are parameters with no assumed behaviour.
- Floating point. Prices are exact reals, so rounding in `pct_change` and in the moving averages is not modelled. NaN values in the raw input columns are not modelled either: a raw bar always holds numbers.
- Features.ComputeFeatures: a file's date column is taken as a day number. The source reads it as text, sorts the text (`src/data_preparation.py:8`) and only then parses it (line 9). The two orders agree for zero-padded `YYYY-MM-DD` text, but not in general: "2024-1-10" sorts before "2024-1-9" as text, so the source computes `return`, the moving averages and `target` across the swapped rows, while the model orders them by date.
- Features.OutputSorted: the output is in date order in the model. In the source it is in the text order of the file's date column, which is date order only for zero-padded `YYYY-MM-DD` text.
- Preparation.DropDuplicates: rows are compared with the date as a day number. The source compares the unparsed text (`src/data_preparation.py:52`), so it keeps both a "2024-01-05" row and an otherwise equal "2024-1-5" row, while the model keeps one.
- Seqs.SortByKey: it is a stable sort, while pandas' default `sort_values` is not stable. The order among rows sharing a date is therefore fixed here but unspecified in the source.
- Serving.Respond: when several rows share the base date, the source predicts on all of them and reports the first. The model feeds only that first row to the model.
- Exceptions raised inside `compute_features`, for example by the `ta` library, which the source catches per file. Only a failed read or column selection, represented by absent rows, skips a file.
- Directory listing and file I/O in `prepare_dataset`. The listing is given as a sequence in listing order, and the progress messages are not modelled.
- `src/model_training.py`, `src/data_ingestion.py` and `main.py` are not part of this model. They cover model fitting and metrics, HTTP download and orchestration.
- Serving.Upper: ASCII letters only. Python's `str.upper` also maps other alphabets and expands characters such as `ß`.

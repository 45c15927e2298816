# Boston crime dashboard and offense predictor — a verified model

The repository is a Streamlit dashboard over the Boston crime-incident table,
together with a classifier that predicts an offense group from a district, a
weekday and an hour. This project models its data logic in Dafny, module by
module:

- `Dataset`: one incident row. A missing cell (NaN) is `None`. The module also
  holds the fixed Monday-to-Sunday weekday order.
- `Encoding`: the column names `pandas.get_dummies` gives indicator columns
  (`FIELD_value`). It proves that the columns of the three features never
  collide.
- `Training`: the training pipeline up to the fit. It drops incomplete rows,
  one-hot encodes `DISTRICT` and `DAY_OF_WEEK`, passes `HOUR` through as an
  integer, and builds the design matrix X and the label column y. The column
  list of X is the feature schema the classifier records.
- `Prediction`: `make_prediction`, written as a loop over the schema. The loop
  adds each column the one-row query frame lacks as 0, then the row is read in
  schema order and handed to the classifier. The classifier is an opaque
  function of that row.
- `Dashboard`:
  - the sidebar filter chain and the key statistics;
  - the Lat/Long drop that every later section sees;
  - the monthly trend counts;
  - the weekday-by-hour crosstab and its peak cell;
  - the top-10 and top-5 offense counts;
  - `BuildReport`, which wires these together the way the page does and stops
    at the first line that raises, as the script does.
- `Common`: the shared sequence vocabulary:
  - row masks (`Filter`) and `dropna` (`Present`);
  - occurrence counts;
  - Python's code-point string order;
  - sorted distinct values (pandas' sorted categories and group keys);
  - `Series.mode()`, whose first element is the least of the most frequent
    values.

Two facts about the encoding that follow from the code:

- **HOUR passes through unencoded.** `HOUR` is an integer column, so
  `get_dummies` leaves it as one numeric column, placed before the indicator
  columns. Only `DISTRICT` and `DAY_OF_WEEK` are one-hot encoded.
- **The feature schema is fixed by the training rows.** It is `HOUR`, then one
  `DISTRICT_<v>` column for each district in the retained rows, then one
  `DAY_OF_WEEK_<w>` column for each weekday in them. Each block is in sorted
  order.

## Model

| member | source | states |
|---|---|---|
| Encoding.DummyValue | train_model.py:23 | an indicator column of a field names exactly one value, and rebuilding the name from that value gives the column back |
| Encoding.DummyNameInjective | train_model.py:23 | distinct values of one field get distinct indicator columns |
| Encoding.FeatureColumnsDisjoint | train_model.py:23 | a DISTRICT indicator is never a DAY_OF_WEEK indicator or HOUR, and a DAY_OF_WEEK indicator is never HOUR |
| Training.Project | train_model.py:20 | a complete row keeps exactly its district, weekday, hour and offense group |
| Training.CompleteSelects | train_model.py:20 | the retained table is the order-preserving subsequence of exactly the rows with all four columns present |
| Training.CompleteKeepsCompleteTable | train_model.py:20 | a table without missing cells loses no row |
| Training.Categories | train_model.py:23 | the encoded categories of a column are exactly its values |
| Training.CategoriesSorted | train_model.py:23 | the categories are strictly increasing in code-point order, so each appears once |
| Training.Layout | train_model.py:23 | the schema is HOUR, then the DISTRICT indicators, then the DAY_OF_WEEK indicators, each block in category order |
| Training.LayoutDistrictColumns | train_model.py:23 | a DISTRICT indicator is in the schema exactly when its value is a category |
| Training.LayoutDayColumns | train_model.py:23 | a DAY_OF_WEEK indicator is in the schema exactly when its value is a category |
| Training.LayoutOnlyFeatures | train_model.py:23 | every schema column is HOUR or an indicator of a category |
| Training.SchemaColumns | train_model.py:20-23 | the recorded schema has HOUR plus an indicator for exactly the districts and weekdays of the retained rows, and nothing else |
| Training.LayoutDistinct | train_model.py:23 | no column name repeats in the layout |
| Training.SchemaDistinct | train_model.py:23 | no column name repeats in the recorded schema |
| Training.IndicatorsOneHot | train_model.py:23 | over distinct categories containing the value, exactly one indicator is 1 |
| Training.EncodeRowCells | train_model.py:23 | every cell of an encoded row follows the cell rule: the hour under HOUR, 1 under the row's own two indicators, 0 elsewhere |
| Training.EncodeRowOneHot | train_model.py:23 | each indicator block of an encoded row has exactly one 1 |
| Training.PrepareRows | train_model.py:20-24 | X and y have one entry per retained row; X's columns are the schema; each X row follows the cell rule and is one-hot per block; y holds the row's offense group |
| Prediction.Reconciled | src/predictive_model.py:12-15 | the reconciled row has one cell per schema column |
| Prediction.Reconcile | src/predictive_model.py:8-15 | the loop that adds missing columns as 0, followed by the selection in schema order, yields the schema's columns and the reconciled cells |
| Prediction.MakePrediction | src/predictive_model.py:7-18 | the prediction is the classifier's decision on the reconciled row |
| Prediction.FilledValueIsCell | src/predictive_model.py:9-14 | after zero-fill, each column follows the same cell rule as training |
| Prediction.ReconciledZeroFill | src/predictive_model.py:12-15 | schema columns the query's encoding lacks hold 0; columns it has keep the query's value |
| Prediction.ReconciledOneHot | src/predictive_model.py:8-15 | HOUR carries the hour; among each block's indicators, only the query's own value is 1 |
| Prediction.UnseenValuesAreAllZero | src/predictive_model.py:12-15 | a district or weekday unknown to the schema leaves its whole indicator block at 0 |
| Prediction.UnknownColumnsDiscarded | src/predictive_model.py:15 | queries that differ only in districts outside the schema reconcile to the same row |
| Prediction.ReconciledMatchesTraining | src/predictive_model.py:8-15 | against the trained schema, every query reconciles to the row training would encode for the same district, weekday and hour |
| Prediction.TrainingRowsReplay | src/predictive_model.py:8-15 | replaying a training row's features as a query reproduces that row of X |
| Prediction.SeenQueryIsOneHot | src/predictive_model.py:8-15 | a query with a district and weekday seen in training has exactly one 1 in each block |
| Common.Present | app.py:129-132 | every value it returns comes from a present cell, the value of every present cell is returned, and there are at most as many values as cells |
| Common.PresentAppend | app.py:180 | the values keep the order of their cells: dropping missing cells distributes over concatenation |
| Common.PresentCount | app.py:218 | each value is kept as often as there are cells holding it |
| Common.Filter | app.py:113 | a boolean mask keeps only rows of the table that pass it |
| Common.FilterSelects | app.py:113 | a mask keeps, in order, exactly the rows that pass it |
| Common.FilterFilter | app.py:112-119 | masking twice equals masking once with the conjunction |
| Common.FilterCommutes | app.py:112-119 | the order of the filter steps does not matter |
| Common.CountPresentColumn | app.py:180 | occurrences of a value among a column's present cells equal the number of rows holding it |
| Common.SortedSet | app.py:180 | the sorted distinct values are exactly the values of the input |
| Common.SortedSetSorted | app.py:193 | under a strict total order they are strictly increasing, each once |
| Common.StrLessIsStrictTotal | train_model.py:23 | Python's string comparison is a strict total order |
| Common.Mode | app.py:129 | `mode()` is empty exactly on an empty series, and otherwise is a value of it |
| Common.ModeAmong | app.py:129 | the chosen candidate occurs at least as often as any other |
| Common.ModeIsLeastMostFrequent | app.py:129 | `mode()[0]` occurs most often, and it is the least of the values that tie |
| Common.CountAllCovers | app.py:180 | counts over distinct groups covering every value add up to the length |
| Common.Take | app.py:218 | `head(n)` keeps the first min(n, length) entries unchanged |
| Dashboard.ApplyFilters | app.py:111-119 | after the four conditional `isin` steps, the table is the data filtered once by all non-empty selections |
| Dashboard.NoSelectionKeepsAll | app.py:111-119 | with no selection the table is unchanged |
| Dashboard.FilteredRowsSatisfySelection | app.py:112-119 | the filtered table is an order-preserving subsequence holding exactly the passing rows; every kept row has a present value in each non-empty selection |
| Dashboard.MostCommon | app.py:129 | "No data" exactly on an empty table; a failing `[0]` exactly when every cell of the column is missing |
| Dashboard.MostCommonCrimeIsMode | app.py:129 | the shown crime is a most frequent offense group, the least such in string order |
| Dashboard.BusiestMonthIsMode | app.py:132 | the shown month is a most frequent month, the smallest such |
| Dashboard.LocationDropSpec | app.py:148-149 | after the drop every row has Lat and Long, no row is invented, and nothing is dropped without the columns or when all rows are located |
| Dashboard.LocationDropSelects | app.py:148-149 | with the columns present on a non-empty table, the drop keeps, in order, exactly the rows with both Lat and Long, so every located row survives |
| Dashboard.TrendSpec | app.py:179-181 | one point per (year, month) present, in increasing order; each count is the number of rows with that pair and is positive; the counts add up to the rows with both keys |
| Dashboard.TrendCountsAllRows | app.py:180 | without missing YEAR or MONTH, the trend counts add up to the number of rows |
| Dashboard.DayRow | app.py:193-195 | a reindexed weekday row is NaN exactly when the weekday does not occur; otherwise it holds one count per hour column |
| Dashboard.Crosstab | app.py:193-195 | seven weekday rows, each present row as wide as the hour columns |
| Dashboard.CrosstabHours | app.py:193 | the hour columns are exactly the hours occurring with a day, strictly increasing |
| Dashboard.CrosstabRows | app.py:195 | a weekday row is NaN exactly when that weekday does not occur with an hour |
| Dashboard.CrosstabCounts | app.py:193 | each cell counts the rows with that weekday and hour |
| Dashboard.CrosstabCellCounts | app.py:193-195 | every position counts its rows, with a NaN row counting 0 |
| Dashboard.RowMax | app.py:207 | the largest entry of a row is in the row and bounds it |
| Dashboard.GridMax | app.py:207 | the largest entry of the matrix bounds every entry and occurs in it |
| Dashboard.FirstRowWith | app.py:208 | the first row holding the value |
| Dashboard.FirstMaximum | app.py:207-208 | the first row-major position of the maximum holds it, and every earlier position holds less |
| Dashboard.FirstPeakIsFirstMaximum | app.py:207-210 | the NaN-ignoring peak exists exactly when some cell holds a count, and it is the first maximum in weekday-then-hour order |
| Dashboard.PeakOfAgreesWhenComplete | app.py:207-210 | the page's peak raises a zero-size error exactly without hour columns and finds no cell exactly with a NaN row; otherwise it equals the NaN-ignoring peak |
| Dashboard.PeakFailures | app.py:207-208 | the zero-size error happens exactly when no row has a day and an hour; the failed lookup happens exactly when such rows exist but some weekday has none |
| Dashboard.PeakExists | app.py:207-210 | the NaN-ignoring peak exists exactly when some row has a listed weekday and an hour |
| Dashboard.PeakIsBusiestSlot | app.py:207-211 | the peak names a weekday and hour with the most rows and a positive count; every earlier slot in weekday-then-hour order has fewer rows |
| Dashboard.PeakFailsOnOneWeekday | app.py:207-208 | on a single Monday incident the page's peak fails, while the busiest slot is Monday at hour 0 with one incident |
| Dashboard.ByFrequencyIsStrictTotal | app.py:218 | count-then-first-appearance is a strict total order on the offense groups |
| Dashboard.TopOffensesSpec | app.py:218 | at most n distinct groups, each with its true positive count, in non-increasing count order; an unlisted group is no more frequent than any listed one, and none is unlisted when fewer than n are shown |
| Dashboard.BuildReport | app.py:111-247 | the metrics come from the filtered table. After the Lat/Long drop, the trend, peak, top-10 and top-5 come from the remaining table, or show no data when it is empty. The script stops at the first line that raises: a failing `mode()[0]` leaves every later section unreached, and a failing peak lookup leaves the top lists and the prediction form unreached |
| Dashboard.OneWeekdayPageStops | app.py:207-247 | on the single Monday incident both metrics are shown, the peak lookup raises, and the top lists and the prediction form are never reached |

## Findings

| source | as written | input that shows it | evidently intended | confidence | as-written member | corrected member |
|---|---|---|---|---|---|---|
| app.py:207-208 | `pivot.values.max()` is taken over the reindexed crosstab. The crosstab holds a NaN row for every weekday missing from the filtered table, so the maximum is NaN, no cell equals it, and `[0]` raises IndexError. | A filtered table with one incident, on a Monday at hour 0. Any selection that leaves out a weekday does the same. | Report the busiest weekday and hour among the weekdays present. | not executed | Dashboard.PeakFailsOnOneWeekday | Dashboard.FirstPeak |

`Dashboard.FirstPeak` is the corrected rule: a NaN-ignoring maximum followed by its first occurrence. `Dashboard.PeakOf` is defined on top of it, adding only the two failure cases of the code as written. `Dashboard.PeakIsBusiestSlot` proves the corrected property. `Dashboard.PeakOfAgreesWhenComplete` proves that the two rules agree whenever every weekday is present. `Dashboard.BuildReport` shows what the page does, so it reports `PeakOf` and stops there when it fails. `Dashboard.OneWeekdayPageStops` shows the page stopping on the one-incident table.

## Left out

- Rendering is not modelled, because it only presents values the model computes. This covers Streamlit widgets, markdown, Plotly figures, the pydeck heatmap layer, and the map-style lookup.
- The heatmap's view centre (the mean of Lat and Long) is not modelled: it is floating-point arithmetic used only for display.
- The trend's `to_datetime` date column and its `sort_values("Date")` are not modelled. The sort matches the (year, month) key order `groupby` already gives, and date parsing only adds a display column. A month outside 1 to 12 would make `to_datetime` raise, which the model does not capture.
- I/O and persistence are not modelled:
  - reading the table from MongoDB or CSV (`load_crime_data`, `load_data_to_mongodb.py`, `mongodb.py`);
  - `joblib` saving and loading of the classifier;
  - the cache decorator.
- The classifier is modelled as an opaque function of the reconciled row, together with its recorded feature names. Not modelled: the random forest, `train_test_split`, the fit (including its failure on a table too small to split), the accuracy score and the printed message. These are third-party numerical code.
- Table cells are modelled typed. `Dataset.Incident` fixes the column types (strings for district, weekday and offense group; integers for hour, year and month), so pandas' dtype inference for mixed columns and the float conversion of integer columns that contain NaN are not modelled.
- `Dashboard.TopOffenses`: when two offense groups have equal counts, `value_counts()` leaves their order to an unspecified sort. The model lists them by first appearance. `nlargest(5)` on the already-sorted counts keeps the first five.
- The top-5 list of app.py line 226 is `TopOffenses(rows, 5)`. The top-offenses lemma covers it with n = 5.
- The sidebar option lists (sorted unique values, app.py lines 105-108) are not modelled. The filters take any selection, which includes those lists.
- The prediction form (app.py lines 247-262) appears in `Dashboard.BuildReport` only as whether the script reaches it. The prediction it makes is `Prediction.MakePrediction`.
- The hour slider's 0 to 23 range (app.py line 251) is not imposed on queries, because the adapter accepts any integer hour.

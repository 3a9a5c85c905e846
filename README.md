# Student risk pipeline: loading, temporal assembly and median imputation

This project models, in Dafny, the data path of a student-risk prediction
pipeline built on the PEDE workbook.

1. **Loading.** `load_data` reads the yearly sheets `PEDE2022`, `PEDE2023` and
   `PEDE2024`. It renames each year's indicator aliases to canonical names and
   coerces the indicator columns to numbers (text that does not parse becomes
   missing). It then strips the student id `RA` and stamps the year in `Ano`.
2. **Assembly.** `create_temporal_dataset` joins the features of year T with
   year T+1's defasagem (the student's grade-level gap), student by student,
   through an inner merge on `RA`. It labels each row with `Target_Risk`, which
   is 1 exactly when next year's gap is negative.
3. **Imputation.** `TemporalPreprocessor` is a median imputer over a fixed list
   of feature columns. `fit` stores one median per column. `transform` rebuilds
   the table from those columns, with every missing cell replaced by its
   column's median.

Tables are values (`Tables.Table`): an ordered list of distinct column names,
one cell sequence per column, and a row index. A cell is a number, text or
missing (NaN). The loader changes its frames in place, so a frame is a class
(`Tables.Frame`) with `Rename` and `SetColumn` methods. The loader's methods
are proved against functions (`NormaliseSheet`, `LoadSpec`) whose properties
are lemmas. The preprocessor is a class whose `Fit` updates its fields.

Each raise in the source is an error value of a `Result`:

| error | cause |
|---|---|
| `FileNotFound` | the workbook file is missing |
| `KeyError('RA')` | a table has no `RA` column |
| `DuplicateColumn` | renaming gave two columns one indicator name, so `pd.to_numeric` received a two-column selection |
| `TypeError` | a joined next-year gap is text |
| `MissingColumns` | the imputer was given a table without one of its configured columns |
| `NotFitted` | the imputer was used before any fit reached it |
| `NonNumeric` | the imputer was given text |
| `EmptyInput` | the imputer was given no rows or no columns |
| `ShapeMismatch` | a column had no value to fit on; the imputer drops it, and rebuilding the table with the configured column names then fails |
| `NoStatistics` | an earlier fit recorded the column names in the imputer and then raised, so `transform` passes the imputer's fitted-check, then reads the dtype it saw at fit and finds none (an `AttributeError`), before looking at any row or cell |

The docstring of `transform` (`src/preprocessing.py:47`) says columns and index
are preserved. The code (`src/preprocessing.py:51`) builds the result from the
configured columns only. The model follows the code.

## Model

| member | source | states |
|---|---|---|
| Tables.Renamed | src/data_loader.py:28-31 | `rename(columns=m)` keeps the index and gives each column its new name in its old position; the result is a well-formed table |
| Tables.RenamedCells | src/data_loader.py:28-31 | under a rename, each column's cells move unchanged to its new name |
| Tables.RenameOfAbsentAliases | src/data_loader.py:40 | a mapping that moves no present column leaves the table exactly as it was |
| Tables.WithColumn | src/data_loader.py:33-34 | `df[name] = vals` overwrites an existing column in place or appends a new one at the end; every other column and the index are kept |
| Tables.Select | src/feature_engineering.py:25 | `df[names]` has exactly those columns in that order, the same index and the same cells |
| Tables.Frame.constructor | src/data_loader.py:27 | a fresh frame holds the sheet read from the workbook |
| Tables.Frame.Rename | src/data_loader.py:28-31 | the in-place rename leaves the frame holding `Renamed` of its old contents |
| Tables.Frame.SetColumn | src/data_loader.py:73 | the in-place assignment leaves the frame holding `WithColumn` of its old contents |
| Strings.Strip | src/data_loader.py:33 | `str.strip()` returns an infix of the input that neither starts nor ends with whitespace, and only whitespace surrounds it |
| Strings.StripUnique | src/data_loader.py:33 | any split of a string into whitespace, a stripped middle and whitespace has `Strip` as its middle, so the two properties above determine `strip` |
| Strings.StripIdempotent | src/data_loader.py:33 | stripping a stripped id changes nothing |
| DataLoader.CleanCell | src/data_loader.py:73 | `to_numeric(errors='coerce')` never leaves text in a cell |
| DataLoader.Cleaned | src/data_loader.py:57-74 | cleaning keeps the columns, their order and the index |
| DataLoader.CleanedCells | src/data_loader.py:70-73 | after cleaning, every listed indicator column that is present holds no text, and every other column is untouched |
| DataLoader.CleanedIdempotent | src/data_loader.py:57-74 | cleaning a cleaned table changes nothing |
| DataLoader.CleanStep | src/data_loader.py:71-73 | one loop turn converts the next listed column if it is present and otherwise changes nothing |
| DataLoader.CleanNumericCols | src/data_loader.py:57-74 | the in-place loop leaves the frame holding `Cleaned` of its old contents |
| DataLoader.IdColumn | src/data_loader.py:33 | every `RA` cell becomes text with no surrounding whitespace, one per row |
| DataLoader.YearColumn | src/data_loader.py:34 | `Ano` holds the sheet's year in every row |
| DataLoader.NormaliseSheet | src/data_loader.py:27-35 | a sheet that normalises yields a well-formed table |
| DataLoader.Aliases | src/data_loader.py:28-31 | each year's aliases (`src/data_loader.py:28-31`, 40, 49) never rename `RA` and only produce names of the listed indicators |
| DataLoader.AsStr | src/data_loader.py:33 | `astype(str)` keeps text as it is and renders a missing value as `"nan"` |
| DataLoader.LoadSpec | src/data_loader.py:19-55 | `load_data` fails with `FileNotFound` when the file is missing, before any sheet is looked at |
| DataLoader.LoadYear | src/data_loader.py:26-35 | one year's block on a fresh frame fails with the error `NormaliseSheet` gives; otherwise it yields a fresh frame holding `NormaliseSheet`'s table |
| DataLoader.LoadBlock | src/data_loader.py:26-35 | one sheet block adds exactly that year's fresh frame (or nothing when the sheet is absent) and keeps every earlier frame; it fails exactly when `Accumulate` applied to that year's `SheetResult` fails, with the same error |
| DataLoader.LoadData | src/data_loader.py:19-55 | a missing file fails with `FileNotFound` before anything is read; otherwise the result fails exactly when `LoadSpec` fails, with its error; on success it holds one fresh, distinct frame per year equal to `LoadSpec`'s table |
| DataLoader.AliasesKeepId | src/data_loader.py:28-31 | no year's alias renames `RA`, and none renames another column to `RA` |
| DataLoader.NormaliseOutcome | src/data_loader.py:28-33 | a sheet fails with `DuplicateColumn` exactly when renaming would give two columns one name, otherwise with `KeyError('RA')` exactly when it has no `RA`, and with nothing else |
| DataLoader.NormalisedColumns | src/data_loader.py:28-34 | a normalised sheet keeps the sheet's index and its renamed columns in place, with `Ano` appended if new; every other column carries the sheet's cells under its new name, converted when it is a listed indicator |
| DataLoader.NormalisedIdAndYear | src/data_loader.py:33-34 | `RA` holds the stripped text of each row's original id, and `Ano` holds the year in every row |
| DataLoader.AccumulateThree | src/data_loader.py:23-55 | the three blocks in order succeed exactly when no present sheet fails; the first failure is reported; on success the keys are the years whose sheet is present, each with its own table |
| DataLoader.LoadSpecOutcome | src/data_loader.py:19-55 | `FileNotFound` occurs exactly when the file is missing; otherwise loading succeeds exactly when every present sheet normalises |
| DataLoader.LoadSpecTables | src/data_loader.py:23-55 | a successful load has a key for a year exactly when its sheet is in the workbook, only years 2022 to 2024, and each key holds that sheet normalised |
| FeatureEngineering.Present | src/feature_engineering.py:24 | the kept names are exactly the wanted names the table has, in the wanted order, and without repeats when the wanted names have none |
| FeatureEngineering.FeatureColumnsFacts | src/feature_engineering.py:23-24 | the feature columns are distinct; `RA` comes first when present; they are exactly `RA` and the configured indicators the table has, in configuration order; neither added column is among them |
| FeatureEngineering.FeatureColumns | src/feature_engineering.py:23-24 | the feature columns are columns of the table, taken in order from `['RA'] + INDICATOR_COLS` |
| FeatureEngineering.Matches | src/feature_engineering.py:33 | the right rows with a given id, all of them, in increasing order |
| FeatureEngineering.Pairs | src/feature_engineering.py:33 | the inner merge pairs exactly the rows with equal ids, ordered by left row and then by right row |
| FeatureEngineering.Risk | src/feature_engineering.py:36 | the label is 1 exactly when the next-year gap is a number below zero, and 0 otherwise, including when it is missing |
| FeatureEngineering.Joined | src/feature_engineering.py:29-36 | the merged table has the feature columns, then `Defasagem_Next`, then `Target_Risk`, and a fresh 0..n-1 index |
| FeatureEngineering.MergeNext | src/feature_engineering.py:29-36 | a successful merge yields a well-formed table |
| FeatureEngineering.CreateTemporalDataset | src/feature_engineering.py:13-40 | a successful assembly yields a well-formed table |
| FeatureEngineering.EmptyCases | src/feature_engineering.py:15-40 | an absent year T or T+1, or no `Defasagem` in T+1, gives the empty table and no error |
| FeatureEngineering.DatasetErrors | src/feature_engineering.py:29-36 | `KeyError('RA')` exactly when either year lacks `RA`; `TypeError` exactly when both have it and some joined next-year gap is text; no other error |
| FeatureEngineering.MergeNextFails | src/feature_engineering.py:36 | the merge fails only with `TypeError`, and exactly when some joined next-year gap is text |
| FeatureEngineering.MergedRows | src/feature_engineering.py:29-36 | row k of the merge carries left row `pairs[k].0`'s features, right row `pairs[k].1`'s gap as `Defasagem_Next`, and the risk label of that gap |
| FeatureEngineering.DatasetIsMerge | src/feature_engineering.py:19-33 | with both years, the target and `RA` on both sides, the dataset is the merge of T's selected feature columns, whose `RA` is T's own |
| FeatureEngineering.MatchesCount | src/feature_engineering.py:33 | with unique right ids, an id matches once when present and never otherwise |
| FeatureEngineering.PairsCount | src/feature_engineering.py:33 | with unique ids on both sides, the merge has one row per shared id |
| FeatureEngineering.DatasetCount | src/feature_engineering.py:33 | with unique ids in both years, the dataset has one row per student present in both; a student absent from either year has no row |
| FeatureEngineering.PairsExample | src/feature_engineering.py:33 | ids 1, 2, 3 against 1, 3 join rows (0, 0) and (2, 1), in that order |
| Statistics.Sort | src/preprocessing.py:19 | the sorted values are ascending and a permutation of the input |
| Statistics.Median | src/preprocessing.py:19 | the imputer's median lies between the least and the greatest value (the first and last in sorted order) |
| Statistics.SortedUnique | src/preprocessing.py:19 | two ascending sequences with the same elements are equal, so the sorted order is unique |
| Statistics.MedianOfPermutation | src/preprocessing.py:19 | the median depends only on the values, not on their order |
| Statistics.MedianSplits | src/preprocessing.py:19 | in sorted order, the lower half lies at or below the median and the upper half at or above it |
| Statistics.MedianBetween | src/preprocessing.py:19 | the median lies between two of the values |
| Statistics.MedianOfTwo | src/preprocessing.py:19 | the median of 1.0 and 3.0 is their mean, 2.0 |
| Preprocessing.Observed | src/preprocessing.py:36 | the numbers of a column, missing cells skipped: each value occurs exactly as often as the column holds it as a number, so the median sees every repeat |
| Preprocessing.ColumnMedian | src/preprocessing.py:36 | a column has a statistic exactly when it holds some number |
| Preprocessing.FitMedians | src/preprocessing.py:36 | a successful fit has one statistic per configured column and no other |
| Preprocessing.Fill | src/preprocessing.py:50 | imputing a column keeps every present cell and puts the median in every missing one, so none is missing |
| Preprocessing.Imputed | src/preprocessing.py:49-51 | the rebuilt table has exactly the configured columns and the input's index |
| Preprocessing.TemporalPreprocessor.constructor | src/preprocessing.py:17-19 | a new preprocessor keeps the given columns, is not fitted and has recorded no column names |
| Preprocessing.TemporalPreprocessor.Fit | src/preprocessing.py:34-37 | `fit` fixes the columns if they are unset, even when the imputer then raises; it records the column names whenever the imputer is reached (all configured columns present, at least one); it fails exactly when `FitMedians` does, with its error and the old statistics kept; on success it stores the statistics and returns itself |
| Preprocessing.TemporalPreprocessor.Transform | src/preprocessing.py:49-51 | a successful transform has exactly the configured columns and the input's index; the failures come in the source's order, with `NotFitted` only when no fit has reached the imputer and `NoStatistics`, after a fit that reached it and raised, ahead of any check on rows or cells |
| Preprocessing.TemporalPreprocessor.FitTransform | src/preprocessing.py:6 | `fit_transform` records the column names as `fit` does and fails as the fit does; after a successful fit it equals `transform` of the same table, fails only with `ShapeMismatch` and exactly when a column had no value, and otherwise leaves no missing cell |
| Preprocessing.FitOutcome | src/preprocessing.py:36 | the fit fails with `MissingColumns`, `EmptyInput` or `NonNumeric` exactly under their conditions, in that order; on success a column has a median exactly when it holds a number |
| Preprocessing.FittedMedians | src/preprocessing.py:36 | each stored median is the median of the column's numbers, of which there is at least one, and lies between two of them |
| Preprocessing.FittedStatistic | src/preprocessing.py:36 | a successful fit stores, for each configured column, that column's own statistic |
| Preprocessing.ColumnMedianExample | src/preprocessing.py:36 | the column `[1.0, NaN, 3.0]` gets the median 2.0 |
| Preprocessing.ObservedExample | src/preprocessing.py:36 | the numbers of `[1.0, NaN, 3.0]` are 1.0 and 3.0 |
| Preprocessing.TransformFills | src/preprocessing.py:49-51 | after a successful transform, each configured column keeps its present cells and has its missing cells replaced by that column's median, so no missing cell remains |
| Preprocessing.TransformedCell | src/preprocessing.py:50 | one cell of a transform is kept if present, or becomes the column's median if missing |
| Preprocessing.TransformNeedsFit | src/preprocessing.py:50 | without a successful fit, `transform` raises; with every configured column present it raises `NotFitted` if no fit reached the imputer, and otherwise `NoStatistics` whatever the rows and cells hold |
| Preprocessing.FailedFitThenTransform | src/preprocessing.py:36-50 | a fit on a text column raises `NonNumeric`; transforming afterwards raises `NoStatistics`, not `NotFitted`, both on the same text table and on a numeric one |
| Preprocessing.TransformAfterFit | src/preprocessing.py:49-51 | transforming the table just fitted on succeeds exactly when every column had a value, and otherwise fails with `ShapeMismatch` |
| Preprocessing.AutoColumns | src/preprocessing.py:34-35 | on the table `col1`, `col2`, a preprocessor built without columns takes `["col1", "col2"]`; `Fit`'s ensures state the general rule |
| Preprocessing.ImputationFits | src/preprocessing.py:36 | on the table `[1.0, NaN, 3.0]`, `[NaN, 5.0, 6.0]` the fit succeeds with a median for each column |
| Preprocessing.ImputationMedian | src/preprocessing.py:36 | the fitted median of `[1.0, NaN, 3.0]` is 2.0 |
| Preprocessing.ImputationExample | src/preprocessing.py:49-51 | after `fit_transform` on that table nothing is missing, and the gap in the first column holds 2.0 |
| Preprocessing.EmptyColumnExample | src/preprocessing.py:49-51 | a column missing in every row makes `fit_transform` fail with `ShapeMismatch` |

## Left out

- Reading the workbook is not modelled. The file's existence is a flag, and the sheets are a map from sheet name to the table read from it.
- The web service, the model training and evaluation, and the training script are not part of this model.
- Number parsing is the parameter `parse` of the loader. The text grammar `pd.to_numeric` accepts is not modelled.
- Rendering a number as text (`astype(str)` on a numeric id) is the parameter `show`, applied to one value at a time. Missing ids read `"nan"`. In pandas the text depends on the whole column's type: an integer id reads "1" in an all-integer column but "1.0" once the column holds a NaN, which can stop the same student's ids matching in the `RA` join across years. That dependence is not modelled.
- DataLoader.NormaliseSheet: a rename that gives two columns one name is reported as `DuplicateColumn`. In pandas the `rename` itself succeeds; the raise comes later, when `pd.to_numeric` receives a two-column selection (`src/data_loader.py:73`), and it is a `TypeError`. The sheet is lost either way, and the exception class is not modelled.
- Tables.Table cannot hold duplicate column names, so sheets are assumed to have distinct columns (`read_excel` renames repeated headers). For the same reason, the constructor of `TemporalPreprocessor` requires a column list without repeats.
- Preprocessing.FitMedians: any text cell is `NonNumeric`. The imputer's conversion of numeric-looking strings to numbers is not modelled.
- Preprocessing.TemporalPreprocessor: the `SimpleImputer` object is modelled by its fitted state (the fitted flag, the statistics, and whether it has recorded column names). A fit on zero columns is taken not to record names. Its other parameters and its warnings are not modelled. The order of `transform`'s failures after a failed fit is that of scikit-learn 1.1 and later; earlier versions checked rows and cells before reporting the missing state.
- FeatureEngineering.MergeNext: the row order for duplicate ids is left row first, then right row. pandas follows left-row order for inner merges from version 2.2; earlier versions grouped rows by key, and the source pins no version. The merge's dtype checks on the key column are not modelled; ids are compared as cells.
- Printed messages (the missing-year notice in `create_temporal_dataset`) are left out.
- Cell values are reals. NaN is the `Missing` cell, and floating-point rounding is not modelled. The median of two values is their exact mean.

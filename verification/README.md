# Plataforma-web core, modelled in Dafny

Plataforma-web is a small machine-learning web application. A user uploads a
table. The application cleans it, computes a fingerprint of the table (its
"meta-features"), and asks a pre-trained meta-model which algorithm to try.
It then trains the algorithms the user picks and reports their metrics.
The meta-model itself is trained offline on simulated tables.

This project models the four pieces of that pipeline that carry exact table
and dictionary logic:

- the dataset cleaner `clean_dataset` (`Preprocessor`, with worked examples in
  `PreprocessorExamples`);
- the fingerprint `extraer_meta_features` (`MetaFeatures`, one definition
  shared by both files that carry a copy of it) and the recommender's input
  alignment in `recomendar` (`Recommender`);
- the offline construction of the meta-model's training set: the labelling
  rule, the label-to-problem-type tagging, `preparar_datos_meta`, the one-hot
  encoding and the X/y split (`Training`);
- the training dispatcher: the model catalog, the metric table and the shape
  of the result map of `entrenar_modelos` (`MlEngine`).

Shared layers:

- `Tables`: a pandas DataFrame as named, typed columns plus labelled rows of
  optional cells, with row and column selection and `reset_index`.
- `Encoding`: `get_dummies` with sorted categories, and `drop(columns=…)`.
- `Seqs`: boolean masks and index lists.
- `Wrappers`: `Option` and `Result`.

Every operation is a pure function from values to values. A Python exception
(`ValueError`, `KeyError`) is a `Failure` value.

## Model

| member | source | states |
|---|---|---|
| Preprocessor.DropEmptyColumns | utils/preprocessor.py:17-19 | Step 1 keeps a column exactly when it has a present cell and keeps every row. It reports exactly the all-missing columns, in column order, and kept plus reported columns add up to the input's width. |
| Preprocessor.DropIncompleteRows | utils/preprocessor.py:22-25 | Step 2 keeps a row exactly when it has no missing cell and leaves no missing cell. The reported count is the rows before minus the rows after, and equals the number of incomplete rows. |
| Preprocessor.CompleteRowsKept | utils/preprocessor.py:23 | The rows `dropna` keeps are exactly the complete rows of the input. |
| Preprocessor.DropConstantColumns | utils/preprocessor.py:28-30 | Step 3 keeps a column exactly when it has more than one distinct value, and lists exactly the dropped columns, in column order. |
| Preprocessor.FilterColumnRestricts | utils/preprocessor.py:35-37 | On any table, one negative-value check keeps a well-formed restriction of its input, with the same columns and made of the input's own rows. |
| Preprocessor.FilterColumnClears | utils/preprocessor.py:35-37 | On any table, one check returns the number of rows negative in its column and leaves no negative cell there. When it filters, every kept row has a present cell in that column, because `df[col] >= 0` is false for NaN. |
| Preprocessor.FilterColumnDropsMissing | utils/preprocessor.py:35-37 | When a check finds a negative cell, a row whose cell in that column is missing is dropped without being counted, so kept plus counted rows fall short of the input. |
| Preprocessor.FilterColumnSpec | utils/preprocessor.py:35-37 | On a table without missing cells, which is what step 4 receives after step 2, one check removes exactly the rows negative in its column and returns their number: kept plus counted rows equal the input rows. The result still has no missing cell. |
| Preprocessor.FilterNegativesRestricts | utils/preprocessor.py:34-37 | Step 4 keeps a restriction of its input, made of the input's own rows. |
| Preprocessor.FilterNegativesClears | utils/preprocessor.py:34-37 | After step 4, no kept row has a negative cell in any checked column. |
| Preprocessor.FilterNegativesCounts | utils/preprocessor.py:34-38 | Every step-4 report entry has a positive count, because an entry is written only when something was removed. On a table without missing cells, kept rows plus reported counts equal the input rows. |
| Preprocessor.FilterColumnSequential | utils/preprocessor.py:35-37 | On a table without missing cells, a check run on the rows that passed the earlier checks counts exactly the passing rows that are negative in its column. It leaves exactly the rows that pass every check so far. |
| Preprocessor.FilterNegativesSpec | utils/preprocessor.py:33-38 | On a table without missing cells, step 4 keeps exactly the rows with no negative cell in any numeric column, as one simultaneous filter would. Its report equals the sequential reference report. |
| Preprocessor.SequentialReportColumns | utils/preprocessor.py:34-38 | The step-4 report names only checked columns, and names each at most once. |
| Preprocessor.ReportKeysDistinct | utils/preprocessor.py:19-38 | No step-4 report key collides with the three fixed keys or with another step-4 key, so the report dictionary loses no entry. |
| Preprocessor.CleanDataset | utils/preprocessor.py:5-40 | The cleaned table is a well-formed restriction of the input, renumbered 0..n-1, with no missing cell and no negative numeric cell. It has at most the input's width and height. Final rows = input rows − reported NaN rows − the sum of the negative counts. The report lists exactly the all-missing columns, and its keys are distinct. |
| PreprocessorExamples.FirstCleaning | utils/preprocessor.py:5-40 | On columns `a` = [1, 2] and `b` = [-1, 5], cleaning leaves only the second row, renumbered 0. |
| PreprocessorExamples.CleanNotIdempotent | utils/preprocessor.py:28-37 | Cleaning the cleaned example again drops every column, so the cleaner is not idempotent: step 4 can leave columns that step 3 would now drop. |
| PreprocessorExamples.CleanOfUntouched | utils/preprocessor.py:5-40 | On a table that steps 1 to 3 leave alone, cleaning is step 4 followed by renumbering. |
| Tables.ResetIndex | utils/preprocessor.py:40 | Renumbering keeps the columns and each row's cells in order, and labels the rows 0..n-1. |
| MetaFeatures.ExtractMeta | Model/recomendador.py:6-33 | The row and column counts are the table's. The numeric and categorical counts partition the columns. With no numeric column the four aggregates are 0; otherwise they come from the numeric columns. `porc_nan` is undefined (NaN) exactly for an empty table, and otherwise is the missing-cell share, in [0, 1]. `cardinalidad_cat` is 0 without categorical columns. Otherwise it is the total of their distinct non-missing value counts divided by their number. It always lies in [0, rows]. |
| MetaFeatures.KindsPartition | Model/recomendador.py:12-15 | Every column is either numeric or categorical, so the two counts add up to the column count. |
| MetaFeatures.PorcNanFraction | Model/recomendador.py:10 | The mean over columns of each column's missing fraction equals the count of missing cells over rows × columns, and lies in [0, 1]. |
| MetaFeatures.CardinalidadCatMean | Model/recomendador.py:28-31 | With categorical columns, `cardinalidad_cat` equals the sum of their `nunique` counts, added column by column, divided by the number of such columns. |
| MetaFeatures.CardinalityBounds | Model/recomendador.py:28-31 | The mean distinct-value count over the categorical columns is between 0 and the row count. |
| MetaFeatures.MetaCellsRoundTrip | Model/recomendador.py:43 | Writing the fingerprint as a row of cells in key order and reading it back gives the fingerprint. |
| MetaFeatures.MetaKeysDistinct | Model/recomendador.py:7-31 | The fingerprint's ten keys are distinct. |
| Encoding.Categories | Model/entrenamiento.py:76 | The categories `get_dummies` creates are the distinct texts of the column, sorted, without repetition. |
| Encoding.SortedUnique | Model/entrenamiento.py:76 | Two sorted lists with the same members are equal, so the category order is determined by the categories alone. |
| Encoding.GetDummiesSpec | Model/entrenamiento.py:76 | The categories are the column's distinct texts, sorted and each listed once. The encoded table holds the other columns and cells in their order, then one numeric `<name>_<category>` column per category. Each row keeps its index, and its flag for a category is 1 exactly when its cell held that category, 0 otherwise. |
| Encoding.FlagsOneHot | Model/recomendador.py:44 | A present category sets exactly one flag. |
| Encoding.DropColumnSpec | Model/entrenamiento.py:78 | Dropping a named column keeps every other column in order and removes the named one. A missing name is a failure. |
| Recommender.FillMissing | Model/recomendador.py:47-49 | The fill loop keeps the existing columns and cells. It adds every expected name that is missing, filled with 0, and no other name. |
| Recommender.Reindex | Model/recomendador.py:51 | Selecting columns by name succeeds exactly when every name is present. It then yields those names in the requested order. |
| Recommender.AlignSpec | Model/recomendador.py:47-51 | Alignment never fails. Its columns are exactly the expected names in their order, each holding the input's value or 0. |
| Recommender.EncodedFrame | Model/recomendador.py:41-44 | The one-row frame with `tipo_problema` one-hot encodes to the fingerprint columns plus the single dummy `tipo_problema_<tag>`, set to 1. |
| Recommender.EncodedInput | Model/recomendador.py:41-51 | The model's input has exactly the model's feature names, in order, and a single row. Each cell is the fingerprint value for a fingerprint key, 1 for the dummy of the given type, and 0 otherwise. |
| Recommender.Recommend | Model/recomendador.py:39-54 | The recommendation is the meta-model's prediction on that reference row. |
| Recommender.UnaccentedTagMatchesNoDummy | Model/recomendador.py:41-49 | A problem type spelled without accents sets neither of the accented dummies the training script creates; both read 0. |
| Training.LabelTag | Model/entrenamiento.py:49-52 | The label of dataset `i` is tagged classification exactly when it has at least 1000 rows and `i` is even. In particular the logistic regression label, chosen for fewer than 1000 rows and even `i`, is tagged regression. |
| Training.Tag | Model/entrenamiento.py:71 | A label's tag is one of the two accented tags, and is "clasificación" exactly when the label contains "Classifier". |
| Training.RegressorTag | Model/entrenamiento.py:71 | Any label without a capital C is tagged regression, because it cannot contain "Classifier". |
| Training.Contains | Model/entrenamiento.py:71 | Substring search holds exactly when the pattern occurs at some position. |
| Training.Simulate | Model/entrenamiento.py:43-56 | The simulator returns 100 datasets and 100 labels, aligned by position. Each dataset has 50 to 4999 rows and 3 to 29 columns, all numeric, and no missing cell. Each label follows the rule for its row count and position. |
| Training.SimulatedTable | Model/entrenamiento.py:44-47 | A simulated dataset has the drawn shape, numeric columns `c0`, `c1`, … with distinct names, and no missing cell. |
| Training.NatToStringInjective | Model/entrenamiento.py:47 | Different column numbers give different column names. |
| Training.PrepareMeta | Model/entrenamiento.py:58-65 | The meta-dataset has one record per zipped triple, so its length is the shortest input's. Each record holds its dataset's fingerprint, its type and its label under the fingerprint keys, `tipo_problema` and `mejor_modelo`. |
| Training.RecordColumnsDistinct | Model/entrenamiento.py:62-63 | `tipo_problema` and `mejor_modelo` collide with no fingerprint key. |
| Training.EmptyMetaFails | Model/entrenamiento.py:73-76 | With no records the frame has no `tipo_problema` column, and encoding it fails. |
| Training.DropBestModel | Model/entrenamiento.py:78 | Dropping `mejor_modelo` from the encoded records leaves the fingerprint columns and the dummies. Each row loses only its label. |
| Training.EncodeAndSplitSpec | Model/entrenamiento.py:73-79 | For a non-empty meta-dataset, X has the fingerprint keys then one dummy per type that occurs, in sorted order. Each X row is its dataset's fingerprint followed by its type's flags, and y lists the labels in record order. |
| Training.SimulatedCategories | Model/entrenamiento.py:49-71 | Over the simulated labels, "regresión" always occurs, and "clasificación" occurs exactly when some even-numbered dataset has at least 1000 rows. |
| Training.TrainingSet | Model/entrenamiento.py:67-79 | `main` up to the fit produces 100 X rows and 100 labels. Each X row reads back as its dataset's fingerprint, and each label follows the rule. The features are the ten fingerprint keys then only the two dummies. The regression dummy is always present; the classification dummy is present exactly when some even-numbered dataset has at least 1000 rows. |
| MlEngine.AvailableModels | utils/ml_engine.py:9-24 | The catalog lookup succeeds exactly for "clasificacion" and "regresion". Any other tag fails with the `ValueError` message naming it, and each model sits under its own class name. |
| MlEngine.CatalogContents | utils/ml_engine.py:13-22 | The classification catalog holds the logistic regression and the forest classifier under their class names. The regression catalog holds the linear regression and the forest regressor. |
| MlEngine.EstimatorNameRoundTrip | utils/ml_engine.py:15-21 | A catalog key reads back as its estimator. |
| MlEngine.Metrics | utils/ml_engine.py:26-44 | The metric lookup succeeds exactly for the two unaccented tags. Any other tag fails with the `ValueError` message naming it. |
| MlEngine.MetricsOfTag | utils/ml_engine.py:30-42 | Classification scores accuracy, precision, recall and F1; regression scores MSE, MAE and R2. Each metric has its own name. |
| MlEngine.SameTags | utils/ml_engine.py:13-44 | The two lookups accept the same tags, and both reject the accented tags the training script uses. |
| MlEngine.WeightedMetrics | utils/ml_engine.py:60-63 | Weighted averaging is asked for exactly for precision, recall and F1 in classification. |
| MlEngine.MetricValuesKeys | utils/ml_engine.py:58-64 | A model's metric map is keyed by exactly the tag's metric names. |
| MlEngine.MetricValuesAt | utils/ml_engine.py:59-64 | Each metric name holds that metric's score of the predictions, with weighting as required, rounded. No later metric overwrites it. |
| MlEngine.EvaluateSpec | utils/ml_engine.py:54-73 | A model's entry keeps the fitted model, its predictions on the test split and the test targets in order, and every metric of the tag under its name. |
| MlEngine.MissingIndex | utils/ml_engine.py:53-54 | Finds the first selected name that is not in the catalog; all names before it are in the catalog. |
| MlEngine.TrainModels | utils/ml_engine.py:46-75 | An unsupported tag fails with the metric lookup's `ValueError` before any model is fit. Otherwise training succeeds exactly when every selected name is in the catalog, and fails with a `KeyError` on the first missing one. On success the result's keys are exactly the selected names, each holding its catalog model's evaluation. |
| MlEngine.ClassificationResult | utils/ml_engine.py:58-64 | A classification entry has exactly the keys Accuracy, Precision, Recall and F1-Score. Accuracy is unweighted and the other three are weighted. |
| MlEngine.RegressionResult | utils/ml_engine.py:58-64 | A regression entry has exactly the keys MSE, MAE and R2, all unweighted. |

## Behaviour the model pins down

- Step 4 of the cleaner checks the numeric columns one after another. Each
  check runs on the rows the earlier checks left, so a row negative in two
  columns is counted only under the first. The rows that survive, however,
  are exactly those with no negative numeric cell. They are the same rows
  one simultaneous filter would keep. Only the reported counts depend on the
  column order (`Preprocessor.FilterNegativesSpec`).
- Step 4 counts `df[col] < 0` but keeps `df[col] >= 0`. A missing cell is
  neither, so on a table with missing cells a filtering check would drop
  rows it never counted (`Preprocessor.FilterColumnDropsMissing`). Inside
  the cleaner this cannot happen: step 2 has already removed every row with
  a missing cell, so the counts add up (`Preprocessor.CleanDataset`).
- The cleaner is not idempotent (`PreprocessorExamples.CleanNotIdempotent`).
  Step 4 runs after step 3, so removing negative rows can leave a column
  with a single value, which a second run then drops.
- The training script tags problems "clasificación" and "regresión", with
  accents (Model/entrenamiento.py:71). The dispatcher only accepts
  "clasificacion" and "regresion" (utils/ml_engine.py:13-18). The model keeps
  the two spellings apart (`MlEngine.SameTags`). A recommender called with
  the unaccented spelling sets neither dummy the meta-model was trained on
  (`Recommender.UnaccentedTagMatchesNoDummy`).
- The tag is decided by the substring "Classifier", so
  "LogisticRegression", a classifier, is tagged "regresión"
  (`Training.LabelTag`).

## Left out

- ExtractMeta: the mean, standard deviation, skewness and kurtosis of the
  numeric columns come from an `aggregate` parameter. They are
  floating-point statistics computed by pandas and SciPy, so only their
  zero default and where they come from are stated.
- ExtractMeta: `porc_nan` and `cardinalidad_cat` are exact real numbers,
  not IEEE doubles, and an empty table's NaN is `None`.
- MetricValuesAt: the metric functions and `round(valor, 4)` are parameters
  of a `Learner`, so their values are not constrained.
- TrainModels: fitting and predicting are `Learner` parameters. Exceptions
  raised inside scikit-learn (bad shapes, a single class) are not modelled.
  The fitted model is a value of an arbitrary type.
- Recommend: loading the meta-model with `joblib` is left out. The model is
  a value holding its feature names and a prediction function.
- Training.Simulate: the `np.random` draws are an input. The noise values
  are carried as data, without their distribution, and the row and column
  ranges are preconditions on the draws.
- TrainingSet: the `RandomForestClassifier` fit, `joblib.dump` and the
  final `print` of `main` (Model/entrenamiento.py:81-85) are I/O or library
  calls and are left out.
- GetDummies: pandas writes the dummy columns as booleans. They are
  modelled as the numbers 1 and 0, which is how the meta-model reads them.
- TrainModels, MetricValues: Python dictionaries keep insertion order, so
  `entrenar_modelos` lists its results in the order of `seleccionados` and
  each entry's metrics in catalogue order. The model's maps are unordered
  and do not record that order.
- The cleaner's in-place mutation of the caller's frame in steps 1 to 3 is
  aliasing. The cleaner is modelled as a pure function from a table to a
  (table, report) pair.
- app.py (the Streamlit interface) and utils/data_loader.py (CSV and Excel
  parsing) are user interface and file input, and are not part of this
  model.

# Walk-forward asset-prediction experiments: the original sequence logic

The repository runs offline experiments that predict forward returns of
financial assets with gradient-boosted trees, linear models and recurrent
networks. Nearly all of it is calls into machine-learning and data
libraries. This project models the small part that is the repository's
own deterministic logic, and proves properties of it:

- **Top-k thresholding** (`get_prediction`). The scores are sorted in
  descending order. The score at rank `top_k = int(pos_ratio * len(scores))`
  becomes the threshold. Only scores strictly above it are labelled 1.
  The model keeps Python's behaviour exactly. `int()` truncates toward
  zero. A negative `top_k` indexes from the end. An out-of-range `top_k`
  raises `IndexError`, modelled as a `Result`.
- **Sliding windows** (`get_rnn_dataset`). Every run of `length`
  consecutive feature rows is paired with the label of its last row.
- **Walk-forward batches** (the batch loop of `sequential`). The last
  `test_size` rows are cut into `ceil(test_size / n_batch_prediction)`
  consecutive batches. Each batch is scored by a model trained on
  everything before it, with time-decay sample weights (`get_weights`).
  The scores are then cut at 0.5.
- **Label binarisation.** A raw label becomes 1 exactly when it is > 0.
- **Report paths.** The paths are built with POSIX `os.path.join`.

Modules:

- `PyBuiltins` (py_builtins.dfy): Python's `int()`, list subscripts,
  slices and `reversed`.
- `PosixPath` (posix_path.dfy): `os.path.join`, and `os.path.split` as
  its partner.
- `Ranking` (ranking.dfy): the descending sort, counting scores above a
  threshold, and the 0/1 labelling rule. The rule is applied in three
  places: by `get_prediction` at the top_k threshold, by the 0.5 cut in
  `sequential`, and by the binarisation of raw labels at 0.
- `ModelSimulation` (model_simulation.dfy): model/simulation.py.
- `AppSimulation` (app_simulation.dfy): app/simulation.py.

Scores, raw labels and decay ratios are exact reals. The model fitted
inside each `sequential` batch is the parameter `score(trainYs, weights,
row)`: the score of test row `row` from a model trained on the labels
`trainYs` of the rows before the batch, weighted by `weights`. Its
training rows are therefore exactly the prefix `[0, len(trainYs))`.

Classification
report names are `{asset}_{label}_classification.csv`. Two different
(asset, label) pairs can share a file: `a_b`/`c` and `a`/`b_c`
(`ClassificationPathsCanCollide`). An asset name without `_` rules this
out (`ClassificationPathsDistinct`). The asset app/simulation.py runs on,
`hsi3`, has no `_`, so `ClassificationPathsDistinct` applies to its
reports. Its label names come from app/data.py, which is not part of this
model.

## Model

| member | source | states |
|---|---|---|
| `PyBuiltins.TruncToInt` | model/simulation.py:189 | `int(x)` truncates toward zero: the result is within 1 of x, on the side of zero |
| `PyBuiltins.ResolveIndex` | model/simulation.py:190 | a subscript into a list of length n succeeds exactly for -n <= k < n; a negative k reads position n + k |
| `PyBuiltins.Slice` | app/simulation.py:193-196 | `s[lo:hi]` has length max(0, min(hi,n) - min(lo,n)), and element k is `s[lo + k]` |
| `PyBuiltins.Reversed` | app/simulation.py:220 | `reversed` keeps the length and puts element n-1-k at position k |
| `PosixPath.Join` | app/simulation.py:244 | the joined path ends with the file name; an absolute name replaces the directory; otherwise it starts with the directory, and when the directory is non-empty and does not end with `/` the one character between them is `/` |
| `PosixPath.SplitJoin` | app/simulation.py:244 | splitting a joined path gives back the directory and the file name, when the name has no separator and the directory does not end with one |
| `Ranking.SortDesc` | model/simulation.py:190 | `sorted(scores, reverse=True)` keeps the length and the multiset of scores, and is in descending order |
| `Ranking.SortedPermutationUnique` | model/simulation.py:190 | any two descending orders of the same scores are equal, so the threshold does not depend on how the sort works |
| `Ranking.TopKCountBound` | model/simulation.py:189-196 | at most k scores are strictly above the score at descending rank k |
| `Ranking.TopKCountExact` | model/simulation.py:189-196 | when no two scores tie, exactly k scores are strictly above the score at rank k |
| `Ranking.Labels` | app/simulation.py:206 | the 0/1 labelling keeps the length, and element i is 1 exactly when score i is strictly above the threshold (line 206 with 0.5, line 180 with 0) |
| `Ranking.LabelsCount` | model/simulation.py:192-196 | the number of 1s equals the number of scores strictly above the threshold |
| `Ranking.LabelsAppend` | app/simulation.py:206-208 | labelling each batch and concatenating is the same as labelling the concatenated scores |
| `ModelSimulation.TopK` | model/simulation.py:189 | `top_k = int(pos_ratio * len(scores))`: for a non-negative ratio, top_k is non-negative and within 1 below the product; for a negative ratio, non-positive and within 1 above it |
| `ModelSimulation.TopKIndex` | model/simulation.py:189-190 | the rank `sorted(...)[top_k]` reads, when it succeeds, is a valid position |
| `ModelSimulation.TopKIndexCases` | model/simulation.py:189-190 | the subscript fails on no scores and on a ratio >= 1; for a ratio in [0, 1) and some scores it reads rank top_k itself, and 0 <= top_k < len(scores) |
| `ModelSimulation.TopKScore` | model/simulation.py:190 | a threshold exists exactly when the subscript succeeds, and it is one of the scores |
| `ModelSimulation.TopKLabelsCount` | model/simulation.py:189-196 | labelling at the top_k threshold gives at most as many ones as the resolved rank (top_k, or len(scores) + top_k for a negative top_k), and exactly that many when there are no ties |
| `ModelSimulation.GetPrediction` | model/simulation.py:188-197 | IndexError exactly when the rank is out of range; otherwise one label per score, each 0 or 1, 1 exactly when the score is strictly above the rank-top_k score (ties and lower scores get 0), at most as many ones as the resolved rank (top_k, or len(scores) + top_k for a negative top_k), and exactly that many without ties |
| `ModelSimulation.PredictionsAtThreshold` | model/simulation.py:191-197 | the labels at the rank-top_k threshold are one per score, each 0 or 1, 1 exactly above the threshold, with the count bounds of `TopKLabelsCount` |
| `ModelSimulation.GetRnnDataset` | model/simulation.py:219-227 | max(0, len(xs)-length+1) windows; window i is `xs[i..i+length)` and ends at row i+length-1; label i is `[ys[i+length-1]]`; equal counts when len(xs) == len(ys) |
| `ModelSimulation.RegressionFilePath` | model/simulation.py:285-286 | the path is `output/regression.csv` |
| `ModelSimulation.ClassificationFilePath` | model/simulation.py:288-289 | the path is `output/classification.csv` |
| `AppSimulation.Pow` | app/simulation.py:220 | `math.pow(decay_ratio, i)` for a natural exponent; a non-negative ratio gives a non-negative power |
| `AppSimulation.GetWeights` | app/simulation.py:219-221 | one weight per label |
| `AppSimulation.WeightsAt` | app/simulation.py:220 | weight j of n is decay_ratio^(n-1-j); the newest row weighs 1 |
| `AppSimulation.WeightsNondecreasing` | app/simulation.py:220 | for a ratio in [0, 1], weights lie in [0, 1] and never decrease toward the newest row |
| `AppSimulation.WeightsPositive` | app/simulation.py:220 | a positive ratio gives every row a positive weight |
| `AppSimulation.WeightsWithoutDecay` | app/simulation.py:220 | a ratio of 1 weights every row 1 |
| `AppSimulation.NumBatches` | app/simulation.py:188 | `ceil(test_size / n_batch_prediction)`: the batches hold the test segment, and one batch fewer would not |
| `AppSimulation.BatchStartsInside` | app/simulation.py:188-191 | every batch that runs starts before the end of the test segment |
| `AppSimulation.AllBatchesFill` | app/simulation.py:188-189 | all batches together reach the end of the test segment |
| `AppSimulation.TrainSpan` | app/simulation.py:191-193 | batch i trains on rows [0, batch_train_index), with batch_train_index = n_train + n_batch_prediction*i, clamped to the number of rows |
| `AppSimulation.TestSpan` | app/simulation.py:191-196 | batch i tests on rows [batch_train_index, batch_test_index), clamped like a slice: at most n_batch_prediction rows, exactly those when they fit, none past the end |
| `AppSimulation.TestSpansContiguous` | app/simulation.py:191-196 | batch i+1's test rows start where batch i's end, after clamping |
| `AppSimulation.TestSpansDisjoint` | app/simulation.py:191-196 | the test rows of different batches never overlap, and earlier batches hold earlier rows |
| `AppSimulation.NoLookAhead` | app/simulation.py:191-196 | batch i trains on rows [0, n_train + n_batch_prediction*i); its non-empty test rows start exactly there, so every training row is before every test row |
| `AppSimulation.TrainPrefixGrows` | app/simulation.py:191-193 | the training prefix grows by n_batch_prediction from one batch to the next |
| `AppSimulation.BatchesCoverTestSegment` | app/simulation.py:188-196 | the batches' test rows, concatenated, are exactly rows n_train .. n_train+test_size, each once and in order |
| `AppSimulation.ScoredRowSeesOnlyThePast` | app/simulation.py:188-196 | test row j belongs to batch j / n_batch_prediction, whose training prefix ends at or before the row and less than one batch before it |
| `AppSimulation.RowScore` | app/simulation.py:191-205 | the score of test row j is the model trained on the labels of its batch's `TrainSpan`, with their decay weights, scoring row n_train + j |
| `AppSimulation.BatchScores` | app/simulation.py:191-205 | one batch yields a score per clamped test row, each from the model trained on the labels and weights of the batch's prefix |
| `AppSimulation.AppendBatch` | app/simulation.py:207 | adding batch i's scores to those of the earlier batches gives the scores of batches 0..i |
| `AppSimulation.Sequential` | app/simulation.py:167-208 | labels binarised at > 0; `test_ys` is the last test_size labels; scores and predictions have exactly test_size entries, aligned with `test_ys`; score j is from the model trained on the rows before its batch, with decay weights; predictions are the scores cut at > 0.5 |
| `AppSimulation.ReportDir` | app/simulation.py:240-243 | the report directory lies under `output/` and does not end with a separator |
| `AppSimulation.RegressionFilePath` | app/simulation.py:239-244 | the path ends in `_regression.csv` |
| `AppSimulation.ClassificationFilePath` | app/simulation.py:247-252 | the path ends in `_classification.csv` |
| `AppSimulation.SequentialFilePath` | app/simulation.py:255-260 | the path ends in `_sequential.csv` |
| `AppSimulation.RegressionPathSplit` | app/simulation.py:239-244 | the file `{asset}_regression.csv` sits in `output/report` in production and in `output/exp` otherwise |
| `AppSimulation.ClassificationPathSplit` | app/simulation.py:247-252 | the file `{asset}_{label}_classification.csv` sits in `output/report` or `output/exp` |
| `AppSimulation.SequentialPathSplit` | app/simulation.py:255-260 | the file `{asset}_sequential.csv` sits in `output/report` or `output/exp` |
| `AppSimulation.RegressionPathsDistinct` | app/simulation.py:239-244 | different assets or modes never share a regression report |
| `AppSimulation.SequentialPathsDistinct` | app/simulation.py:255-260 | different assets or modes never share a sequential report |
| `AppSimulation.ClassificationPathsDistinct` | app/simulation.py:247-252 | different (asset, label, mode) triples never share a classification report, when asset names have no `_` |
| `AppSimulation.ClassificationPathsCanCollide` | app/simulation.py:252 | without that condition, `a_b`/`c` and `a`/`b_c` share one classification report |

## Left out

- Model fitting and prediction are left out: xgboost `cv`/`train`/`predict`, the keras LSTM (`get_rnn_model`, `get_rnn_generator`), sklearn linear and logistic regression. They are foreign library calls. In `sequential` they become the `score` parameter.
- `evaluate` and `evaluate_classification` (AUC, accuracy, F1, precision, recall) and RMSE are left out. They only forward to sklearn.
- The experiment drivers `main`, `regression`, `classification`, the outer label and parameter-grid loops of `sequential`, DataFrame building, CSV writing, `print`, `load_data` and model saving are left out. They are I/O and library glue. Modules app/model.py and app/data.py (`xgb_param_selection`, `search_threshold`, `get_model`, `get_model_file_path`) are not part of this model.
- `train_test_split`, `StandardScaler`, `TimeseriesGenerator`, `get_xgb_data` and the xgboost parameter dictionaries are left out. They are library wrappers or constant configuration.
- The `rnn` branch of `regression` in model/simulation.py is left out. The loop over model names never selects it.
- Floating point is not modelled. `pos_ratio * len(scores)`, `math.pow` and `math.ceil(test_size / float(n))` are computed exactly over reals and integers. NaN scores are not modelled.
- `GetRnnDataset`: requires length >= 1. With a length of zero or less, Python's negative slice bounds would apply, and the source never passes such a length.
- `Sequential`: requires n_batch_prediction > 0 and test_size <= number of rows. A zero batch size raises ZeroDivisionError. A negative one gives no batches, so the scores and predictions stay empty while `test_ys` keeps test_size entries. A short table hits Python's negative-index slicing. The source only uses the positive sizes 5 … 480 and the default test size 200.
- `Sequential`: the model sees its training rows' features only through the row positions. `score` gets the training labels and weights, and the training prefix is fixed by their length.

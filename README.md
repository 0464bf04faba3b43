# MNIST classifier: data preparation, batching, evaluation and top-k

This project models the data handling and evaluation code of a small MNIST
digit classifier (a NumPy two-layer network) and proves properties of it.
The network itself is out of scope. Five modules, one per source file plus
shared vocabulary:

- `Common` (common.dfy): optional and result values for the error paths,
  `np.arange` as `Range`, permutations of it (what a seeded
  `rng.shuffle` produces), fancy indexing `X[idx]` as `Gather`, and
  Python's slice-bound rules as `SliceBound`.
- `Utils` (utils.dfy): `accuracy` and `batch_iterator` from `src/utils.py`.
  The iterator is a method with a loop. It is proved against the
  specification function `Chunks`, and `Chunks` is proved to cover the
  index vector once, in order, in ceil(N/B) pieces.
- `Confusion` (confusion.dfy): `confusion_matrix` and `per_class_accuracy`
  from `src/confusion.py`.
  - Both work on `array2`/`array` in place, as in the source.
  - Every cell is specified as a count over the label vectors.
  - Proved facts: row sums are class counts, the grand total is the
    number of pairs, and the trace is the number of correct predictions.
  - Per-class accuracy is in [0, 1] and is the recall of its class.
- `Data` (data.dfy): `load_arff_mnist` and `train_test_split` from
  `src/data.py`.
  - The parser loop is a method that keeps the parser state as a loop
    invariant. It is proved against a declarative description: the data
    section is the stripped non-blank, non-comment lines after the first
    `@data` line.
  - Each error the model covers is characterised exactly: an unparsable
    label, ragged rows, a label beyond int64, an empty feature array.
  - The split is proved to partition the rows.
- `Predict` (predict.dfy): `topk` from `src/predict.py`. It is modelled over
  any order `np.argsort` may return, since ties have no fixed order.
  `Argsort` shows such an order always exists.

Randomness (the seeded generators) and file reading are parameters: a
permutation in place of `rng.shuffle`, the file's lines in place of the
open file.

Where a docstring and the code differ, the model follows the code. The
docstring of `load_arff_mnist` (src/data.py:9-11) promises features
normalised to [0, 1] and labels 0-9. The code divides by 255 only when the
maximum exceeds 1.0, which does not guarantee that range, and it accepts
any label `int()` reads that fits int64.

## Model

| member | source | states |
|---|---|---|
| Utils.Accuracy | src/utils.py:3-6 | None exactly for empty vectors (numpy's mean of nothing is NaN); otherwise the fraction of equal positions, in [0, 1], 1 exactly when every prediction is right and 0 exactly when none is |
| Utils.HitsAll | src/utils.py:6 | the number of equal positions is the length exactly when all positions agree |
| Utils.HitsNone | src/utils.py:6 | the number of equal positions is 0 exactly when no position agrees |
| Utils.ChunksCount | src/utils.py:15-16 | `range(0, N, B)` with slices `idx[start:start+B]` gives ceil(N/B) batches, none for N = 0 |
| Utils.ChunkAt | src/utils.py:15-16 | batch j is the slice from j*B up to min(N, (j+1)*B), and j*B < N |
| Utils.ChunkSizes | src/utils.py:15-16 | every batch but the last has exactly B rows; the last has between 1 and B, namely N - B*(count-1) |
| Utils.ChunksFlatten | src/utils.py:15-16 | concatenating the batches in order gives back the index vector |
| Utils.ChunksTotalLength | src/utils.py:15-16 | the batch sizes add up to N |
| Utils.ChunksCoverOnce | src/utils.py:10-16 | with a permuted index vector, every row 0 .. N-1 lands in exactly one batch position, and nothing else does |
| Utils.UnshuffledChunk | src/utils.py:10-16 | without shuffling, batch j holds rows j*B .. min(N, (j+1)*B)-1 in ascending order |
| Utils.BatchesOfAt | src/utils.py:17 | batch j pairs X and y gathered at the same index chunk j |
| Utils.SliceBatches | src/utils.py:15-17 | the loop yields, in order, one (X[c], y[c]) pair per index chunk c of the index vector, each chunk within bounds |
| Utils.BatchIterator | src/utils.py:8-17 | a zero batch size is an error; a negative one yields nothing; otherwise the batches are X and y gathered at the chunks of the shuffled or unshuffled index vector, ceil(N/B) of them |
| Common.RangeIsPermutation | src/utils.py:10 | the unshuffled index vector `arange(N)` is itself a permutation of 0 .. N-1 |
| Common.PermutationDistinct | src/utils.py:11-13 | a shuffled index vector never repeats an index |
| Common.PermutationMultiplicity | src/data.py:42-43 | each index 0 .. N-1 occurs exactly once in a shuffled index vector, and nothing else occurs |
| Confusion.ConfusionMatrix | src/confusion.py:9-13 | a newly allocated num_classes x num_classes array whose cell (i, j) counts the pairs with true label i and prediction j (all zero when there are no pairs); row i sums to the number of samples of class i, all cells to the number of pairs, the diagonal to the number of correct predictions |
| Confusion.RowSumIsTrueCount | src/confusion.py:11-12 | when predictions are in range, the counts of a row add up to the number of samples of that true class |
| Confusion.TotalIsPairs | src/confusion.py:11-12 | when labels are in range, every visited pair is counted once |
| Confusion.TraceIsHits | src/confusion.py:11-12 | the diagonal counts exactly the positions where prediction equals truth |
| Confusion.DiagonalAtMostTrueCount | src/confusion.py:11-12 | the correct predictions of a class never exceed its samples |
| Confusion.ClassAccuracyBounds | src/confusion.py:18-21 | for a matrix of counts each per-class accuracy lies in [0, 1] |
| Confusion.ClassAccuracyIsRecall | src/confusion.py:18-21 | on the matrix of two label vectors, the accuracy of class i is its correct predictions over its samples, or 0 when it has none |
| Confusion.PerClassAccuracy | src/confusion.py:16-22 | a newly allocated array with one entry per row: diagonal over row sum, 0 for a row whose sum is not positive, each in [0, 1] for a matrix of counts; the matrix is left unchanged; a non-square matrix is accepted as long as every row with a positive sum has a diagonal cell |
| Confusion.OverallAccuracyFromMatrix | src/confusion.py:34-35 | on a non-empty test set the overall accuracy equals the trace of the confusion matrix over its total |
| Data.StripEnds | src/data.py:18 | a stripped line has no whitespace at either end |
| Data.StripIdempotent | src/data.py:18 | stripping an already stripped line changes nothing |
| Data.SplitJoin | src/data.py:25 | joining the pieces of `line.split(",")` with commas gives the line back |
| Data.JoinSplit | src/data.py:25 | splitting a comma-join of comma-free fields gives back the fields |
| Data.ParseShowInt | src/data.py:26 | `int()` reads back every integer label written in decimal |
| Data.ScanIsSection | src/data.py:17-24 | the line-by-line state (`in_data` and the rows so far) is reading rows exactly once an `@data` line has gone by, and its rows are the data section so far |
| Data.HeaderIgnored | src/data.py:21-24 | lines before the first `@data` line, and that line itself, contribute no row |
| Data.SkippedLineIgnored | src/data.py:19-20 | inserting a blank or `%` comment line anywhere leaves the data rows unchanged |
| Data.DataLineYieldsRow | src/data.py:25-27 | after `@data`, each further non-blank, non-comment line adds one row, its stripped text, in file order; a repeated `@data` line is such a row |
| Data.RowPosition | src/data.py:17-27 | a data line met while reading rows is the next row of the file's data section, after the rows read so far |
| Data.RowRoundTrip | src/data.py:25-27 | a line written as comma-joined stripped, comma-free feature fields followed by a decimal label reads back as exactly those features and that label |
| Data.ReadRows | src/data.py:13-27 | on success, the feature rows and labels of every data-section line in order; on failure, the position of the first data row whose label `int()` rejects |
| Data.LoadArffLines | src/data.py:13-30 | succeeds exactly when every label parses, the rows have one length, every label fits int64 and the feature array is non-empty, returning the rows and labels in file order; each error names which of these failed first, a bad label with the first offending row |
| Data.SplitPointIsFloor | src/data.py:45 | for a test fraction in [0, 1] the training part has floor(N * (1 - test_size)) rows |
| Data.TrainTestSplit | src/data.py:34-54 | the training part is X and y at the first split entries of the shuffled index vector, the test part at the rest; with `int()` truncation and Python slice clipping for the cut |
| Data.SplitPartitionsRows | src/data.py:42-47 | the train and test index vectors are disjoint and together hold every row 0 .. N-1 exactly once |
| Predict.TopK | src/predict.py:10-12 | min(k, n) pairs for k >= 0 (Python's slice rule for negative k), each a valid position paired with its own probability |
| Predict.TopKCount | src/predict.py:11 | for k >= 0 the result has min(k, n) entries |
| Predict.TopKDistinct | src/predict.py:11 | no position is returned twice |
| Predict.TopKNonIncreasing | src/predict.py:11 | probabilities never increase along the returned list |
| Predict.TopKDominates | src/predict.py:11 | every position left out has a probability no larger than any returned one |
| Predict.Argsort | src/predict.py:11 | an argsort order (a permutation of positions in non-decreasing value) exists for every row |

## Left out

- File I/O: `open` and iteration over the file are replaced by the sequence of the file's lines.
- Feature values: the `float()` conversion of feature fields (src/data.py:27) and the float32 array are not modelled. Features stay as their stripped text, so an unparsable feature is not detected.
- Normalisation: the division by 255 when the maximum exceeds 1.0 (src/data.py:30-31) is floating-point arithmetic and is not modelled. Only the error of taking the maximum of an empty array is.
- Floating point: accuracies and probabilities are exact reals, not float64. `train_test_split`'s `N * (1 - test_size)` is computed exactly before truncation.
- Random generators: `np.random.default_rng(seed)` and `rng.shuffle` are replaced by a given permutation of 0 .. N-1. The seed's reproducibility is therefore not modelled.
- Confusion.ConfusionMatrix: requires labels in 0 .. num_classes-1. numpy's wrap-around for negative indices and its IndexError above the range are not modelled.
- Confusion.ConfusionMatrix: counts are unbounded integers, not int64.
- Confusion.PerClassAccuracy: requires that every row with a positive sum has a diagonal cell. The IndexError that `cm[i, i]` raises for such a row past the last column is not modelled as an error result.
- Confusion.ConfusionMatrix: `num_classes` is a natural number. The ValueError `np.zeros` raises for a negative size is not modelled.
- Utils.Accuracy: requires vectors of equal length. numpy's broadcasting of unequal shapes is not modelled.
- Utils.BatchIterator: requires `y` to have at least as many rows as `X`. Otherwise `y[batch_idx]` can raise IndexError, which is not modelled.
- Utils.BatchIterator: the result is the whole sequence of batches. The generator's laziness is not modelled.
- Data.TrainTestSplit: requires `y` to have at least as many rows as `X`, for the same reason.
- Data.LoadArffLines: `int()` is modelled for ASCII digits, with an optional sign and single underscores between digits. Non-ASCII decimal digits, which `int()` also accepts, are not modelled.
- Data.LoadArffLines: `lower()` is modelled on ASCII letters. No other character lowers to a letter of "@data".
- Predict.TopK: takes the argsort order as a parameter, because numpy's default sort does not fix the order of tied values. Every property is proved for every valid order. NaN probabilities are not modelled.
- The network (`src/model.py`, layers, losses), the training and prediction drivers (every `main`), `get_data`, `save_processed_npz` and `load_processed_npz`, and the HTTP demo are not part of this model.

# model-trees: tree nodes and threshold splits

This project models the tree skeleton of the `modeltrees` package (`modeltrees/_nodes.py`):

- `TreeNode`, the record a model tree is built from: a zero-based depth, an estimator, a list of
  children (documented to hold 0 or 2 nodes, or to be `None`) and a split;
- `Split`, a single-feature threshold rule, and `Split._apply_split`, which partitions the rows of a
  feature matrix `X`, and the target vector `y` when one is given, into the samples for child 0
  (value in column `split_feature` at most `split_threshold`) and those for child 1 (all others).

Files:

- `wrappers.dfy` (module `Wrappers`): `Option` for Python's `None`, `Result` for a raised exception.
- `masks.dfy` (module `Masks`): numpy boolean-mask indexing `a[mask]` and `~mask` on the leading
  axis (`Select`, `Negate`), the positions a mask selects (`TrueIndices`), and `Merge`, the inverse
  of splitting by a mask and its negation.
- `nodes.dfy` (module `Nodes`): the feature matrix, `Split`, `ApplySplit`, `TreeNode` and its
  well-formedness predicate, with the lemmas stating what the split and the node shape guarantee.

Modelling choices:

- `X` is a `Matrix(cols, rows)`: `rows` samples of `cols` features. The column count is kept apart
  from the rows because a numpy array with no rows still has a width, and `X[:, f]` still raises
  `IndexError` for a column outside it. `ApplySplit` requires the matrix to be rectangular
  (`Valid`), which every 2-d numpy array is.
- Feature values and the threshold are integers, as the docstring types the threshold.
- The split column is resolved as numpy resolves an index: `-cols <= f < cols`, counting from the
  end when negative; any other index is `IndexError`, modelled as `Failure(FeatureOutOfRange)`.
- A target vector whose length differs from the number of rows makes numpy's boolean indexing
  `y[split_filter]` raise `IndexError`; modelled as `Failure(MaskLengthMismatch)`. The column
  error comes first, because the mask is computed before `y` is touched.
- The returned list is a sequence of exactly two entries: `Plain` holds the two feature matrices
  (no `y`), `Paired` holds two `(features, targets)` parts. Targets have an arbitrary element type,
  which covers both 1-d and 2-d `y`.
- `TreeNode` is a datatype whose constructor defaults match `TreeNode.__init__` (`depth=0`, the rest
  `None`). The estimator is an uninterpreted type parameter. `children` is its own datatype
  (`NoChildren` for `None`, `ChildList` for a list) so that recursion over subtrees terminates.
  The source does not enforce the documented shape; `WellFormed` states it: 0 or 2 children (or
  none at all), a non-negative depth, and each child exactly one level deeper.

## Model

| member | source | states |
|---|---|---|
| `Masks.Select` | modeltrees/_nodes.py:113 | boolean-mask indexing keeps exactly as many elements as the mask has true entries |
| `Masks.Negate` | modeltrees/_nodes.py:113 | `~mask` flips every entry, so it selects exactly the positions the mask leaves out, and their number is the complement of the mask's count |
| `Masks.TrueIndices` | modeltrees/_nodes.py:109-113 | the positions a mask selects are in range, each has a true mask entry, and they are strictly increasing |
| `Masks.TrueIndicesComplete` | modeltrees/_nodes.py:109-113 | every position with a true mask entry is among the selected positions |
| `Masks.SelectAt` | modeltrees/_nodes.py:113 | the j-th element of `xs[mask]` is the element of `xs` at the j-th selected position, so the selection keeps the original order |
| `Masks.MergeSelect` | modeltrees/_nodes.py:109-113 | interleaving `xs[mask]` and `xs[~mask]` by the mask gives back `xs`: the two sides lose nothing and reorder nothing |
| `Masks.SelectMerge` | modeltrees/_nodes.py:109-113 | selecting by the mask and by its negation from an interleaving gives back both halves, so the split is a bijection for a fixed mask |
| `Masks.SelectPartition` | modeltrees/_nodes.py:113 | `xs[mask]` and `xs[~mask]` have sizes summing to `len(xs)` and together hold the elements of `xs` with their multiplicities |
| `Masks.IndicesPartition` | modeltrees/_nodes.py:113 | each position is selected by exactly one of a mask and its negation |
| `Nodes.ColumnIndex` | modeltrees/_nodes.py:109 | the column index resolves exactly when it lies in `[-cols, cols)`, and then names the in-range column congruent to it modulo `cols` |
| `Nodes.ApplySplit` | modeltrees/_nodes.py:89-118 | splits by the mask `LeftMask`, `X[:, k] <= threshold` for the resolved column `k` (what the mask means for the children is stated by `SplitSides`); the split succeeds exactly when the column index is valid and any target vector has one entry per row; each failure carries the right error; on success the result has exactly two subsets, plain matrices when `y` is absent and (features, targets) pairs when it is given |
| `Nodes.SplitSides` | modeltrees/_nodes.py:67-69 | both children keep the input's width; every row of child 0 is at most the threshold in the split column, every row of child 1 above it |
| `Nodes.SplitStable` | modeltrees/_nodes.py:109-113 | the j-th row of each child is the input row at the j-th position its mask selects, i.e. each child keeps the input's relative order |
| `Nodes.SplitPartition` | modeltrees/_nodes.py:109-113 | the children's sizes sum to the number of input rows, their rows are the input rows with multiplicity, interleaving them by the mask restores `X`, and each row index is selected by exactly one of the mask and its negation (with `SplitStable`, each row index goes to exactly one child) |
| `Nodes.SplitAligned` | modeltrees/_nodes.py:115-118 | with `y`, each child has as many targets as rows, and its j-th row and j-th target come from the same input index |
| `Nodes.TargetsDoNotAffectSplit` | modeltrees/_nodes.py:109-118 | passing `y` fails exactly when the call without `y` fails or `y` has the wrong length, and otherwise yields the same feature matrices |
| `Nodes.DefaultNode` | modeltrees/_nodes.py:56-60 | a node built with no arguments has depth 0, no estimator, no split and `children` equal to `None` (not an empty list), and is a well-formed leaf |
| `Nodes.NodeAtDepth` | modeltrees/_nodes.py:23-29 | in a well-formed tree, a node reached by a path of child indices is well-formed, sits exactly the path's length deeper, and every step chose child 0 or 1 |
| `Nodes.LeavesExceedInnerNodes` | modeltrees/_nodes.py:28-29 | because every inner node has exactly two children, a well-formed tree has exactly one more leaf than inner nodes |

## Left out

- The repository's benchmark notebooks (dataset download and on-disk caching, the CSV/Excel/ARFF
  loaders, cross-validation of the estimators, mean/std score formatting and table rendering) are
  not part of this model: `modeltrees/_nodes.py` implements none of them.
- Floating-point features and thresholds, and numpy's comparison semantics for them (a `NaN`
  compares false under `<=` and so goes to child 1): values are integers here.
- The estimator stored in a node is a foreign scikit-learn style object with no visible logic; it
  is an uninterpreted type parameter.
- Inputs that are not numpy arrays: a `y` passed as a plain Python list raises `TypeError` on
  boolean indexing, and a `split_feature` that is not an integer (a slice, a list, a boolean)
  indexes differently; neither is modelled. `X` is assumed rectangular, as any 2-d array is.
- Nothing in the source checks the documented node shape or uses the node's split to route
  samples to children; `WellFormed` states the documented invariant, and routing through a tree
  lives in modules that are not part of this model.

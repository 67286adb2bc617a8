# Greedy binary decision tree (milk `supervised/tree.py`)

This project models milk's decision-tree learner in Dafny, and proves
properties of the model.

- **Trees.** A tree is either a leaf holding a value and a weight, or a node
  that splits on `x[featid] < featval`.
- **`_split`.** The split search tries every searched column. Within a column
  it tries, in ascending order, every distinct value above the column's
  minimum as a threshold. A criterion scores each partition, and the search
  keeps the first pair with the highest score, provided that score is above
  -1 (ties keep the earlier pair).
- **`build_tree`.** It validates its input and grows the tree recursively.
  A subset below `min_split`, or one that `_split` cannot split, becomes
  `Leaf(labels.sum() / N, N)`.
- **Inference.** `apply_tree` walks from the root to a leaf. `tree_model.apply`
  optionally turns the leaf value into the label `value > 0.5`.
- **`tree_learner.train`.** It builds a tree and wraps it in a `tree_model`.

Modules:

- `Data` (`data.dfy`): the array operations the code relies on. These are
  boolean masks such as `features[:, i] < d` and `~mask`, masked selection
  `labels[mask]`, and sums and means.
- `Domain` (`domain.dfy`): `sorted(set(column))`.
- `Trees` (`trees.dfy`): `Leaf`/`Node`, `apply_tree` and `tree_model.apply`.
- `Splitter` (`splitter.dfy`): `_split`.
  - The specification function `BestSplit` defines what the search returns.
  - `FindSplit`, `ScanColumns` and `ScanColumn` are the imperative nested
    loops of the source. They are proved equal to `BestSplit`.
- `Builder` (`builder.dfy`):
  - `recursive` (`Grow`), `build_tree` (`BuildTree`), `tree_learner` and
    `train`;
  - the lemmas about the grown tree.

Numbers are exact: features are `real`, labels are `int`, and the mean is
exact division. The criterion is a function parameter.
`R.sample(xrange(F), subsample)` is a `Sampler` parameter: a function from a
node's position (its path from the root, `true` = left) to the columns drawn
there. Any fixed sequence of draws from a seeded generator fits this shape,
because the build visits the nodes in a fixed order.

## Model

| member | source | states |
|---|---|---|
| Trees.Leaves | milk/supervised/tree.py:36-52 | the leaves of a tree, left to right, are all `Leaf` records |
| Trees.Descend | milk/supervised/tree.py:147-157 | the walk (left when `x[featid] < featval`, right otherwise) ends on a `Leaf` that is one of the tree's leaves |
| Trees.ApplyTree | milk/supervised/tree.py:147-157 | `apply_tree` returns the value of one of the tree's leaves |
| Trees.RouteDescend | milk/supervised/tree.py:153-157 | inputs with the same walk reach the same leaf and get the same value |
| Trees.RouteStep | milk/supervised/tree.py:155-157 | two inputs share a walk through a node iff they take the same branch there and share the walk below it |
| Trees.Apply | milk/supervised/tree.py:203-207 | a label is returned iff `return_label` is set; the label is true iff the leaf value is `> 0.5`, so exactly 0.5 gives false; otherwise the result is the raw leaf value |
| Domain.Insert | milk/supervised/tree.py:63 | inserting into an ascending list keeps it ascending and adds exactly the new value |
| Domain.SortedSet | milk/supervised/tree.py:63 | `sorted(set(s))` is strictly ascending and holds exactly the values of `s` |
| Domain.SingleValue | milk/supervised/tree.py:63-64 | a column holding a single value has at most one distinct value, so no threshold |
| Splitter.SearchColumns | milk/supervised/tree.py:55-59 | without a subsample every column `0..F-1` is searched in order; with one, the drawn columns are searched, so that position `i` stands for `samples[i]` |
| Splitter.Thresholds | milk/supervised/tree.py:64 | every candidate built for column `c` splits on `c` |
| Splitter.Candidates | milk/supervised/tree.py:62-65 | every candidate splits on a column below `F` |
| Splitter.Scores | milk/supervised/tree.py:65-69 | one criterion value for each candidate |
| Splitter.FindSplit | milk/supervised/tree.py:54-77 | the imperative `_split` returns exactly `BestSplit` |
| Splitter.ScanColumns | milk/supervised/tree.py:60-77 | the outer loop over the searched columns, started from `best = None`, `best_val = -1`, ends on the state the specification search reaches |
| Splitter.ScanColumn | milk/supervised/tree.py:64-76 | the inner loop over one column's thresholds leaves the search in the state the specification reaches after those candidates |
| Splitter.ScanStep | milk/supervised/tree.py:64-76 | one iteration of the inner loop: threshold `d` replaces the best so far exactly when its score is strictly greater |
| Splitter.SearchCons | milk/supervised/tree.py:65-76 | a candidate is scored as `criterion(labels[cur_split], labels[~cur_split])` and taken iff its score beats `best_val` |
| Splitter.PendingBounds | milk/supervised/tree.py:62 | before the first column all candidates are pending, after the last none are |
| Splitter.PendingStep | milk/supervised/tree.py:62-64 | the candidates left before column `i` are that column's thresholds followed by those of the later columns |
| Splitter.BestSplitSeparates | milk/supervised/tree.py:56-76 | a returned `(ti, d)` has `ti` among the searched (drawn) columns with `ti < F`; `d` occurs in column `ti` and some sample lies strictly below it, so both `features[:, ti] < d` and its complement are non-empty |
| Splitter.ScanSpec | milk/supervised/tree.py:60-76 | from any state `(best, best_val)`: no score exceeds `best_val` iff the search ends on the starting `best`; otherwise it ends on the leading candidate (above `best_val` and every earlier score, not exceeded later) |
| Splitter.ScanPicks | milk/supervised/tree.py:70-76 | the search ends on its starting state or on one of the candidates |
| Splitter.BestSplitIsFirstMaximal | milk/supervised/tree.py:60-77 | `_split` returns `None` iff no candidate scores above -1; otherwise it returns the first candidate, in enumeration order, with the maximal score (ties keep the earlier pair) |
| Splitter.LeaderUnique | milk/supervised/tree.py:70 | the strict `>` comparison singles out one leading candidate |
| Splitter.CandidatesExact | milk/supervised/tree.py:62-65 | `(c, d)` is tried iff `c` is searched, `d` occurs in column `c`, and some value of column `c` is below `d` |
| Splitter.ColumnThresholds | milk/supervised/tree.py:63-65 | `domain_i[1:]` holds exactly the values of column `i` that have a smaller value below them |
| Splitter.ThresholdsMembers | milk/supervised/tree.py:64 | the candidates of column `c` are the pairs `(c, d)` with `d` among its thresholds |
| Splitter.SeparatesCount | milk/supervised/tree.py:65 | a separating threshold sends at least one sample to each side |
| Splitter.ConstantColumnsNoSplit | milk/supervised/tree.py:62-77 | when every searched column holds a single value, `_split` returns `None` |
| Splitter.ConstantCandidates | milk/supervised/tree.py:62-64 | constant columns yield no candidate at all |
| Splitter.ConstantColumn | milk/supervised/tree.py:63-64 | a constant column has nothing above its minimum |
| Builder.Drawn | milk/supervised/tree.py:56-57 | the columns are drawn exactly when a subsample is given |
| Builder.Grow | milk/supervised/tree.py:132-144 | `recursive` terminates (each side of a split is strictly smaller), every split reads a feature below `F`, and the leaf weights sum to `N` |
| Builder.BuildTree | milk/supervised/tree.py:98-145 | the errors, each exactly when the code raises it, in the code's order: a label count mismatch (line 123), `subsample <= 0` (lines 126-128), or a sample larger than the population when the root reaches `_split`; a built tree reads features below `F` and its weights sum to `N`; with `N < min_split` it is `Leaf(mean, N)` |
| Builder.DefaultLearner | milk/supervised/tree.py:180-185 | the defaults `min_split=4`, `return_label=True`, no subsample |
| Builder.Train | milk/supervised/tree.py:187-191 | `train` fails exactly when `build_tree` does, with the same error; otherwise it returns `tree_model(tree, return_label)` |
| Builder.GrowNode | milk/supervised/tree.py:133-142 | a node is made iff `N >= min_split` and `_split` finds a split, and the node holds that split; otherwise the leaf is `Leaf(sum/N, N)` |
| Builder.GrowChildren | milk/supervised/tree.py:139-144 | a node's subtrees are grown from the non-empty subsets `features[split]` and `features[~split]` |
| Builder.GrowMass | milk/supervised/tree.py:133-144 | the leaves' value times weight sums to `labels.sum()`: no label is lost or counted twice |
| Builder.LeafMass | milk/supervised/tree.py:135 | a leaf's value times its weight is its label total |
| Builder.GrowLeavesOccupied | milk/supervised/tree.py:139-144 | every leaf was built from at least one sample |
| Builder.GrowBinary | milk/supervised/tree.py:132-144 | with 0/1 labels every leaf value lies in [0, 1] |
| Builder.GrowPure | milk/supervised/tree.py:132-144 | samples that all carry label `c` give only leaves of value `c` (all-0 gives 0, all-1 gives 1) |
| Builder.GrowIgnoresSampler | milk/supervised/tree.py:126-136 | without a subsample the tree does not depend on the random source: training is deterministic |
| Builder.ChildCell | milk/supervised/tree.py:140-144 | the samples sharing the walk of `x` through a node are those sent to `x`'s side that share its walk through that side's subtree |
| Builder.GrowCell | milk/supervised/tree.py:132-157 | the leaf `x` reaches was built from exactly the samples that share `x`'s walk: there is at least one, the value is their mean label and the weight is their number |
| Builder.TrainingRowLands | milk/supervised/tree.py:140-157 | a training sample shares its own walk, so it is in the subset its leaf was built from; that leaf is `Leaf(mean, count)` of the subset, and its label is among the subset's labels |
| Builder.TrainedApply | milk/supervised/tree.py:187-207 | a trained model answers `true` iff the training samples sharing the input's walk sum to more than half their number (a strict majority of 1s for 0/1 labels); without `return_label` it answers their mean |
| Builder.SmallInputLeaf | milk/supervised/tree.py:133-135 | labels 0, 0, 1 with `min_split=4` give the single leaf `Leaf(1/3, 3)` |
| Builder.SeparableExample | milk/supervised/tree.py:132-144 | features 0, 0, 1, 1 with labels 0, 0, 1, 1 and `min_split=2` give one split at threshold 1 on feature 0 with the pure leaves 0 and 1, for any criterion scoring that partition above -1 |
| Builder.TwinLeaf | milk/supervised/tree.py:136-138 | two identical samples with equal labels `c` make `Leaf(c, 2)` |
| Data.Keep | milk/supervised/tree.py:65-69 | `s[mask]` has one entry per set mask bit, all taken from `s` |
| Data.KeepMember | milk/supervised/tree.py:143-144 | a sample whose mask bit is set is in the selection |
| Data.KeepKeep | milk/supervised/tree.py:143-144 | selecting from a selection is selecting with the conjunction of the masks |
| Data.KeepRowwise | milk/supervised/tree.py:140-144 | a mask computed row by row commutes with selecting rows |
| Data.CountFlip | milk/supervised/tree.py:140-144 | `split` and `~split` together select every sample exactly once |
| Data.SumSplit | milk/supervised/tree.py:140-144 | the label sums of the two sides add up to the whole sum |
| Data.MeanBinary | milk/supervised/tree.py:135 | the mean of 0/1 labels lies in [0, 1] |
| Data.SumConstant | milk/supervised/tree.py:135 | labels all equal to `c` sum to `c * N` |
| Data.MeanTimesCount | milk/supervised/tree.py:135 | `labels.sum() / N` times `N` is `labels.sum()` |
| Data.MeanConstant | milk/supervised/tree.py:135 | the mean of labels all equal to `c` is `c` |
| Data.MeanAboveHalf | milk/supervised/tree.py:206 | the mean is `> 0.5` iff twice the sum exceeds the count |

## Left out

- `information_gain` and `set_entropy` (lines 80-95) are not part of this
  model. They call a compiled extension and use floating-point logarithms.
  The criterion is an arbitrary function parameter, and every property
  holds for all criteria, except the worked example `SeparableExample`
  (with its helper `SeparableSearch`). It assumes a criterion that scores
  its one partition above -1.
- `normaliselabels` (lines 34 and 189) lives in another file that is not
  part of this model. `Train` takes labels that are already normalised
  integers.
- Randomness (`get_pyrandom`, `R.sample`, lines 57 and 129-130) is the
  `Sampler` parameter. The model assumes each draw is what `random.sample`
  returns: `subsample` distinct indices below `F`. When `subsample > F`,
  `random.sample` raises `ValueError`. This is modelled as the error
  `SampleLargerThanPopulation`, raised when the root reaches `_split`.
- `weights` is not modelled. The source passes it only to the criterion.
  It passes the full, unsubsetted `weights` to every recursive `_split`
  (line 136), while `features` and `labels` are subsets there, so the masks
  would not fit. Leaf values and weights ignore `weights` (lines 135 and
  138). The model follows the code here: a leaf holds the plain mean and
  the sample count, although a weighted mean might be expected.
- An empty input is excluded by `requires |labels| > 0`. For `N = 0` the
  source computes `0/0` (line 135).
- `BuildTree`: requires a rectangular feature matrix, as a 2-D numpy array
  is. A ragged input is not modelled.
- `Trees.ApplyTree` / `Trees.Apply`: require every split feature to index
  the input. The source would raise `IndexError` on a shorter input.
- Floating-point rounding is not modelled: features, thresholds and means
  are exact reals.
- numpy view and copy mechanics and `__repr__` (lines 44-45) are not
  modelled.
- The `-1.` floor of `_split` (line 61) is modelled as written. A criterion
  that scores every partition at or below -1 therefore yields no split
  (`BestSplitIsFirstMaximal`). It yields none just as it does for constant
  columns.

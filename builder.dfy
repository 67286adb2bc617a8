/** `build_tree` and its inner `recursive`: grow a tree greedily by splitting
    the samples with `_split` until a subset is below `min_split` or has no
    split; and `tree_learner.train`, which wraps the tree in a `tree_model`. */
module Builder {
  import opened Data
  import opened Domain
  import opened Trees
  import opened Splitter

  /** The random source behind `R.sample(xrange(F), subsample)`: the columns
      drawn for the node reached by `path` (`true` = left) from the root. */
  type Sampler = seq<bool> -> seq<nat>

  /** What `R.sample(xrange(nfeat), k)` returns: `k` distinct column indices. */
  predicate ValidDraw(cols: seq<nat>, k: int, nfeat: nat) {
    && |cols| == k
    && InRange(cols, nfeat)
    && forall i, j :: 0 <= i < j < |cols| ==> cols[i] != cols[j]
  }

  /** The sampler draws valid columns whenever a subset of `n` samples is
      large enough for `_split` to be called on it. */
  ghost predicate Sampled(subsample: Option<int>, draw: Sampler, nfeat: nat, n: int, minSplit: int) {
    subsample.Some? && n >= minSplit ==> forall p :: ValidDraw(draw(p), subsample.value, nfeat)
  }

  /** The columns `_split` searches at the node reached by `path`. */
  function Drawn(subsample: Option<int>, draw: Sampler, path: seq<bool>): (drawn: Option<seq<nat>>)
    ensures drawn.None? <==> subsample.None?
  {
    if subsample.None? then None else Some(draw(path))
  }

  /** `recursive(features, labels)` at the node reached by `path`: a leaf
      `Leaf(labels.sum() / N, N)` when fewer than `minSplit` samples remain or
      `_split` finds nothing, and otherwise a node on the split found, with
      the samples below its threshold on the left and the rest on the right. */
  function Grow(rows: Matrix, labels: seq<int>, nfeat: nat, crit: Criterion, minSplit: int,
                subsample: Option<int>, draw: Sampler, path: seq<bool>): (t: Tree)
    requires |labels| == |rows| > 0 && Rect(rows, nfeat)
    requires Sampled(subsample, draw, nfeat, |labels|, minSplit)
    ensures Indexes(t, nfeat)
    ensures Weight(t) == |labels| as real
    decreases |labels|
  {
    var n := |labels|;
    if n < minSplit then Leaf(Mean(labels), n as real)
    else
      var drawn := Drawn(subsample, draw, path);
      var s := BestSplit(rows, labels, nfeat, crit, drawn);
      if s.None? then Leaf(Mean(labels), n as real)
      else
        BestSplitSeparates(rows, labels, nfeat, crit, drawn);
        var split := LessMask(rows, s.value.featid, s.value.featval);
        CountFlip(split);
        Node(s.value.featid, s.value.featval,
             Grow(Keep(rows, split), Keep(labels, split), nfeat, crit, minSplit,
                  subsample, draw, path + [true]),
             Grow(Keep(rows, Flip(split)), Keep(labels, Flip(split)), nfeat, crit, minSplit,
                  subsample, draw, path + [false]))
  }

  /** Why `build_tree` refuses its input. */
  datatype BuildError =
    | LabelCountMismatch          // the number of labels differs from the number of samples
    | NonPositiveSubsample        // `subsample <= 0`
    | SampleLargerThanPopulation  // `R.sample` asked for more columns than there are

  /** The number of feature columns. */
  function Width(m: Matrix): nat {
    if m == [] then 0 else |m[0]|
  }

  const DefaultMinSplit: int := 4

  /** `build_tree(features, labels, criterion, min_split, subsample, R)`. */
  function BuildTree(features: Matrix, labels: seq<int>, crit: Criterion, minSplit: int,
                     subsample: Option<int>, draw: Sampler): (r: Result<Tree, BuildError>)
    requires |labels| > 0
    requires Rect(features, Width(features))
    requires subsample.Some? && 0 < subsample.value <= Width(features) ==>
               forall p :: ValidDraw(draw(p), subsample.value, Width(features))
    ensures r == Err(LabelCountMismatch) <==> |features| != |labels|
    ensures r == Err(NonPositiveSubsample) <==>
              |features| == |labels| && subsample.Some? && subsample.value <= 0
    ensures r == Err(SampleLargerThanPopulation) <==>
              && |features| == |labels| && subsample.Some? && subsample.value > 0
              && |labels| >= minSplit && subsample.value > Width(features)
    ensures r.Ok? ==> Indexes(r.value, Width(features)) && Weight(r.value) == |labels| as real
    ensures r.Ok? && |labels| < minSplit ==> r.value == Leaf(Mean(labels), |labels| as real)
  {
    var nfeat := Width(features);
    if |features| != |labels| then Err(LabelCountMismatch)
    else if subsample.Some? && subsample.value <= 0 then Err(NonPositiveSubsample)
    else if subsample.Some? && |labels| >= minSplit && subsample.value > nfeat then
      Err(SampleLargerThanPopulation)
    else Ok(Grow(features, labels, nfeat, crit, minSplit, subsample, draw, []))
  }

  /** `tree_learner(criterion, min_split, return_label, subsample, R)`. */
  datatype Learner = Learner(criterion: Criterion, minSplit: int, returnLabel: bool,
                             subsample: Option<int>)

  /** A learner with the defaults `min_split=4`, `return_label=True` and no
      subsample. */
  function DefaultLearner(crit: Criterion): (l: Learner)
    ensures l.minSplit == 4 && l.returnLabel && l.subsample.None? && l.criterion == crit
  {
    Learner(crit, DefaultMinSplit, true, None)
  }

  /** `tree_learner.train(features, labels)` on already normalised labels:
      the tree `build_tree` grows, in a `tree_model` with the learner's
      `return_label`. */
  function Train(l: Learner, features: Matrix, labels: seq<int>, draw: Sampler): (r: Result<TreeModel, BuildError>)
    requires |labels| > 0
    requires Rect(features, Width(features))
    requires l.subsample.Some? && 0 < l.subsample.value <= Width(features) ==>
               forall p :: ValidDraw(draw(p), l.subsample.value, Width(features))
    ensures var b := BuildTree(features, labels, l.criterion, l.minSplit, l.subsample, draw);
            && (r.Err? <==> b.Err?)
            && (r.Err? ==> r.error == b.error)
            && (r.Ok? ==> r.value == TreeModel(b.value, l.returnLabel))
  {
    match BuildTree(features, labels, l.criterion, l.minSplit, l.subsample, draw)
    case Err(e) => Err(e)
    case Ok(t) => Ok(TreeModel(t, l.returnLabel))
  }

  // ---------------------------------------------------------------------
  // What the grown tree holds

  /** A node is made exactly when the subset is large enough and `_split`
      finds a split there, and it is that split. */
  lemma GrowNode(rows: Matrix, labels: seq<int>, nfeat: nat, crit: Criterion, minSplit: int,
                 subsample: Option<int>, draw: Sampler, path: seq<bool>)
    requires |labels| == |rows| > 0 && Rect(rows, nfeat)
    requires Sampled(subsample, draw, nfeat, |labels|, minSplit)
    ensures var t := Grow(rows, labels, nfeat, crit, minSplit, subsample, draw, path);
            && (t.Node? <==>
                  (|labels| >= minSplit &&
                   BestSplit(rows, labels, nfeat, crit, Drawn(subsample, draw, path)).Some?))
            && (t.Node? ==>
                  BestSplit(rows, labels, nfeat, crit, Drawn(subsample, draw, path))
                  == Some(Split(t.featid, t.featval)))
            && (t.Leaf? ==> t == Leaf(Mean(labels), |labels| as real))
  {
  }

  /** A node's subtrees are grown from the samples below its threshold
      (`split`) and from the rest, both non-empty. */
  lemma GrowChildren(rows: Matrix, labels: seq<int>, nfeat: nat, crit: Criterion, minSplit: int,
                     subsample: Option<int>, draw: Sampler, path: seq<bool>)
    returns (split: seq<bool>)
    requires |labels| == |rows| > 0 && Rect(rows, nfeat)
    requires Sampled(subsample, draw, nfeat, |labels|, minSplit)
    requires Grow(rows, labels, nfeat, crit, minSplit, subsample, draw, path).Node?
    ensures var t := Grow(rows, labels, nfeat, crit, minSplit, subsample, draw, path);
            && t.featid < nfeat
            && split == LessMask(rows, t.featid, t.featval)
            && 0 < Count(split) < |rows| && 0 < Count(Flip(split)) < |rows|
            && Rect(Keep(rows, split), nfeat) && Rect(Keep(rows, Flip(split)), nfeat)
            && Sampled(subsample, draw, nfeat, Count(split), minSplit)
            && Sampled(subsample, draw, nfeat, Count(Flip(split)), minSplit)
            && t.left == Grow(Keep(rows, split), Keep(labels, split), nfeat, crit, minSplit,
                              subsample, draw, path + [true])
            && t.right == Grow(Keep(rows, Flip(split)), Keep(labels, Flip(split)), nfeat, crit,
                               minSplit, subsample, draw, path + [false])
  {
    var t := Grow(rows, labels, nfeat, crit, minSplit, subsample, draw, path);
    var drawn := Drawn(subsample, draw, path);
    BestSplitSeparates(rows, labels, nfeat, crit, drawn);
    split := LessMask(rows, t.featid, t.featval);
    CountFlip(split);
  }

  /** The leaves carry the label total: the sum over the leaves of value
      times weight is `labels.sum()`. */
  lemma {:induction false} GrowMass(rows: Matrix, labels: seq<int>, nfeat: nat, crit: Criterion,
                                    minSplit: int, subsample: Option<int>, draw: Sampler,
                                    path: seq<bool>)
    requires |labels| == |rows| > 0 && Rect(rows, nfeat)
    requires Sampled(subsample, draw, nfeat, |labels|, minSplit)
    ensures Mass(Grow(rows, labels, nfeat, crit, minSplit, subsample, draw, path)) == Sum(labels) as real
    decreases |labels|
  {
    var t := Grow(rows, labels, nfeat, crit, minSplit, subsample, draw, path);
    GrowNode(rows, labels, nfeat, crit, minSplit, subsample, draw, path);
    if t.Leaf? {
      LeafMass(labels);
    } else {
      var split := GrowChildren(rows, labels, nfeat, crit, minSplit, subsample, draw, path);
      GrowMass(Keep(rows, split), Keep(labels, split), nfeat, crit, minSplit,
               subsample, draw, path + [true]);
      GrowMass(Keep(rows, Flip(split)), Keep(labels, Flip(split)), nfeat, crit, minSplit,
               subsample, draw, path + [false]);
      assert Mass(t) == Mass(t.left) + Mass(t.right);
      SumSplit(labels, split);
    }
  }

  /** A leaf built from `labels` carries their total. */
  lemma LeafMass(labels: seq<int>)
    requires |labels| > 0
    ensures Mass(Leaf(Mean(labels), |labels| as real)) == Sum(labels) as real
  {
    MeanTimesCount(labels);
  }

  /** Every leaf was built from at least one sample. */
  lemma {:induction false} GrowLeavesOccupied(rows: Matrix, labels: seq<int>, nfeat: nat,
                                              crit: Criterion, minSplit: int,
                                              subsample: Option<int>, draw: Sampler,
                                              path: seq<bool>)
    requires |labels| == |rows| > 0 && Rect(rows, nfeat)
    requires Sampled(subsample, draw, nfeat, |labels|, minSplit)
    ensures forall u :: u in Leaves(Grow(rows, labels, nfeat, crit, minSplit, subsample, draw, path)) ==>
              u.w >= 1.0
    decreases |labels|
  {
    var t := Grow(rows, labels, nfeat, crit, minSplit, subsample, draw, path);
    if t.Node? {
      var split := GrowChildren(rows, labels, nfeat, crit, minSplit, subsample, draw, path);
      GrowLeavesOccupied(Keep(rows, split), Keep(labels, split), nfeat, crit, minSplit,
                         subsample, draw, path + [true]);
      GrowLeavesOccupied(Keep(rows, Flip(split)), Keep(labels, Flip(split)), nfeat, crit, minSplit,
                         subsample, draw, path + [false]);
    }
  }

  /** With 0/1 labels every leaf value is a proportion in [0, 1]. */
  lemma {:induction false} GrowBinary(rows: Matrix, labels: seq<int>, nfeat: nat, crit: Criterion,
                                      minSplit: int, subsample: Option<int>, draw: Sampler,
                                      path: seq<bool>)
    requires |labels| == |rows| > 0 && Rect(rows, nfeat)
    requires Sampled(subsample, draw, nfeat, |labels|, minSplit)
    requires Binary(labels)
    ensures forall u :: u in Leaves(Grow(rows, labels, nfeat, crit, minSplit, subsample, draw, path)) ==>
              0.0 <= u.v <= 1.0
    decreases |labels|
  {
    var t := Grow(rows, labels, nfeat, crit, minSplit, subsample, draw, path);
    if t.Leaf? {
      MeanBinary(labels);
    } else {
      var split := GrowChildren(rows, labels, nfeat, crit, minSplit, subsample, draw, path);
      GrowBinary(Keep(rows, split), Keep(labels, split), nfeat, crit, minSplit,
                 subsample, draw, path + [true]);
      GrowBinary(Keep(rows, Flip(split)), Keep(labels, Flip(split)), nfeat, crit, minSplit,
                 subsample, draw, path + [false]);
    }
  }

  /** Samples that all carry label `c` give a tree whose every leaf value is `c`. */
  lemma {:induction false} GrowPure(rows: Matrix, labels: seq<int>, nfeat: nat, crit: Criterion,
                                    minSplit: int, subsample: Option<int>, draw: Sampler,
                                    path: seq<bool>, c: int)
    requires |labels| == |rows| > 0 && Rect(rows, nfeat)
    requires Sampled(subsample, draw, nfeat, |labels|, minSplit)
    requires forall y :: y in labels ==> y == c
    ensures forall u :: u in Leaves(Grow(rows, labels, nfeat, crit, minSplit, subsample, draw, path)) ==>
              u.v == c as real
    decreases |labels|
  {
    var t := Grow(rows, labels, nfeat, crit, minSplit, subsample, draw, path);
    if t.Leaf? {
      MeanConstant(labels, c);
    } else {
      var split := GrowChildren(rows, labels, nfeat, crit, minSplit, subsample, draw, path);
      GrowPure(Keep(rows, split), Keep(labels, split), nfeat, crit, minSplit,
               subsample, draw, path + [true], c);
      GrowPure(Keep(rows, Flip(split)), Keep(labels, Flip(split)), nfeat, crit, minSplit,
               subsample, draw, path + [false], c);
    }
  }

  /** Without a subsample the random source is never consulted: the tree does
      not depend on it. */
  lemma {:induction false} GrowIgnoresSampler(rows: Matrix, labels: seq<int>, nfeat: nat,
                                              crit: Criterion, minSplit: int,
                                              draw1: Sampler, path1: seq<bool>,
                                              draw2: Sampler, path2: seq<bool>)
    requires |labels| == |rows| > 0 && Rect(rows, nfeat)
    ensures Grow(rows, labels, nfeat, crit, minSplit, None, draw1, path1)
         == Grow(rows, labels, nfeat, crit, minSplit, None, draw2, path2)
    decreases |labels|
  {
    var t := Grow(rows, labels, nfeat, crit, minSplit, None, draw1, path1);
    GrowNode(rows, labels, nfeat, crit, minSplit, None, draw1, path1);
    GrowNode(rows, labels, nfeat, crit, minSplit, None, draw2, path2);
    if t.Node? {
      var split := GrowChildren(rows, labels, nfeat, crit, minSplit, None, draw1, path1);
      var split2 := GrowChildren(rows, labels, nfeat, crit, minSplit, None, draw2, path2);
      assert split2 == split;
      GrowIgnoresSampler(Keep(rows, split), Keep(labels, split), nfeat, crit, minSplit,
                         draw1, path1 + [true], draw2, path2 + [true]);
      GrowIgnoresSampler(Keep(rows, Flip(split)), Keep(labels, Flip(split)), nfeat, crit, minSplit,
                         draw1, path1 + [false], draw2, path2 + [false]);
    }
  }

  // ---------------------------------------------------------------------
  // Where a sample lands

  /** Which training rows share the walk of `x` through `t`. */
  function SameRoute(t: Tree, rows: Matrix, x: Row): (m: seq<bool>)
    requires Indexes(t, |x|)
    requires Rect(rows, |x|)
    ensures |m| == |rows|
  {
    seq(|rows|, j requires 0 <= j < |rows| => Route(t, rows[j]) == Route(t, x))
  }

  /** At a split node, the rows sharing the walk of `x` are those on the side
      `x` takes that share its walk through that side's subtree. */
  lemma ChildCell(t: Tree, rows: Matrix, labels: seq<int>, side: seq<bool>, x: Row, child: Tree)
    requires t.Node? && Indexes(t, |x|) && Rect(rows, |x|) && |labels| == |rows|
    requires |side| == |rows|
    requires forall j :: 0 <= j < |rows| ==>
               side[j] == ((rows[j][t.featid] < t.featval) == (x[t.featid] < t.featval))
    requires child == if x[t.featid] < t.featval then t.left else t.right
    ensures Keep(labels, SameRoute(t, rows, x))
            == Keep(Keep(labels, side), SameRoute(child, Keep(rows, side), x))
  {
    var p: Row -> bool := y => Indexes(child, |y|) && Route(child, y) == Route(child, x);
    var whole := seq(|rows|, j requires 0 <= j < |rows| => p(rows[j]));
    var sub := Keep(rows, side);
    var part := SameRoute(child, sub, x);
    forall j | 0 <= j < |part|
      ensures part[j] == p(sub[j])
    {
      assert sub[j] in rows;
    }
    KeepRowwise(rows, side, p, whole, part);
    KeepKeep(labels, side, whole);
    forall j | 0 <= j < |rows|
      ensures SameRoute(t, rows, x)[j] == And(side, whole)[j]
    {
      assert rows[j] in rows;
      RouteStep(t, rows[j], x);
    }
    assert SameRoute(t, rows, x) == And(side, whole);
    assert Keep(labels, SameRoute(t, rows, x)) == Keep(labels, And(side, whole));
  }

  /** The leaf reached by `x` (of the training width) was built from exactly
      the training samples whose walk through the tree is the walk of `x`:
      there is at least one, its value is their mean label and its weight is
      their number. */
  lemma {:induction false} GrowCell(rows: Matrix, labels: seq<int>, nfeat: nat, crit: Criterion,
                                    minSplit: int, subsample: Option<int>, draw: Sampler,
                                    path: seq<bool>, x: Row)
    requires |labels| == |rows| > 0 && Rect(rows, nfeat)
    requires Sampled(subsample, draw, nfeat, |labels|, minSplit)
    requires |x| == nfeat
    ensures var t := Grow(rows, labels, nfeat, crit, minSplit, subsample, draw, path);
            var cell := Keep(labels, SameRoute(t, rows, x));
            |cell| > 0 && Descend(t, x) == Leaf(Mean(cell), |cell| as real)
    decreases |labels|
  {
    var t := Grow(rows, labels, nfeat, crit, minSplit, subsample, draw, path);
    GrowNode(rows, labels, nfeat, crit, minSplit, subsample, draw, path);
    if t.Leaf? {
      KeepAll(labels, SameRoute(t, rows, x));
    } else {
      var split := GrowChildren(rows, labels, nfeat, crit, minSplit, subsample, draw, path);
      var goLeft := x[t.featid] < t.featval;
      var side := if goLeft then split else Flip(split);
      var child := if goLeft then t.left else t.right;
      ChildCell(t, rows, labels, side, x, child);
      GrowCell(Keep(rows, side), Keep(labels, side), nfeat, crit, minSplit,
               subsample, draw, path + [goLeft], x);
    }
  }

  /** A training sample shares its own walk, so it is one of the samples the
      leaf it reaches was built from; that leaf is their mean and count. */
  lemma TrainingRowLands(rows: Matrix, labels: seq<int>, nfeat: nat, crit: Criterion,
                         minSplit: int, subsample: Option<int>, draw: Sampler, j: int)
    requires |labels| == |rows| > 0 && Rect(rows, nfeat)
    requires Sampled(subsample, draw, nfeat, |labels|, minSplit)
    requires 0 <= j < |rows|
    ensures var t := Grow(rows, labels, nfeat, crit, minSplit, subsample, draw, []);
            var cell := Keep(labels, SameRoute(t, rows, rows[j]));
            && SameRoute(t, rows, rows[j])[j]
            && labels[j] in cell
            && Descend(t, rows[j]) == Leaf(Mean(cell), |cell| as real)
            && ApplyTree(t, rows[j]) == Mean(cell)
  {
    assert rows[j] in rows;
    var t := Grow(rows, labels, nfeat, crit, minSplit, subsample, draw, []);
    GrowCell(rows, labels, nfeat, crit, minSplit, subsample, draw, [], rows[j]);
    KeepMember(labels, SameRoute(t, rows, rows[j]), j);
  }

  /** A trained model with `return_label` answers `true` exactly when the
      training samples sharing the input's walk sum to more than half their
      number (for 0/1 labels: a strict majority of 1s); without it, it
      answers their mean label. */
  lemma TrainedApply(l: Learner, features: Matrix, labels: seq<int>, draw: Sampler, x: Row)
    requires |labels| > 0
    requires Rect(features, Width(features))
    requires l.subsample.Some? && 0 < l.subsample.value <= Width(features) ==>
               forall p :: ValidDraw(draw(p), l.subsample.value, Width(features))
    requires |x| == Width(features)
    ensures var r := Train(l, features, labels, draw);
            r.Ok? ==>
              var cell := Keep(labels, SameRoute(r.value.tree, features, x));
              |cell| > 0 &&
              Apply(r.value, x) == if l.returnLabel then Label(2 * Sum(cell) > |cell|) else Value(Mean(cell))
  {
    var r := Train(l, features, labels, draw);
    if r.Ok? {
      var nfeat := Width(features);
      GrowCell(features, labels, nfeat, l.criterion, l.minSplit, l.subsample, draw, [], x);
      var cell := Keep(labels, SameRoute(r.value.tree, features, x));
      MeanAboveHalf(cell);
    }
  }

  /** Three samples labelled 0, 0, 1 are fewer than the default `min_split`
      of 4, so the tree is the single leaf of value 1/3 and weight 3. */
  lemma SmallInputLeaf(crit: Criterion, draw: Sampler)
    ensures BuildTree([[0.0], [1.0], [2.0]], [0, 0, 1], crit, DefaultMinSplit, None, draw)
            == Ok(Leaf(1.0 / 3.0, 3.0))
  {
    var labels := [0, 0, 1];
    assert Sum(labels) == 1 by {
      assert labels[1..] == [0, 1];
      assert labels[1..][1..] == [1];
      assert labels[1..][1..][1..] == [];
    }
  }

  /** One feature separating labels 0, 0 from 1, 1, with `min_split` 2 and a
      criterion that scores that partition above -1: a single split at
      threshold 1 on feature 0, with the pure leaves 0 and 1 below it. */
  lemma SeparableExample(crit: Criterion, draw: Sampler)
    requires crit([0, 0], [1, 1]) > -1.0
    ensures BuildTree([[0.0], [0.0], [1.0], [1.0]], [0, 0, 1, 1], crit, 2, None, draw)
            == Ok(Node(0, 1.0, Leaf(0.0, 2.0), Leaf(1.0, 2.0)))
  {
    var rows: Matrix := [[0.0], [0.0], [1.0], [1.0]];
    var labels := [0, 0, 1, 1];
    SeparableSearch(crit);
    GrowNode(rows, labels, 1, crit, 2, None, draw, []);
    var split := GrowChildren(rows, labels, 1, crit, 2, None, draw, []);
    SeparableHalves();
    TwinLeaf(0.0, 0, crit, draw, [true]);
    TwinLeaf(1.0, 1, crit, draw, [false]);
  }

  /** Two equal samples with equal labels `c` are not split: they make the
      leaf `c` of weight 2. */
  lemma TwinLeaf(x: real, c: int, crit: Criterion, draw: Sampler, path: seq<bool>)
    ensures Grow([[x], [x]], [c, c], 1, crit, 2, None, draw, path) == Leaf(c as real, 2.0)
  {
    ConstantColumnsNoSplit([[x], [x]], [c, c], 1, crit, None);
    GrowNode([[x], [x]], [c, c], 1, crit, 2, None, draw, path);
    SumConstant([c, c], c);
  }

  /** In the separable example `_split` finds threshold 1 on feature 0. */
  lemma SeparableSearch(crit: Criterion)
    requires crit([0, 0], [1, 1]) > -1.0
    ensures BestSplit([[0.0], [0.0], [1.0], [1.0]], [0, 0, 1, 1], 1, crit, None) == Some(Split(0, 1.0))
  {
    var rows: Matrix := [[0.0], [0.0], [1.0], [1.0]];
    var labels := [0, 0, 1, 1];
    var s := Split(0, 1.0);
    SeparableDomain();
    assert SearchColumns(1, None) == [0];
    assert Thresholds(0, [1.0]) == [s];
    assert Candidates(rows, 1, [0]) == [s] + [];
    SeparableHalves();
    assert Score(rows, labels, 1, crit, s) == crit([0, 0], [1, 1]);
    SearchCons(rows, labels, 1, crit, s, [], None, -1.0);
  }

  /** The feature column of the separable example has the values 0 and 1. */
  lemma SeparableDomain()
    ensures SortedSet(Column([[0.0], [0.0], [1.0], [1.0]], 0)) == [0.0, 1.0]
  {
    assert Column([[0.0], [0.0], [1.0], [1.0]], 0) == [0.0, 0.0, 1.0, 1.0];
    assert SortedSet([1.0]) == [1.0];
    assert SortedSet([1.0, 1.0]) == [1.0];
    assert SortedSet([0.0, 1.0, 1.0]) == [0.0, 1.0];
  }

  /** The split at 1 sends the first two samples left and the others right. */
  lemma SeparableHalves()
    ensures var rows: Matrix := [[0.0], [0.0], [1.0], [1.0]];
            var split := LessMask(rows, 0, 1.0);
            && Keep([0, 0, 1, 1], split) == [0, 0] && Keep([0, 0, 1, 1], Flip(split)) == [1, 1]
            && Keep(rows, split) == [[0.0], [0.0]] && Keep(rows, Flip(split)) == [[1.0], [1.0]]
  {
    var rows: Matrix := [[0.0], [0.0], [1.0], [1.0]];
    var labels := [0, 0, 1, 1];
    var split := LessMask(rows, 0, 1.0);
    SeparableMask();
    KeepPrefix(labels, split, 2);
    KeepSuffix(labels, Flip(split), 2);
    KeepPrefix(rows, split, 2);
    KeepSuffix(rows, Flip(split), 2);
    assert labels[..2] == [0, 0] && labels[2..] == [1, 1];
    assert rows[..2] == [[0.0], [0.0]] && rows[2..] == [[1.0], [1.0]];
  }

  /** The split at 1 selects exactly the first two of the four samples. */
  lemma SeparableMask()
    ensures var split := LessMask([[0.0], [0.0], [1.0], [1.0]], 0, 1.0);
            && (forall j :: 0 <= j < |split| ==> split[j] == (j < 2))
            && (forall j :: 0 <= j < |split| ==> Flip(split)[j] == (j >= 2))
  {
  }
}

/** The decision tree (leaves and split nodes), the walk `apply_tree` makes
    from the root to a leaf, and the trained model `tree_model` that
    optionally turns the leaf value into a boolean label. */
module Trees {
  import opened Data

  /** `Leaf(v, w)`: value `v` (mean label of the samples that built it)
      and weight `w` (their number). `Node`: samples go `left` when
      `features[featid] < featval` and `right` otherwise. */
  datatype Tree =
    | Leaf(v: real, w: real)
    | Node(featid: nat, featval: real, left: Tree, right: Tree)

  /** Every split of `t` reads a feature index below `nfeat`. */
  predicate Indexes(t: Tree, nfeat: nat) {
    match t
    case Leaf(_, _) => true
    case Node(f, _, l, r) => f < nfeat && Indexes(l, nfeat) && Indexes(r, nfeat)
  }

  /** The leaves of `t`, left to right. */
  function Leaves(t: Tree): (s: seq<Tree>)
    ensures forall u :: u in s ==> u.Leaf?
  {
    match t
    case Leaf(_, _) => [t]
    case Node(_, _, l, r) => Leaves(l) + Leaves(r)
  }

  /** Sum of the leaf weights: the number of samples the tree was built from. */
  function Weight(t: Tree): real {
    match t
    case Leaf(_, w) => w
    case Node(_, _, l, r) => Weight(l) + Weight(r)
  }

  /** Sum of value times weight over the leaves: the label total the tree was
      built from. */
  function Mass(t: Tree): real {
    match t
    case Leaf(v, w) => v * w
    case Node(_, _, l, r) => Mass(l) + Mass(r)
  }

  /** The leaf `apply_tree` stops at: left exactly when
      `x[featid] < featval`, right otherwise. */
  function Descend(t: Tree, x: Row): (leaf: Tree)
    requires Indexes(t, |x|)
    ensures leaf.Leaf? && leaf in Leaves(t)
  {
    match t
    case Leaf(_, _) => t
    case Node(f, d, l, r) => if x[f] < d then Descend(l, x) else Descend(r, x)
  }

  /** The branches of that walk, `true` for left. */
  function Route(t: Tree, x: Row): seq<bool>
    requires Indexes(t, |x|)
  {
    match t
    case Leaf(_, _) => []
    case Node(f, d, l, r) =>
      if x[f] < d then [true] + Route(l, x) else [false] + Route(r, x)
  }

  /** The walk decides the leaf: inputs with the same branches reach the same
      leaf, hence the same value. */
  lemma {:induction false} RouteDescend(t: Tree, x: Row, y: Row)
    requires Indexes(t, |x|) && Indexes(t, |y|)
    requires Route(t, x) == Route(t, y)
    ensures Descend(t, x) == Descend(t, y)
  {
    if t.Node? {
      RouteStep(t, y, x);
      var child := if x[t.featid] < t.featval then t.left else t.right;
      RouteDescend(child, x, y);
    }
  }

  /** `apply_tree(tree, features)`: the value of the leaf reached. */
  function ApplyTree(t: Tree, x: Row): (value: real)
    requires Indexes(t, |x|)
    ensures exists w :: Leaf(value, w) in Leaves(t)
  {
    Descend(t, x).v
  }

  /** Two inputs share a route through a split node exactly when they take
      the same branch there and then share the route through that branch. */
  lemma RouteStep(t: Tree, y: Row, x: Row)
    requires t.Node? && Indexes(t, |y|) && Indexes(t, |x|)
    ensures Route(t, y) == Route(t, x) <==>
              (y[t.featid] < t.featval) == (x[t.featid] < t.featval) &&
              var child := if x[t.featid] < t.featval then t.left else t.right;
              Route(child, y) == Route(child, x)
  {
    var ry, rx := Route(t, y), Route(t, x);
    if ry == rx {
      assert ry[0] == rx[0];
      assert ry[1..] == rx[1..];
    }
  }

  /** `tree_model`: a tree and whether `apply` returns a boolean label. */
  datatype TreeModel = TreeModel(tree: Tree, returnLabel: bool)

  /** What `tree_model.apply` returns: a label, or the raw leaf value. */
  datatype Prediction = Label(positive: bool) | Value(value: real)

  /** `tree_model.apply(feats)`: the leaf value, or `value > .5` when the
      model returns labels (so exactly 0.5 gives `false`). */
  function Apply(m: TreeModel, x: Row): (p: Prediction)
    requires Indexes(m.tree, |x|)
    ensures p.Label? <==> m.returnLabel
    ensures p.Label? ==> (p.positive <==> ApplyTree(m.tree, x) > 0.5)
    ensures p.Value? ==> p.value == ApplyTree(m.tree, x)
  {
    var value := ApplyTree(m.tree, x);
    if m.returnLabel then Label(value > 0.5) else Value(value)
  }
}

/**
  The tree skeleton of a model tree: the node record and the single-feature threshold split
  that maps samples to a node's two children.
*/
module Nodes {
  import opened Wrappers
  import opened Masks

  /** A 2-d feature array: `rows` samples of `cols` integer features each. */
  datatype Matrix = Matrix(cols: nat, rows: seq<seq<int>>) {
    /** Every sample has exactly `cols` features, as in a 2-d numpy array. */
    predicate Valid() {
      forall i :: 0 <= i < |rows| ==> |rows[i]| == cols
    }
  }

  /** Samples whose value in column `feature` is at most `threshold` go to child 0, all others to child 1. */
  datatype Split = Split(feature: int, threshold: int)

  /** The two ways indexing raises `IndexError` while a split is applied. */
  datatype SplitError =
    | FeatureOutOfRange(feature: int, cols: nat)
    | MaskLengthMismatch(maskLength: nat, targetLength: nat)

  /** One child's samples together with their targets. */
  datatype Part<T> = Part(X: Matrix, y: seq<T>)

  /** The list `_apply_split` returns: one feature matrix per child, or one (features, targets) pair per child. */
  datatype Subsets<T> =
    | Plain(matrices: seq<Matrix>)
    | Paired(parts: seq<Part<T>>)
  {
    function Size(): nat {
      if Plain? then |matrices| else |parts|
    }

    /** The feature matrix of child `i`, whichever form the subsets take. */
    function FeaturesOf(i: nat): Matrix
      requires i < Size()
    {
      if Plain? then matrices[i] else parts[i].X
    }
  }

  /**
    numpy's resolution of the column index in `X[:, feature]`: an index in `[-cols, cols)` names one
    column, counting from the end when negative; any other index raises `IndexError`.
  */
  function ColumnIndex(feature: int, cols: nat): (k: Option<nat>)
    ensures k.Some? <==> -(cols as int) <= feature < cols
    ensures k.Some? ==> k.value < cols && (k.value - feature) % cols == 0
  {
    if 0 <= feature < cols then Some(feature)
    else if -(cols as int) <= feature < 0 then Some(feature + cols)
    else None
  }

  /** `X[:, k] <= threshold`: the samples that go to child 0. */
  function LeftMask(s: Split, X: Matrix, k: nat): (m: seq<bool>)
    requires X.Valid() && k < X.cols
  {
    seq(|X.rows|, i requires 0 <= i < |X.rows| => X.rows[i][k] <= s.threshold)
  }

  /**
    `Split._apply_split(X, y)`: partitions the samples of `X`, and the targets `y` when given,
    into child 0 (value in the split column at most the threshold) and child 1 (all others).
  */
  function ApplySplit<T>(s: Split, X: Matrix, y: Option<seq<T>>): (r: Result<Subsets<T>, SplitError>)
    requires X.Valid()
    ensures r.Success? <==> ColumnIndex(s.feature, X.cols).Some? && (y.Some? ==> |y.value| == |X.rows|)
    ensures ColumnIndex(s.feature, X.cols).None? ==> r == Failure(FeatureOutOfRange(s.feature, X.cols))
    ensures ColumnIndex(s.feature, X.cols).Some? && y.Some? && |y.value| != |X.rows| ==>
      r == Failure(MaskLengthMismatch(|X.rows|, |y.value|))
    ensures r.Success? ==> r.value.Size() == 2 && (r.value.Plain? <==> y.None?)
  {
    match ColumnIndex(s.feature, X.cols)
    case None => Failure(FeatureOutOfRange(s.feature, X.cols))
    case Some(k) =>
      var m := LeftMask(s, X, k);
      var left := Matrix(X.cols, Select(X.rows, m));
      var right := Matrix(X.cols, Select(X.rows, Negate(m)));
      match y
      case None => Success(Plain([left, right]))
      case Some(ys) =>
        if |ys| != |m| then Failure(MaskLengthMismatch(|m|, |ys|))
        else Success(Paired([Part(left, Select(ys, m)), Part(right, Select(ys, Negate(m)))]))
  }

  /** Child 0 holds only samples at most the threshold in the split column, child 1 only samples above it. */
  lemma SplitSides<T>(s: Split, X: Matrix, y: Option<seq<T>>, k: nat)
    requires X.Valid() && ColumnIndex(s.feature, X.cols) == Some(k)
    requires y.Some? ==> |y.value| == |X.rows|
    ensures var sub := ApplySplit(s, X, y).value;
      var left, right := sub.FeaturesOf(0), sub.FeaturesOf(1);
      && left.Valid() && left.cols == X.cols
      && right.Valid() && right.cols == X.cols
      && (forall j :: 0 <= j < |left.rows| ==> left.rows[j][k] <= s.threshold)
      && (forall j :: 0 <= j < |right.rows| ==> right.rows[j][k] > s.threshold)
  {
    var m := LeftMask(s, X, k);
    SelectAt(X.rows, m);
    SelectAt(X.rows, Negate(m));
  }

  /**
    Each child keeps its samples in their original relative order: its j-th row is the row of `X`
    at the j-th position the mask (or its complement) selects.
  */
  lemma SplitStable<T>(s: Split, X: Matrix, y: Option<seq<T>>, k: nat)
    requires X.Valid() && ColumnIndex(s.feature, X.cols) == Some(k)
    requires y.Some? ==> |y.value| == |X.rows|
    ensures var sub := ApplySplit(s, X, y).value;
      var m := LeftMask(s, X, k);
      var li, ri := TrueIndices(m), TrueIndices(Negate(m));
      && |sub.FeaturesOf(0).rows| == |li|
      && |sub.FeaturesOf(1).rows| == |ri|
      && (forall j :: 0 <= j < |li| ==> sub.FeaturesOf(0).rows[j] == X.rows[li[j]])
      && (forall j :: 0 <= j < |ri| ==> sub.FeaturesOf(1).rows[j] == X.rows[ri[j]])
  {
    var m := LeftMask(s, X, k);
    SelectAt(X.rows, m);
    SelectAt(X.rows, Negate(m));
  }

  /**
    The split is complete and disjoint: the two children hold the samples of `X` with multiplicity,
    interleaving them by the mask gives `X` back, and each index is selected by exactly one of the
    mask and its negation.
  */
  lemma SplitPartition<T>(s: Split, X: Matrix, y: Option<seq<T>>, k: nat)
    requires X.Valid() && ColumnIndex(s.feature, X.cols) == Some(k)
    requires y.Some? ==> |y.value| == |X.rows|
    ensures var sub := ApplySplit(s, X, y).value;
      var m := LeftMask(s, X, k);
      var left, right := sub.FeaturesOf(0).rows, sub.FeaturesOf(1).rows;
      && |left| + |right| == |X.rows|
      && multiset(left) + multiset(right) == multiset(X.rows)
      && |left| == CountTrue(m) && |right| == |m| - CountTrue(m)
      && Merge(m, left, right) == X.rows
      && (forall i :: 0 <= i < |X.rows| ==> (i in TrueIndices(m) <==> i !in TrueIndices(Negate(m))))
  {
    var m := LeftMask(s, X, k);
    SelectPartition(X.rows, m);
    MergeSelect(X.rows, m);
    IndicesPartition(m);
  }

  /**
    With targets, both children's features and targets are filtered by the same mask: each child has
    as many targets as samples, and its j-th row and j-th target come from the same index of the input.
  */
  lemma SplitAligned<T>(s: Split, X: Matrix, ys: seq<T>, k: nat)
    requires X.Valid() && ColumnIndex(s.feature, X.cols) == Some(k) && |ys| == |X.rows|
    ensures var r := ApplySplit(s, X, Some(ys));
      var m := LeftMask(s, X, k);
      var li, ri := TrueIndices(m), TrueIndices(Negate(m));
      && r.Success? && r.value.Paired?
      && |r.value.parts[0].X.rows| == |r.value.parts[0].y| == |li|
      && |r.value.parts[1].X.rows| == |r.value.parts[1].y| == |ri|
      && (forall j :: 0 <= j < |li| ==>
            r.value.parts[0].X.rows[j] == X.rows[li[j]] && r.value.parts[0].y[j] == ys[li[j]])
      && (forall j :: 0 <= j < |ri| ==>
            r.value.parts[1].X.rows[j] == X.rows[ri[j]] && r.value.parts[1].y[j] == ys[ri[j]])
  {
    var m := LeftMask(s, X, k);
    SelectAt(X.rows, m);
    SelectAt(X.rows, Negate(m));
    SelectAt(ys, m);
    SelectAt(ys, Negate(m));
  }

  /**
    Targets do not influence the split: with targets the call fails exactly when it fails without them
    or the target count differs from the sample count, and otherwise yields the same feature matrices.
  */
  lemma TargetsDoNotAffectSplit<T>(s: Split, X: Matrix, ys: seq<T>)
    requires X.Valid()
    ensures var plain, paired := ApplySplit<T>(s, X, None), ApplySplit(s, X, Some(ys));
      && (paired.Success? <==> plain.Success? && |ys| == |X.rows|)
      && (paired.Success? ==> forall i :: 0 <= i < 2 ==> paired.value.FeaturesOf(i) == plain.value.FeaturesOf(i))
  {
  }

  /**
    A node of the tree: its zero-based depth, its estimator (absent by default), its children
    and its split (absent by default). The defaults are those of the constructor.
  */
  datatype TreeNode<E> = TreeNode(
    depth: int := 0,
    estimator: Option<E> := None,
    children: Children<E> := NoChildren,
    split: Option<Split> := None)

  /** The `children` attribute: `None`, or a list of child nodes. */
  datatype Children<E> = NoChildren | ChildList(nodes: seq<TreeNode<E>>)

  /** A node without children, whose estimator makes the predictions. */
  predicate IsLeaf<E>(n: TreeNode<E>) {
    n.children.NoChildren? || |n.children.nodes| == 0
  }

  /**
    A well-formed subtree: the depth is non-negative, the children are absent or number 0 or 2,
    and every child sits one level deeper and is itself well-formed.
  */
  predicate WellFormed<E>(n: TreeNode<E>)
    decreases n
  {
    && n.depth >= 0
    && (n.children.NoChildren? || |n.children.nodes| == 0 || |n.children.nodes| == 2)
    && (n.children.ChildList? ==>
          forall i :: 0 <= i < |n.children.nodes| ==>
            n.children.nodes[i].depth == n.depth + 1 && WellFormed(n.children.nodes[i]))
  }

  /** A node built with no arguments is a well-formed leaf at the root depth 0. */
  lemma DefaultNode<E>()
    ensures var n: TreeNode<E> := TreeNode();
      n.depth == 0 && n.estimator.None? && n.split.None? && n.children == NoChildren
      && IsLeaf(n) && WellFormed(n)
  {
  }

  /** The node reached from `n` by following child indices `path`, if every step exists. */
  function NodeAt<E>(n: TreeNode<E>, path: seq<nat>): Option<TreeNode<E>>
    decreases |path|
  {
    if |path| == 0 then Some(n)
    else if n.children.ChildList? && path[0] < |n.children.nodes| then NodeAt(n.children.nodes[path[0]], path[1..])
    else None
  }

  /**
    Depth bookkeeping: in a well-formed tree every node reached by a path is well-formed, lies
    exactly `|path|` levels below the start, and each step picked child 0 or child 1.
  */
  lemma {:induction false} NodeAtDepth<E>(n: TreeNode<E>, path: seq<nat>)
    requires WellFormed(n) && NodeAt(n, path).Some?
    ensures var m := NodeAt(n, path).value;
      m.depth == n.depth + |path| && WellFormed(m)
    ensures forall i :: 0 <= i < |path| ==> path[i] < 2
    decreases |path|
  {
    if |path| > 0 {
      NodeAtDepth(n.children.nodes[path[0]], path[1..]);
      assert forall i :: 1 <= i < |path| ==> path[i] == path[1..][i - 1];
    }
  }

  /** Number of leaves of a well-formed subtree. */
  function Leaves<E>(n: TreeNode<E>): nat
    requires WellFormed(n)
    decreases n
  {
    if IsLeaf(n) then 1 else Leaves(n.children.nodes[0]) + Leaves(n.children.nodes[1])
  }

  /** Number of inner (non-leaf) nodes of a well-formed subtree. */
  function InnerNodes<E>(n: TreeNode<E>): nat
    requires WellFormed(n)
    decreases n
  {
    if IsLeaf(n) then 0 else 1 + InnerNodes(n.children.nodes[0]) + InnerNodes(n.children.nodes[1])
  }

  /** Because every inner node has exactly two children, a well-formed tree has one more leaf than inner nodes. */
  lemma {:induction false} LeavesExceedInnerNodes<E>(n: TreeNode<E>)
    requires WellFormed(n)
    ensures Leaves(n) == InnerNodes(n) + 1
    decreases n
  {
    if !IsLeaf(n) {
      LeavesExceedInnerNodes(n.children.nodes[0]);
      LeavesExceedInnerNodes(n.children.nodes[1]);
    }
  }
}

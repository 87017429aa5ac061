/**
 Decision tree nodes of the naive additive decision tree ranker and their evaluation.

 A tree is either a Split, which routes a feature vector to its left or right child by
 comparing one feature value against a threshold, or a Leaf holding a constant output.
 Feature values, thresholds and outputs are modelled as reals.

 The iterative walk of `Split.eval` in `NaiveAdditiveDecisionTree` compares, at EVERY split it visits, the value of the
 feature named by the ROOT split, not by the split being visited. `Walk` carries that
 root feature index down the tree; `EvalPerNode` is the per-node reading, and the two
 are proved to agree when every split of the tree names the root's feature.
 */
module DecisionTree {

  /** A decision tree node. Children are owned exclusively, so a tree is finite and acyclic. */
  datatype Node =
    | Split(left: Node, right: Node, feature: int, threshold: real)
    | Leaf(output: real)
  {
    /** `isLeaf`: a node is a leaf exactly when no split lies below it. */
    predicate IsLeaf()
      ensures IsLeaf() <==> Height(this) == 0
    {
      Leaf?
    }
  }

  function Max(a: nat, b: nat): nat {
    if a >= b then a else b
  }

  /** Number of splits on the longest root-to-leaf path. */
  function Height(n: Node): nat {
    match n
    case Leaf(_) => 0
    case Split(l, r, _, _) => 1 + Max(Height(l), Height(r))
  }

  /** All the leaves of a tree. */
  function Leaves(n: Node): (ls: set<Node>)
    ensures forall l :: l in ls ==> l.Leaf?
    ensures n.Leaf? ==> ls == {n}
  {
    match n
    case Leaf(_) => {n}
    case Split(l, r, _, _) => Leaves(l) + Leaves(r)
  }

  /** Every split of the tree names a feature index in `[0, size)`. */
  predicate FeaturesBelow(n: Node, size: int) {
    match n
    case Leaf(_) => true
    case Split(l, r, f, _) => 0 <= f < size && FeaturesBelow(l, size) && FeaturesBelow(r, size)
  }

  /** Every split of the tree names feature `f`. */
  predicate AllSplitsOn(n: Node, f: int) {
    match n
    case Leaf(_) => true
    case Split(l, r, g, _) => g == f && AllSplitsOn(l, f) && AllSplitsOn(r, f)
  }

  /**
   The leaf that the walk of `Split.eval` reaches from `n` when every comparison reads
   `scores[f]`: a split goes left when its threshold is at least that value and right
   otherwise. The index is read only at splits, so it need be in range only if `n` is one.
   */
  function Walk(n: Node, scores: seq<real>, f: int): (leaf: Node)
    requires n.Leaf? || 0 <= f < |scores|
    ensures leaf.Leaf?
    ensures leaf in Leaves(n)
  {
    match n
    case Leaf(_) => n
    case Split(l, r, _, t) =>
      if t >= scores[f] then Walk(l, scores, f) else Walk(r, scores, f)
  }

  /**
   `Node.eval` as written: a leaf yields its output; a split walks with its own feature
   index used for every comparison of the walk.
   */
  function Eval(n: Node, scores: seq<real>): (r: real)
    requires n.Leaf? || 0 <= n.feature < |scores|
    ensures Leaf(r) in Leaves(n)
    ensures n.Leaf? ==> r == n.output
  {
    match n
    case Leaf(o) => o
    case Split(_, _, f, _) => Walk(n, scores, f).output
  }

  /** The per-node reading of a tree: each split compares the feature it names itself. */
  function EvalPerNode(n: Node, scores: seq<real>): (r: real)
    requires FeaturesBelow(n, |scores|)
    ensures Leaf(r) in Leaves(n)
  {
    match n
    case Leaf(o) => o
    case Split(l, r, f, t) =>
      if t >= scores[f] then EvalPerNode(l, scores) else EvalPerNode(r, scores)
  }

  /**
   `Split.eval`: the iterative walk from the root split down to a leaf, reading
   `scores[root.feature]` at every split it visits, then the leaf's output.
   */
  method SplitEval(root: Node, scores: seq<real>) returns (r: real)
    requires root.Split?
    requires 0 <= root.feature < |scores|
    ensures r == Eval(root, scores)
    ensures Leaf(r) in Leaves(root)
  {
    var n := root;
    while !n.IsLeaf()
      invariant Walk(n, scores, root.feature) == Walk(root, scores, root.feature)
      decreases Height(n)
    {
      if n.threshold >= scores[root.feature] {
        n := n.left;
      } else {
        n := n.right;
      }
    }
    r := n.output;
  }

  /** `Node.eval` dispatched on the node kind, as the ensemble calls it per tree. */
  method NodeEval(n: Node, scores: seq<real>) returns (r: real)
    requires n.Leaf? || 0 <= n.feature < |scores|
    ensures r == Eval(n, scores)
  {
    if n.IsLeaf() {
      r := n.output;
    } else {
      r := SplitEval(n, scores);
    }
  }

  /** A leaf's output does not depend on the feature vector at all. */
  lemma LeafIgnoresScores(o: real, scores1: seq<real>, scores2: seq<real>)
    ensures Eval(Leaf(o), scores1) == Eval(Leaf(o), scores2) == o
  {
  }

  /**
   Tie-break at the root: a value equal to the threshold routes left, as does any
   smaller value; only a strictly greater value routes right. The chosen subtree is
   then walked with the root's feature index.
   */
  lemma RootTieBreak(l: Node, r: Node, f: int, t: real, scores: seq<real>)
    requires 0 <= f < |scores|
    ensures scores[f] == t ==> Eval(Split(l, r, f, t), scores) == Walk(l, scores, f).output
    ensures scores[f] < t ==> Eval(Split(l, r, f, t), scores) == Walk(l, scores, f).output
    ensures scores[f] > t ==> Eval(Split(l, r, f, t), scores) == Walk(r, scores, f).output
  {
  }

  /** The leaf reached by always going left. */
  function Leftmost(n: Node): (leaf: Node)
    ensures leaf.Leaf?
    ensures leaf in Leaves(n)
  {
    match n
    case Leaf(_) => n
    case Split(l, _, _, _) => Leftmost(l)
  }

  /** Every split of the tree has a threshold of at least `v`. */
  predicate ThresholdsAtLeast(n: Node, v: real) {
    match n
    case Leaf(_) => true
    case Split(l, r, _, t) => t >= v && ThresholdsAtLeast(l, v) && ThresholdsAtLeast(r, v)
  }

  /**
   When the value read by the walk is at most every threshold of the tree, the tie-break
   sends the walk left at every split, to the leftmost leaf.
   */
  lemma {:induction false} WalkReachesLeftmost(n: Node, scores: seq<real>, f: int)
    requires n.Leaf? || (0 <= f < |scores| && ThresholdsAtLeast(n, scores[f]))
    ensures Walk(n, scores, f) == Leftmost(n)
    decreases n
  {
    match n
    case Leaf(_) =>
    case Split(l, _, _, _) =>
      WalkReachesLeftmost(l, scores, f);
  }

  /** The walk with index `f` only ever looks at `scores[f]`. */
  lemma {:induction false} WalkReadsOnlyOneSlot(n: Node, s1: seq<real>, s2: seq<real>, f: int)
    requires n.Leaf? || (0 <= f < |s1| && 0 <= f < |s2| && s1[f] == s2[f])
    ensures Walk(n, s1, f) == Walk(n, s2, f)
    decreases n
  {
    match n
    case Leaf(_) =>
    case Split(l, r, _, _) =>
      WalkReadsOnlyOneSlot(l, s1, s2, f);
      WalkReadsOnlyOneSlot(r, s1, s2, f);
  }

  /**
   The result of evaluating a split depends on one slot of the vector only, the one the
   root names: two vectors that agree there evaluate alike, whatever the inner splits name.
   */
  lemma EvalReadsOnlyRootFeature(root: Node, s1: seq<real>, s2: seq<real>)
    requires root.Split?
    requires 0 <= root.feature < |s1| && 0 <= root.feature < |s2|
    requires s1[root.feature] == s2[root.feature]
    ensures Eval(root, s1) == Eval(root, s2)
  {
    WalkReadsOnlyOneSlot(root, s1, s2, root.feature);
  }

  lemma {:induction false} AllSplitsOnBelow(n: Node, f: int, size: int)
    requires AllSplitsOn(n, f) && 0 <= f < size
    ensures FeaturesBelow(n, size)
    decreases n
  {
    match n
    case Leaf(_) =>
    case Split(l, r, _, _) =>
      AllSplitsOnBelow(l, f, size);
      AllSplitsOnBelow(r, f, size);
  }

  /** On a tree whose splits all name `f`, the walk with index `f` is the per-node reading. */
  lemma {:induction false} WalkMatchesPerNode(n: Node, scores: seq<real>, f: int)
    requires AllSplitsOn(n, f) && 0 <= f < |scores|
    ensures FeaturesBelow(n, |scores|)
    ensures Walk(n, scores, f).output == EvalPerNode(n, scores)
    decreases n
  {
    AllSplitsOnBelow(n, f, |scores|);
    match n
    case Leaf(_) =>
    case Split(l, r, _, _) =>
      WalkMatchesPerNode(l, scores, f);
      WalkMatchesPerNode(r, scores, f);
  }

  /**
   When every split names the root's feature, `Split.eval` agrees with the
   per-node reading of the tree.
   */
  lemma SharedFeatureAgreement(root: Node, scores: seq<real>)
    requires root.Split?
    requires AllSplitsOn(root, root.feature)
    requires 0 <= root.feature < |scores|
    ensures FeaturesBelow(root, |scores|)
    ensures Eval(root, scores) == EvalPerNode(root, scores)
  {
    WalkMatchesPerNode(root, scores, root.feature);
  }

  /**
   A tree whose inner split names another feature than the root: `Split.eval` and
   the per-node reading reach different leaves on the vector [0.0, 1.0].
   */
  lemma RootFeatureQuirkWitness()
    ensures var tree := Split(Split(Leaf(1.0), Leaf(2.0), 1, 0.5), Leaf(3.0), 0, 0.5);
            Eval(tree, [0.0, 1.0]) == 1.0 && EvalPerNode(tree, [0.0, 1.0]) == 2.0
  {
  }
}

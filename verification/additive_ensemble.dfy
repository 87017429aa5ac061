/**
 The naive additive decision tree ranker: an ordered ensemble of trees with one weight
 per tree, scoring a feature vector as the weighted sum of the trees' evaluations taken
 from the first tree to the last. A feature vector (data point) is a sequence of reals
 with one slot per feature ordinal.
 */
module AdditiveEnsemble {
  import opened DecisionTree

  /** The ranker's fixed model-family identifier. */
  const RankerName: string := "naive_additive_decision_tree"

  /** Trees, their weights, and the number of features the model expects. */
  datatype Ranker = Ranker(trees: seq<Node>, weights: seq<real>, modelSize: nat)
  {
    /** The construction-time requirement: one weight per tree. */
    predicate Valid() {
      |trees| == |weights|
    }
  }

  /**
   Builds a ranker. The `NaiveAdditiveDecisionTree` constructor asserts that there is one weight per
   tree; a ranker built here therefore always satisfies `Valid`.
   */
  function NewRanker(trees: seq<Node>, weights: seq<real>, modelSize: nat): (r: Ranker)
    requires |trees| == |weights|
    ensures r.Valid()
    ensures r.trees == trees && r.weights == weights
    ensures Size(r) == modelSize && |NewDataPoint(r)| == modelSize
  {
    Ranker(trees, weights, modelSize)
  }

  /** `name`: the same fixed identifier for every ranker. */
  function Name(r: Ranker): (s: string)
    ensures s == RankerName
  {
    RankerName
  }

  /** `size`: the number of features the model uses, which is the length of a fresh data point. */
  function Size(r: Ranker): (n: nat)
    ensures n == |NewDataPoint(r)|
  {
    r.modelSize
  }

  /** A fresh feature vector for the ranker: one slot per feature, every slot zero. */
  function NewDataPoint(r: Ranker): (p: seq<real>)
    ensures |p| == r.modelSize
    ensures forall i :: 0 <= i < |p| ==> p[i] == 0.0
  {
    seq(r.modelSize, _ => 0.0)
  }

  /** Every split tree of the ensemble has its root feature index inside a vector of `size` slots. */
  predicate RootsBelow(trees: seq<Node>, size: int) {
    forall i :: 0 <= i < |trees| ==> (trees[i].Split? ==> 0 <= trees[i].feature < size)
  }

  /**
   Reference definition of the ensemble's value: the first tree's weighted evaluation
   plus the value of the remaining ensemble, and 0 for no trees.
   */
  function WeightedSum(trees: seq<Node>, weights: seq<real>, scores: seq<real>): real
    requires |trees| == |weights|
    requires RootsBelow(trees, |scores|)
  {
    if |trees| == 0 then 0.0
    else weights[0] * Eval(trees[0], scores) + WeightedSum(trees[1..], weights[1..], scores)
  }

  /** The value of two ensembles laid end to end is the sum of their values. */
  lemma {:induction false} WeightedSumAppend(t1: seq<Node>, w1: seq<real>, t2: seq<Node>, w2: seq<real>, scores: seq<real>)
    requires |t1| == |w1| && |t2| == |w2|
    requires RootsBelow(t1, |scores|) && RootsBelow(t2, |scores|)
    ensures RootsBelow(t1 + t2, |scores|)
    ensures WeightedSum(t1 + t2, w1 + w2, scores) == WeightedSum(t1, w1, scores) + WeightedSum(t2, w2, scores)
    decreases |t1|
  {
    if |t1| == 0 {
      assert t1 + t2 == t2 && w1 + w2 == w2;
    } else {
      assert (t1 + t2)[1..] == t1[1..] + t2;
      assert (w1 + w2)[1..] == w1[1..] + w2;
      WeightedSumAppend(t1[1..], w1[1..], t2, w2, scores);
    }
  }

  /**
   `score`: accumulates `weights[i] * trees[i].eval(scores)` for i from 0 upwards. The
   result is the ensemble's weighted sum; an empty ensemble scores 0. The vector is
   only read.
   */
  method Score(r: Ranker, scores: seq<real>) returns (sum: real)
    requires r.Valid()
    requires RootsBelow(r.trees, |scores|)
    ensures sum == WeightedSum(r.trees, r.weights, scores)
    ensures |r.trees| == 0 ==> sum == 0.0
  {
    sum := 0.0;
    var i := 0;
    while i < |r.trees|
      invariant 0 <= i <= |r.trees|
      invariant sum == WeightedSum(r.trees[..i], r.weights[..i], scores)
    {
      var e := NodeEval(r.trees[i], scores);
      WeightedSumAppend(r.trees[..i], r.weights[..i], [r.trees[i]], [r.weights[i]], scores);
      assert r.trees[..i + 1] == r.trees[..i] + [r.trees[i]];
      assert r.weights[..i + 1] == r.weights[..i] + [r.weights[i]];
      sum := sum + r.weights[i] * e;
      i := i + 1;
    }
    assert r.trees[..i] == r.trees && r.weights[..i] == r.weights;
  }

  /**
   A fresh data point can be scored by any ranker whose split trees name root features
   below the model size.
   */
  lemma FreshPointScorable(r: Ranker)
    requires RootsBelow(r.trees, Size(r))
    ensures RootsBelow(r.trees, |NewDataPoint(r)|)
  {
  }

  /**
   On a fresh (all-zero) data point, a tree of the ranker whose thresholds are all
   non-negative evaluates to its leftmost leaf: every comparison reads a zero, and the
   tie-break sends a zero left.
   */
  lemma FreshPointReachesLeftmost(r: Ranker, i: int)
    requires 0 <= i < |r.trees|
    requires RootsBelow(r.trees, Size(r))
    requires ThresholdsAtLeast(r.trees[i], 0.0)
    ensures Eval(r.trees[i], NewDataPoint(r)) == Leftmost(r.trees[i]).output
  {
    var t := r.trees[i];
    if t.Split? {
      WalkReachesLeftmost(t, NewDataPoint(r), t.feature);
    }
  }

  /** One split on feature 0 at threshold 0.5, leaves 1.0 (left) and 2.0 (right), weight 1.0. */
  lemma SingleSplitExample()
    ensures var r := Ranker([Split(Leaf(1.0), Leaf(2.0), 0, 0.5)], [1.0], 1);
            && WeightedSum(r.trees, r.weights, [0.5]) == 1.0
            && WeightedSum(r.trees, r.weights, [0.6]) == 2.0
            && WeightedSum(r.trees, r.weights, [0.0]) == 1.0
  {
  }

  /** Two constant trees 4.0 and 2.0 with weights 0.5 each score 3.0 on any vector. */
  lemma ConstantTreesExample(scores: seq<real>)
    ensures WeightedSum([Leaf(4.0), Leaf(2.0)], [0.5, 0.5], scores) == 3.0
  {
    assert [Leaf(4.0), Leaf(2.0)][1..] == [Leaf(2.0)];
    assert [0.5, 0.5][1..] == [0.5];
    assert WeightedSum([Leaf(2.0)], [0.5], scores) == 1.0 by {
      assert [Leaf(2.0)][1..] == [];
    }
  }
}

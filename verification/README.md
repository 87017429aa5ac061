# Additive decision-tree ranker and feature-set lookup, in Dafny

This project models the per-document scoring core of the Elasticsearch learning-to-rank
plugin:

- **Decision trees** (`DecisionTree`, `decision_tree.dfy`). A `Node` is a `Split(left, right,
  feature, threshold)` or a `Leaf(output)`. `Split.eval` walks iteratively from the root: at each
  split it goes left when `threshold >= value` and right otherwise, and returns the output of the
  leaf it reaches. As written, every comparison of one walk reads the value of the feature named
  by the ROOT split (`scores[feature]` uses the root's field, not the visited split's).
  `Walk(n, scores, f)` is the functional definition of that walk with the root's index `f` carried
  down; `SplitEval` is the `while` loop, proved equal to it. `EvalPerNode` is the per-node reading
  (each split compares the feature it names); the two are proved to agree on trees whose splits
  all name the root's feature, and a concrete tree shows them disagreeing otherwise.
- **The ensemble** (`AdditiveEnsemble`, `additive_ensemble.dfy`). A `Ranker` holds trees, one
  weight per tree, and the model size. `Score` is the loop that accumulates
  `weights[i] * trees[i].eval(scores)` from the first tree to the last; it is proved equal to the
  reference `WeightedSum`, whose additivity over concatenated ensembles is proved once
  (`WeightedSumAppend`) and used as the loop's step. The ranker's name is the constant
  `RankerName` (`"naive_additive_decision_tree"`), returned by `Name`.
- **Feature sets** (`FeatureSets`, `feature_set.dfy`). A `FeatureSet` is an optional name and an
  ordered list of features; a feature's ordinal is its position. Name resolution is the source's
  linear scan: the first matching ordinal, or -1. Lookups that throw in the source return
  `Failure(UnknownFeature(name))` or `Failure(IndexOutOfRange(ord))` here.
- `Results` (`results.dfy`) holds the `Option` and `Result` wrappers.

Values (feature scores, thresholds, leaf outputs, weights) are `real`. A data point is a
`seq<real>`; since it is a value, scoring cannot change it, nor the trees or the weights.

The index precondition of evaluation is exactly the one the source needs: a split root's feature
index lies inside the vector. Inner splits' indices are never read, so nothing is required of
them. The construction-time `assert` that there is one weight per tree is the `Ranker.Valid`
precondition of `Score`.

## Model

| member | source | states |
|---|---|---|
| `DecisionTree.Walk` | src/main/java/com/o19s/es/ltr/ranker/dectree/NaiveAdditiveDecisionTree.java:99-109 | the walk always ends at a leaf, and that leaf belongs to the tree walked; the fixed index need be in range only when the start is a split |
| `DecisionTree.Node.IsLeaf` | src/main/java/com/o19s/es/ltr/ranker/dectree/NaiveAdditiveDecisionTree.java:93-125 | `isLeaf` is false for a split and true for a leaf: a node is a leaf exactly when its height is 0 |
| `DecisionTree.Eval` | src/main/java/com/o19s/es/ltr/ranker/dectree/NaiveAdditiveDecisionTree.java:99-130 | `Node.eval` returns the output of one of the tree's own leaves; on a leaf it returns that leaf's output |
| `DecisionTree.SplitEval` | src/main/java/com/o19s/es/ltr/ranker/dectree/NaiveAdditiveDecisionTree.java:98-112 | the iterative loop, reading `scores[root.feature]` at each split and descending by height, returns exactly the recursive walk's result, a leaf output of the tree |
| `DecisionTree.NodeEval` | src/main/java/com/o19s/es/ltr/ranker/dectree/NaiveAdditiveDecisionTree.java:75-78 | dispatching `eval` on the node kind agrees with the functional evaluation for leaves and splits alike |
| `DecisionTree.EvalPerNode` | src/main/java/com/o19s/es/ltr/ranker/dectree/NaiveAdditiveDecisionTree.java:100-108 | the per-node reading of the walk (each split compares its own feature) also ends at a leaf of the tree |
| `DecisionTree.LeafIgnoresScores` | src/main/java/com/o19s/es/ltr/ranker/dectree/NaiveAdditiveDecisionTree.java:127-130 | a leaf evaluates to its stored output whatever the vector |
| `DecisionTree.RootTieBreak` | src/main/java/com/o19s/es/ltr/ranker/dectree/NaiveAdditiveDecisionTree.java:104-108 | a value equal to the threshold goes left, a smaller one goes left, only a strictly greater one goes right; the chosen child is walked with the root's index |
| `DecisionTree.WalkReadsOnlyOneSlot` | src/main/java/com/o19s/es/ltr/ranker/dectree/NaiveAdditiveDecisionTree.java:100-108 | a walk with index `f` reaches the same leaf on any two vectors that agree at slot `f` |
| `DecisionTree.EvalReadsOnlyRootFeature` | src/main/java/com/o19s/es/ltr/ranker/dectree/NaiveAdditiveDecisionTree.java:104 | evaluating a split depends only on the vector's value at the root's feature index |
| `DecisionTree.WalkMatchesPerNode` | src/main/java/com/o19s/es/ltr/ranker/dectree/NaiveAdditiveDecisionTree.java:100-108 | on a tree whose splits all name `f`, the walk with index `f` yields the per-node result |
| `DecisionTree.SharedFeatureAgreement` | src/main/java/com/o19s/es/ltr/ranker/dectree/NaiveAdditiveDecisionTree.java:100-104 | when all splits share the root's feature index, the source's evaluation equals the per-node reading |
| `DecisionTree.RootFeatureQuirkWitness` | src/main/java/com/o19s/es/ltr/ranker/dectree/NaiveAdditiveDecisionTree.java:104 | a two-split tree whose inner split names feature 1 evaluates to 1.0 as written but to 2.0 per node on the vector [0.0, 1.0] |
| `DecisionTree.WalkReachesLeftmost` | src/main/java/com/o19s/es/ltr/ranker/dectree/NaiveAdditiveDecisionTree.java:104-105 | when the value the walk reads is at most every threshold of the tree, the walk goes left at every split and ends at the leftmost leaf |
| `AdditiveEnsemble.NewRanker` | src/main/java/com/o19s/es/ltr/ranker/dectree/NaiveAdditiveDecisionTree.java:42-47 | construction demands one weight per tree, keeps trees and weights as given, and reports the given model size |
| `AdditiveEnsemble.Name` | src/main/java/com/o19s/es/ltr/ranker/dectree/NaiveAdditiveDecisionTree.java:49-52 | every ranker reports the same fixed identifier `naive_additive_decision_tree`, whatever its trees, weights or size |
| `AdditiveEnsemble.Size` | src/main/java/com/o19s/es/ltr/ranker/dectree/NaiveAdditiveDecisionTree.java:70-73 | `size()` equals the number of slots of the data point `newDataPoint()` allocates |
| `AdditiveEnsemble.NewDataPoint` | src/main/java/com/o19s/es/ltr/ranker/dectree/NaiveAdditiveDecisionTree.java:54-57 | a fresh data point has `modelSize` slots, each zero |
| `AdditiveEnsemble.FreshPointScorable` | src/main/java/com/o19s/es/ltr/ranker/dectree/NaiveAdditiveDecisionTree.java:55-73 | a fresh data point satisfies the scoring precondition whenever every root feature lies below the model size |
| `AdditiveEnsemble.FreshPointReachesLeftmost` | src/main/java/com/o19s/es/ltr/ranker/dectree/NaiveAdditiveDecisionTree.java:99-111 | on a fresh all-zero point, any tree of the ranker whose thresholds are all non-negative evaluates to its leftmost leaf's output, since every comparison reads a zero and a tie goes left |
| `AdditiveEnsemble.WeightedSumAppend` | src/main/java/com/o19s/es/ltr/ranker/dectree/NaiveAdditiveDecisionTree.java:62-67 | the weighted sum over two ensembles laid end to end is the sum of their weighted sums |
| `AdditiveEnsemble.Score` | src/main/java/com/o19s/es/ltr/ranker/dectree/NaiveAdditiveDecisionTree.java:59-68 | the left-to-right accumulation equals the sum over all trees of weight times evaluation; an empty ensemble scores 0; weights are indexed in range because the ranker is valid |
| `AdditiveEnsemble.SingleSplitExample` | src/main/java/com/o19s/es/ltr/ranker/dectree/NaiveAdditiveDecisionTree.java:62-67 | one split at 0.5 with leaves 1.0 and 2.0 and weight 1.0 scores 1.0 on [0.5], 2.0 on [0.6] and 1.0 on [0.0] |
| `AdditiveEnsemble.ConstantTreesExample` | src/main/java/com/o19s/es/ltr/ranker/dectree/NaiveAdditiveDecisionTree.java:62-67 | two constant trees 4.0 and 2.0 weighted 0.5 each score 3.0 on every vector |
| `FeatureSets.NewFeatureSet` | src/main/java/com/o19s/es/ltr/feature/PrebuiltFeatureSet.java:29-32 | the constructed set's `asArray()` is the given list and its `size()` is the list's length |
| `FeatureSets.Name` | src/main/java/com/o19s/es/ltr/feature/PrebuiltFeatureSet.java:34-37 | the name, possibly absent, together with `asArray()` rebuilds the set, so it is the name the set was constructed with |
| `FeatureSets.NameOfNewFeatureSet` | src/main/java/com/o19s/es/ltr/feature/PrebuiltFeatureSet.java:29-37 | `name()` returns the constructor's name argument unchanged, absent included |
| `FeatureSets.FindFrom` | src/main/java/com/o19s/es/ltr/feature/PrebuiltFeatureSet.java:77-80 | scanning from a position finds the first later position holding the name, or -1 exactly when none does |
| `FeatureSets.FindFeatureIndexByName` | src/main/java/com/o19s/es/ltr/feature/PrebuiltFeatureSet.java:73-81 | the result is the least index whose name equals the query, or -1 exactly when no name matches |
| `FeatureSets.HasFeature` | src/main/java/com/o19s/es/ltr/feature/PrebuiltFeatureSet.java:63-66 | true exactly when some feature carries the name |
| `FeatureSets.FeatureOrdinal` | src/main/java/com/o19s/es/ltr/feature/PrebuiltFeatureSet.java:44-51 | fails with `UnknownFeature` exactly when `hasFeature` is false; otherwise an ordinal in `[0, size)` holding the name, the first such |
| `FeatureSets.FeatureAt` | src/main/java/com/o19s/es/ltr/feature/PrebuiltFeatureSet.java:53-56 | returns the feature at the ordinal, and fails with `IndexOutOfRange` exactly when the ordinal is negative or at least `size()` |
| `FeatureSets.FeatureNamed` | src/main/java/com/o19s/es/ltr/feature/PrebuiltFeatureSet.java:58-61 | equals `feature(featureOrdinal(name))`, a feature of that name, and fails with `UnknownFeature` under the same condition as `featureOrdinal` |
| `FeatureSets.AsArray` | src/main/java/com/o19s/es/ltr/feature/PrebuiltFeatureSet.java:39-42 | the array has `size()` entries and entry `i` is `feature(i)`, so it lists the features in ordinal order |
| `FeatureSets.Size` | src/main/java/com/o19s/es/ltr/feature/PrebuiltFeatureSet.java:68-71 | `feature(i)` succeeds exactly for the ordinals `i` in `[0, size())` |
| `FeatureSets.OrdinalOfNameAt` | src/main/java/com/o19s/es/ltr/feature/PrebuiltFeatureSet.java:44-56 | with unique names, `featureOrdinal(feature(i).name())` is `i` for every `i` in `[0, size)` |
| `FeatureSets.NameAtOrdinalOf` | src/main/java/com/o19s/es/ltr/feature/PrebuiltFeatureSet.java:44-56 | for a known name, the feature at its resolved ordinal carries that name |
| `FeatureSets.FirstMatchWins` | src/main/java/com/o19s/es/ltr/feature/PrebuiltFeatureSet.java:76-80 | with a repeated name, the later ordinal is never the one resolved |
| `FeatureSets.OrdinalEdgesFail` | src/main/java/com/o19s/es/ltr/feature/PrebuiltFeatureSet.java:53-56 | ordinals -1 and `size()` both fail with `IndexOutOfRange` |

## Left out

- Floating point: values are `real`, so the `float` rounding of each `sum +=` step, NaN comparisons in the `>=` test, and float overflow are not modelled.
- The evaluation's index precondition: reading `scores[feature]` out of range throws in Java; here the root's index is required to be in range instead of modelling the exception.
- The construction check `trees.length == weights.length` is a Java `assert`; it is modelled as the `Ranker.Valid` precondition, not as a runtime failure.
- `AdditiveEnsemble.NewDataPoint`: that every slot starts at zero is an assumption about `ArrayDataPoint`, whose code is not part of this model; only the slot count comes from `NaiveAdditiveDecisionTree`.
- The model size is a `nat`: a negative size would make the data-point allocation throw, which is not modelled.
- Feature objects are reduced to their names; `PrebuiltFeature` is not part of this model. Null feature names and null queries (which `Objects.equals` would compare) are not modelled.
- Uniqueness of feature names is not enforced by the feature set; it is the `UniqueNames` hypothesis of the ordinal round trip, and `FirstMatchWins` covers the duplicate case.
- Aliasing: both constructors keep the caller's array or list by reference, so a caller that later changes the trees, the weights or the feature list changes what `score`, `size()`, `feature(i)` and `featureOrdinal` return. `Ranker` and `FeatureSet` are values here, which assumes the constructor arguments are never mutated afterwards; only `asArray()` copies in the source.
- The `instanceof` checks and casts on data points and nodes are replaced by the datatypes; null-children checks are structural.
- `RanklibRanker.java`, the adapter for externally trained RankLib models, is not part of this model: its operations delegate to a model whose code is not available.
- Thread safety of data points and concurrency in general: the model is purely functional.

/**
 A prebuilt feature set: an optional set name and an ordered list of features, where a
 feature's ordinal is its position in the list. Names are resolved to ordinals by a
 linear scan in ordinal order; the first match wins. A feature is modelled by its name.
 */
module FeatureSets {
  import opened Results

  datatype Feature = Feature(name: string)

  datatype FeatureSet = FeatureSet(setName: Option<string>, features: seq<Feature>)

  /** The exceptions the lookups raise. */
  datatype LookupError =
    | UnknownFeature(featureName: string)
    | IndexOutOfRange(ordinal: int)

  /** Feature names are pairwise distinct, as the feature set's producers promise. */
  predicate UniqueNames(fs: FeatureSet) {
    forall i, j :: 0 <= i < j < |fs.features| ==> fs.features[i].name != fs.features[j].name
  }

  /** Builds a set from a name, which may be absent, and the features in ordinal order. */
  function NewFeatureSet(name: Option<string>, features: seq<Feature>): (fs: FeatureSet)
    ensures AsArray(fs) == features
    ensures Size(fs) == |features|
  {
    FeatureSet(name, features)
  }

  /**
   `name`: the set's own name, possibly absent. Together with `AsArray` it rebuilds the
   set, so it is the name the set was constructed with.
   */
  function Name(fs: FeatureSet): (n: Option<string>)
    ensures NewFeatureSet(n, AsArray(fs)) == fs
  {
    fs.setName
  }

  /** A set reports the name it was built with, unchanged, absent included. */
  lemma NameOfNewFeatureSet(name: Option<string>, features: seq<Feature>)
    ensures Name(NewFeatureSet(name, features)) == name
  {
  }

  /**
   The first position at or after `from` whose feature is named `q`, or -1 when no
   feature from `from` on has that name.
   */
  function FindFrom(features: seq<Feature>, q: string, from: nat): (i: int)
    requires from <= |features|
    ensures i == -1 || from <= i < |features|
    ensures i == -1 <==> forall j :: from <= j < |features| ==> features[j].name != q
    ensures i >= 0 ==> features[i].name == q
    ensures i >= 0 ==> forall j :: from <= j < i ==> features[j].name != q
    decreases |features| - from
  {
    if from == |features| then -1
    else if features[from].name == q then from
    else FindFrom(features, q, from + 1)
  }

  /**
   `findFeatureIndexByName`: the least ordinal whose feature is named `q`, or -1 when
   no feature has that name.
   */
  function FindFeatureIndexByName(fs: FeatureSet, q: string): (i: int)
    ensures -1 <= i < |fs.features|
    ensures i == -1 <==> forall j :: 0 <= j < |fs.features| ==> fs.features[j].name != q
    ensures i >= 0 ==> fs.features[i].name == q
    ensures i >= 0 ==> forall j :: 0 <= j < i ==> fs.features[j].name != q
  {
    FindFrom(fs.features, q, 0)
  }

  /** `hasFeature`: whether some feature is named `q`; never fails. */
  function HasFeature(fs: FeatureSet, q: string): (b: bool)
    ensures b <==> exists j :: 0 <= j < |fs.features| && fs.features[j].name == q
  {
    FindFeatureIndexByName(fs, q) >= 0
  }

  /**
   `featureOrdinal`: the ordinal of the first feature named `q`, or `UnknownFeature`
   exactly when the set has no such feature.
   */
  function FeatureOrdinal(fs: FeatureSet, q: string): (r: Result<nat, LookupError>)
    ensures r.Failure? <==> !HasFeature(fs, q)
    ensures r.Failure? ==> r.error == UnknownFeature(q)
    ensures r.Success? ==> r.value < Size(fs) && fs.features[r.value].name == q
    ensures r.Success? ==> forall j :: 0 <= j < r.value ==> fs.features[j].name != q
  {
    var ord := FindFeatureIndexByName(fs, q);
    if ord < 0 then Failure(UnknownFeature(q)) else Success(ord)
  }

  /** `feature(int)`: the feature at ordinal `ord`, or `IndexOutOfRange` outside `[0, size)`. */
  function FeatureAt(fs: FeatureSet, ord: int): (r: Result<Feature, LookupError>)
    ensures r.Success? <==> 0 <= ord < |fs.features|
    ensures r.Success? ==> r.value == fs.features[ord]
    ensures r.Failure? ==> r.error == IndexOutOfRange(ord)
  {
    if 0 <= ord < |fs.features| then Success(fs.features[ord]) else Failure(IndexOutOfRange(ord))
  }

  /**
   `feature(String)`: the feature at the ordinal `featureOrdinal` resolves, failing with
   `UnknownFeature` exactly when that resolution fails.
   */
  function FeatureNamed(fs: FeatureSet, q: string): (r: Result<Feature, LookupError>)
    ensures r.Success? <==> HasFeature(fs, q)
    ensures r.Failure? ==> r.error == UnknownFeature(q)
    ensures r.Success? ==> r.value.name == q
    ensures r.Success? ==> FeatureAt(fs, FeatureOrdinal(fs, q).value) == Success(r.value)
  {
    match FeatureOrdinal(fs, q)
    case Failure(e) => Failure(e)
    case Success(ord) => Success(fs.features[ord])
  }

  /** `size`: the number of features, so exactly the ordinals below it are accepted by `FeatureAt`. */
  function Size(fs: FeatureSet): (n: nat)
    ensures forall i :: FeatureAt(fs, i).Success? <==> 0 <= i < n
  {
    |fs.features|
  }

  /** `asArray`: the features in ordinal order, one per ordinal in `[0, size)`. */
  function AsArray(fs: FeatureSet): (a: seq<Feature>)
    ensures |a| == Size(fs)
    ensures forall i :: 0 <= i < |a| ==> FeatureAt(fs, i) == Success(a[i])
  {
    fs.features
  }

  /**
   With unique names, resolving the name of the feature at ordinal `i` gives back `i`.
   */
  lemma OrdinalOfNameAt(fs: FeatureSet, i: int)
    requires UniqueNames(fs)
    requires 0 <= i < Size(fs)
    ensures FeatureAt(fs, i).Success?
    ensures FeatureOrdinal(fs, FeatureAt(fs, i).value.name) == Success(i)
  {
  }

  /** Resolving a known name and then looking up that ordinal yields a feature of that name. */
  lemma NameAtOrdinalOf(fs: FeatureSet, q: string)
    requires HasFeature(fs, q)
    ensures FeatureOrdinal(fs, q).Success?
    ensures FeatureAt(fs, FeatureOrdinal(fs, q).value).Success?
    ensures FeatureAt(fs, FeatureOrdinal(fs, q).value).value.name == q
  {
  }

  /** Should names repeat, the earlier ordinal wins: a later duplicate is never resolved. */
  lemma FirstMatchWins(fs: FeatureSet, i: int, j: int)
    requires 0 <= i < j < Size(fs)
    requires fs.features[i].name == fs.features[j].name
    ensures FeatureOrdinal(fs, fs.features[j].name) != Success(j)
  {
  }

  /** Lookups by ordinal fail at the two edges just outside the valid range, -1 and size. */
  lemma OrdinalEdgesFail(fs: FeatureSet)
    ensures FeatureAt(fs, -1) == Failure(IndexOutOfRange(-1))
    ensures FeatureAt(fs, Size(fs)) == Failure(IndexOutOfRange(Size(fs)))
  {
  }
}

/**
 The classifier of `predictDisease`: the index of the largest normalised
 score is chosen with `maxByOrNull` (the first maximum wins, an empty vector
 falls back to index 0) and looked up in the fixed table of sixteen labels.
 */
module Classifier {
  import opened Scores

  datatype Option<T> = None | Some(value: T)

  /** The label table; score i belongs to label i. */
  const Diseases: seq<string> := [
    "Corn_Blight",
    "Corn_Common_Rust",
    "Corn_Gray_Leaf_Spot",
    "Corn_Healthy",
    "Rice_Bacterial_Blight",
    "Rice_Blast",
    "Rice_Brown_Spot",
    "Sorghum_Anthracnose",
    "Sorghum_Cereal_Grain_Molds",
    "Sorghum_Head_Smut",
    "Sorghum_Loose_Smut",
    "Sorghum_Rust",
    "Wheat_Brown_Rust",
    "Wheat_Healthy",
    "Wheat_Septoria",
    "Wheat_Yellow_Rust"
  ]

  /** A disease label together with the normalised score it was chosen for. */
  datatype Prediction = Prediction(disease: string, confidence: real)

  /** Among the first `n` entries of `v`, `k` holds the largest value and every
      earlier entry is strictly smaller. */
  ghost predicate IsFirstMaxUpTo(v: seq<real>, n: int, k: int) {
    && 0 <= k < n <= |v|
    && (forall j :: 0 <= j < n ==> v[j] <= v[k])
    && (forall j :: 0 <= j < k ==> v[j] < v[k])
  }

  /** `k` is the lowest index holding the maximum of `v`. */
  ghost predicate IsFirstMax(v: seq<real>, k: int) {
    IsFirstMaxUpTo(v, |v|, k)
  }

  /** The scan `maxByOrNull` performs: `best` is the index kept so far, and a
      later index replaces it only when its value is strictly larger. */
  function ScanMax(v: seq<real>, i: nat, best: nat): (k: nat)
    requires IsFirstMaxUpTo(v, i, best)
    ensures IsFirstMax(v, k)
    decreases |v| - i
  {
    if i == |v| then best
    else if v[best] < v[i] then ScanMax(v, i + 1, i)
    else ScanMax(v, i + 1, best)
  }

  /** `v.indices.maxByOrNull { v[it] }` */
  function MaxByOrNull(v: seq<real>): (r: Option<nat>)
    ensures r.None? <==> |v| == 0
    ensures r.Some? ==> IsFirstMax(v, r.value)
  {
    if |v| == 0 then None else Some(ScanMax(v, 1, 0))
  }

  /** `v.indices.maxByOrNull { v[it] } ?: 0` */
  function MaxIndex(v: seq<real>): (k: nat)
    ensures |v| == 0 ==> k == 0
    ensures |v| > 0 ==> IsFirstMax(v, k)
  {
    match MaxByOrNull(v)
    case None => 0
    case Some(k) => k
  }

  /** A vector has at most one first maximum. */
  lemma FirstMaxUnique(v: seq<real>, a: int, b: int)
    requires IsFirstMax(v, a) && IsFirstMax(v, b)
    ensures a == b
  {
    assert v[b] <= v[a] && v[a] <= v[b];
  }

  /** On a non-empty vector, the selected index is exactly the first maximum. */
  lemma MaxIndexIsFirstMax(v: seq<real>, k: int)
    requires |v| > 0
    ensures MaxIndex(v) == k <==> IsFirstMax(v, k)
  {
    if IsFirstMax(v, k) {
      FirstMaxUnique(v, k, MaxIndex(v));
    }
  }

  /** Ties go to the lowest index: when the maximum sits at both i and j > i,
      the selected index is not j, is at most i, and holds the same value. */
  lemma TieGoesToLowestIndex(v: seq<real>, i: int, j: int)
    requires 0 <= i < j < |v| && v[i] == v[j]
    requires forall m :: 0 <= m < |v| ==> v[m] <= v[i]
    ensures MaxIndex(v) <= i && MaxIndex(v) != j && v[MaxIndex(v)] == v[i]
  {
  }

  /** A vector of equal entries selects index 0. */
  lemma ConstantSelectsFirst(v: seq<real>)
    requires |v| > 0
    requires forall m :: 0 <= m < |v| ==> v[m] == v[0]
    ensures MaxIndex(v) == 0
  {
  }

  /** Two vectors ordered alike position by position select the same index. */
  lemma {:induction false} SameOrderSameIndex(v: seq<real>, w: seq<real>)
    requires |v| == |w|
    requires forall i, j :: 0 <= i < |v| && 0 <= j < |v| ==> (v[i] < v[j] <==> w[i] < w[j])
    ensures MaxIndex(v) == MaxIndex(w)
  {
    if |v| > 0 {
      var k := MaxIndex(v);
      assert forall j :: 0 <= j < |w| ==> !(v[k] < v[j]);
      assert IsFirstMax(w, k);
      MaxIndexIsFirstMax(w, k);
    }
  }

  /** Softmax never changes which class is selected. */
  lemma SoftmaxKeepsSelection(v: seq<real>, exp: real -> real)
    requires ExpLike(exp)
    ensures MaxIndex(Softmax(v, exp)) == MaxIndex(v)
  {
    SameOrderSameIndex(v, Softmax(v, exp));
  }

  /** The largest entry is at least the mean: the total is at most `|v|`
      times the selected entry. */
  lemma MaxAtLeastMean(v: seq<real>)
    requires |v| > 0
    ensures Sum(v) <= |v| as real * v[MaxIndex(v)]
  {
    SumAtMostBound(v, v[MaxIndex(v)]);
  }

  /** `diseases[maxIndex]` together with `normalizedScores[maxIndex]`; either
      index throwing (an empty vector, or an index past the table) is the
      failure `None`. */
  function Classify(probs: seq<real>): (r: Option<Prediction>)
    ensures |probs| == 0 ==> r.None?
    ensures |probs| == |Diseases| ==> r.Some?
    ensures r.Some? ==>
      && MaxIndex(probs) < |probs|
      && MaxIndex(probs) < |Diseases|
      && r.value.disease == Diseases[MaxIndex(probs)]
      && r.value.confidence == probs[MaxIndex(probs)]
      && forall j :: 0 <= j < |probs| ==> probs[j] <= r.value.confidence
  {
    var k := MaxIndex(probs);
    if k < |probs| && k < |Diseases| then Some(Prediction(Diseases[k], probs[k]))
    else None
  }
}

/** The original routines of model/simulation.py: top-k thresholding of
    classifier scores, the sliding windows fed to the recurrent network,
    and the report paths. */
module ModelSimulation {
  import opened PyBuiltins
  import opened Ranking
  import PosixPath

  /** `top_k = int(pos_ratio * len(scores))`. */
  function TopK(posRatio: real, n: nat): (k: int)
    ensures 0.0 <= posRatio ==> 0 <= k && k as real <= posRatio * n as real < k as real + 1.0
    ensures posRatio < 0.0 ==> k <= 0 && k as real - 1.0 < posRatio * n as real <= k as real
  {
    assert 0.0 <= posRatio ==> 0.0 <= posRatio * n as real;
    assert posRatio < 0.0 ==> posRatio * n as real <= 0.0;
    TruncToInt(posRatio * n as real)
  }

  /** The position `sorted(scores, reverse=True)[top_k]` reads among n
      scores, or None when that subscript raises IndexError. */
  function TopKIndex(posRatio: real, n: nat): (r: Option<nat>)
    ensures r.Some? ==> r.value < n
  {
    ResolveIndex(n, TopK(posRatio, n))
  }

  /** The subscript fails on no scores and on a ratio of 1 or more, and
      reads position top_k itself whenever the ratio lies in [0, 1). */
  lemma TopKIndexCases(posRatio: real, n: nat)
    ensures n == 0 ==> TopKIndex(posRatio, n) == None
    ensures 1.0 <= posRatio ==> TopKIndex(posRatio, n) == None
    ensures 0.0 <= posRatio < 1.0 && 0 < n ==>
      0 <= TopK(posRatio, n) < n && TopKIndex(posRatio, n) == Some(TopK(posRatio, n))
  {
    var x := posRatio * n as real;
    if 1.0 <= posRatio {
      ProductSigns(posRatio - 1.0, n as real);
      assert (posRatio - 1.0) * n as real == x - n as real;
    }
    if 0.0 <= posRatio < 1.0 && 0 < n {
      ProductSigns(1.0 - posRatio, n as real);
      assert (1.0 - posRatio) * n as real == n as real - x;
    }
  }

  lemma ProductSigns(a: real, b: real)
    ensures 0.0 <= a && 0.0 <= b ==> 0.0 <= a * b
    ensures 0.0 < a && 0.0 < b ==> 0.0 < a * b
  {
  }

  /** The score at descending rank top_k, or None on IndexError. */
  function TopKScore(posRatio: real, scores: seq<real>): (r: Option<real>)
    ensures r.Some? <==> TopKIndex(posRatio, |scores|).Some?
    ensures r.Some? ==> r.value in multiset(scores)
  {
    match TopKIndex(posRatio, |scores|)
    case None => None
    case Some(k) =>
      var sorted := SortDesc(scores);
      assert sorted[k] in multiset(sorted);
      Some(sorted[k])
  }

  /** Labelling the scores at the top_k threshold yields at most as many
      ones as the resolved rank (top_k, or n + top_k for a negative top_k),
      and exactly that many when no two scores tie. */
  lemma TopKLabelsCount(posRatio: real, scores: seq<real>)
    requires TopKIndex(posRatio, |scores|).Some?
    ensures CountOnes(Labels(scores, TopKScore(posRatio, scores).value))
      <= TopKIndex(posRatio, |scores|).value
    ensures NoTies(scores) ==>
              CountOnes(Labels(scores, TopKScore(posRatio, scores).value))
              == TopKIndex(posRatio, |scores|).value
  {
    var k := TopKIndex(posRatio, |scores|).value;
    var t := SortDesc(scores)[k];
    assert t == TopKScore(posRatio, scores).value;
    LabelsCount(scores, t);
    TopKCountBound(scores, k);
    if NoTies(scores) {
      TopKCountExact(scores, k);
    }
  }

  /** `get_prediction(pos_ratio, scores)`: a 0/1 label per score, 1 only
      for scores strictly above the score at descending rank top_k. */
  method GetPrediction(posRatio: real, scores: seq<real>) returns (r: Result<seq<int>>)
    ensures r.IndexError? <==> TopKIndex(posRatio, |scores|).None?
    ensures r.Ok? ==> |r.value| == |scores|
    ensures r.Ok? ==> forall i :: 0 <= i < |scores| ==> r.value[i] == 0 || r.value[i] == 1
    ensures r.Ok? ==> forall i :: 0 <= i < |scores| ==>
      (r.value[i] == 1 <==> scores[i] > TopKScore(posRatio, scores).value)
    ensures r.Ok? ==> CountOnes(r.value) <= TopKIndex(posRatio, |scores|).value
    ensures r.Ok? && NoTies(scores) ==> CountOnes(r.value) == TopKIndex(posRatio, |scores|).value
  {
    var topK := TopK(posRatio, |scores|);
    var index := ResolveIndex(|scores|, topK);
    assert index == TopKIndex(posRatio, |scores|);
    if index.None? {
      return IndexError;
    }
    var topKScore := TopKScore(posRatio, scores).value;
    var predictions: seq<int> := [];
    var i := 0;
    while i < |scores|
      invariant 0 <= i <= |scores|
      invariant |predictions| == i
      invariant forall j :: 0 <= j < i ==> predictions[j] == (if scores[j] > topKScore then 1 else 0)
    {
      if scores[i] > topKScore {
        predictions := predictions + [1];
      } else {
        predictions := predictions + [0];
      }
      i := i + 1;
    }
    LabelsPointwise(scores, topKScore, predictions);
    PredictionsAtThreshold(posRatio, scores, predictions);
    r := Ok(predictions);
  }

  /** The labels at the top_k threshold: 0/1, 1 exactly above it, and as
      many 1s as TopKLabelsCount allows. */
  lemma PredictionsAtThreshold(posRatio: real, scores: seq<real>, p: seq<int>)
    requires TopKIndex(posRatio, |scores|).Some?
    requires p == Labels(scores, TopKScore(posRatio, scores).value)
    ensures |p| == |scores|
    ensures forall i :: 0 <= i < |scores| ==> p[i] == 0 || p[i] == 1
    ensures forall i :: 0 <= i < |scores| ==> (p[i] == 1 <==> scores[i] > TopKScore(posRatio, scores).value)
    ensures CountOnes(p) <= TopKIndex(posRatio, |scores|).value
    ensures NoTies(scores) ==> CountOnes(p) == TopKIndex(posRatio, |scores|).value
  {
    TopKLabelsCount(posRatio, scores);
  }

  /** `get_rnn_dataset(xs, ys, length)`: every run of `length` consecutive
      rows, and the labels from row length-1 on, each as a one-element row. */
  method GetRnnDataset<X, Y>(xs: seq<X>, ys: seq<Y>, length: nat)
    returns (windows: seq<seq<X>>, labels: seq<seq<Y>>)
    requires 1 <= length
    ensures |windows| == Max(0, |xs| - length + 1)
    ensures forall i :: 0 <= i < |windows| ==> windows[i] == xs[i..i + length]
    ensures forall i :: 0 <= i < |windows| ==> windows[i][length - 1] == xs[i + length - 1]
    ensures |labels| == Max(0, |ys| - length + 1)
    ensures forall i :: 0 <= i < |labels| ==> labels[i] == [ys[i + length - 1]]
    ensures |xs| == |ys| ==> |labels| == |windows|
  {
    windows := [];
    var i := 0;
    while i < |xs| - length + 1
      invariant 0 <= i <= Max(0, |xs| - length + 1)
      invariant |windows| == i
      invariant forall j :: 0 <= j < i ==> windows[j] == xs[j..j + length]
    {
      windows := windows + [xs[i..i + length]];
      i := i + 1;
    }
    var tail := Slice(ys, length - 1, |ys|);
    labels := seq(|tail|, k requires 0 <= k < |tail| => [tail[k]]);
  }

  /** `get_regression_file_path()`. */
  function RegressionFilePath(): (p: string)
    ensures p == "output/regression.csv"
  {
    PosixPath.Join("output", "regression.csv")
  }

  /** `get_classification_file_path()`. */
  function ClassificationFilePath(): (p: string)
    ensures p == "output/classification.csv"
  {
    PosixPath.Join("output", "classification.csv")
  }
}

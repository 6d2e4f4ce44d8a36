/** The original routines of app/simulation.py: label binarisation, the
    walk-forward batch scheme of `sequential`, the time-decay sample
    weights and the report paths. */
module AppSimulation {
  import opened PyBuiltins
  import opened Ranking
  import PosixPath

  /* ---------------- time-decay weights ---------------- */

  /** `math.pow(r, n)` for a natural exponent, over exact reals; a power
      of a non-negative base is non-negative. */
  function Pow(r: real, n: nat): (p: real)
    ensures 0.0 <= r ==> 0.0 <= p
  {
    if n == 0 then 1.0 else r * Pow(r, n - 1)
  }

  /** `get_weights(ys, decay_ratio)`: the powers decay_ratio^0 .. ^(n-1),
      reversed, so that the oldest row gets the largest exponent and the
      newest row the exponent 0. */
  function GetWeights<T>(ys: seq<T>, decayRatio: real): (w: seq<real>)
    ensures |w| == |ys|
  {
    Reversed(seq(|ys|, i requires 0 <= i < |ys| => Pow(decayRatio, i)))
  }

  /** Row j of n is weighted decay_ratio^(n-1-j); the newest row weighs 1. */
  lemma WeightsAt<T>(ys: seq<T>, decayRatio: real)
    ensures forall j :: 0 <= j < |ys| ==> GetWeights(ys, decayRatio)[j] == Pow(decayRatio, |ys| - 1 - j)
    ensures |ys| > 0 ==> GetWeights(ys, decayRatio)[|ys| - 1] == 1.0
  {
  }

  lemma {:induction false} PowBounds(r: real, n: nat)
    requires 0.0 <= r <= 1.0
    ensures 0.0 <= Pow(r, n) <= 1.0
  {
    if n > 0 {
      PowBounds(r, n - 1);
      var p := Pow(r, n - 1);
      assert Pow(r, n) == r * p;
      assert r * p <= 1.0 * p;
    }
  }

  lemma {:induction false} PowPositive(r: real, n: nat)
    requires 0.0 < r
    ensures 0.0 < Pow(r, n)
  {
    if n > 0 {
      PowPositive(r, n - 1);
    }
  }

  /** A ratio in [0, 1] gives powers that shrink as the exponent grows. */
  lemma {:induction false} PowAntitone(r: real, n: nat, m: nat)
    requires 0.0 <= r <= 1.0 && n <= m
    ensures Pow(r, m) <= Pow(r, n)
  {
    if n < m {
      PowAntitone(r, n, m - 1);
      PowBounds(r, m - 1);
      var p := Pow(r, m - 1);
      assert Pow(r, m) == r * p;
      assert r * p <= 1.0 * p;
    }
  }

  /** With a decay ratio in [0, 1], weights never decrease toward the
      newest row and never exceed the newest row's weight 1. */
  lemma WeightsNondecreasing<T>(ys: seq<T>, decayRatio: real)
    requires 0.0 <= decayRatio <= 1.0
    ensures forall i, j :: 0 <= i <= j < |ys| ==>
              0.0 <= GetWeights(ys, decayRatio)[i] <= GetWeights(ys, decayRatio)[j] <= 1.0
  {
    var w := GetWeights(ys, decayRatio);
    WeightsAt(ys, decayRatio);
    forall i, j | 0 <= i <= j < |ys|
      ensures 0.0 <= w[i] <= w[j] <= 1.0
    {
      PowAntitone(decayRatio, |ys| - 1 - j, |ys| - 1 - i);
      PowBounds(decayRatio, |ys| - 1 - i);
      PowBounds(decayRatio, |ys| - 1 - j);
    }
  }

  /** A positive decay ratio gives every row a positive weight. */
  lemma WeightsPositive<T>(ys: seq<T>, decayRatio: real)
    requires 0.0 < decayRatio
    ensures forall j :: 0 <= j < |ys| ==> 0.0 < GetWeights(ys, decayRatio)[j]
  {
    WeightsAt(ys, decayRatio);
    forall j | 0 <= j < |ys|
      ensures 0.0 < GetWeights(ys, decayRatio)[j]
    {
      PowPositive(decayRatio, |ys| - 1 - j);
    }
  }

  lemma {:induction false} PowOne(n: nat)
    ensures Pow(1.0, n) == 1.0
  {
    if n > 0 {
      PowOne(n - 1);
    }
  }

  /** A decay ratio of 1 weights every row equally. */
  lemma WeightsWithoutDecay<T>(ys: seq<T>)
    ensures forall j :: 0 <= j < |ys| ==> GetWeights(ys, 1.0)[j] == 1.0
  {
    WeightsAt(ys, 1.0);
    forall j | 0 <= j < |ys|
      ensures GetWeights(ys, 1.0)[j] == 1.0
    {
      PowOne(|ys| - 1 - j);
    }
  }

  /* ---------------- walk-forward batches ---------------- */

  /** `int(math.ceil(test_size / float(n_batch_prediction)))`: the fewest
      batches of the given size that hold the whole test segment. */
  function NumBatches(testSize: nat, batchSize: nat): (n: nat)
    requires 0 < batchSize
    ensures testSize <= n * batchSize
    ensures n == 0 || (n - 1) * batchSize < testSize
  {
    var n := (testSize + batchSize - 1) / batchSize;
    assert n * batchSize + (testSize + batchSize - 1) % batchSize == testSize + batchSize - 1;
    n
  }

  lemma {:induction false} MulMonotone(b: nat, x: nat, y: nat)
    requires x <= y
    ensures b * x <= b * y
  {
    if x < y {
      MulMonotone(b, x, y - 1);
      assert b * y == b * (y - 1) + b;
    }
  }

  lemma MulDistributes(b: nat, i: nat)
    ensures b * (i + 1) == b * i + b
  {
  }

  lemma MulCommutes(a: nat, b: nat)
    ensures a * b == b * a
  {
  }

  lemma DivBounds(j: nat, b: nat)
    requires 0 < b
    ensures b * (j / b) <= j < b * (j / b) + b
  {
  }

  lemma MulCancelLess(b: nat, x: nat, y: nat)
    requires b * x < b * y
    ensures x < y
  {
    if y <= x {
      MulMonotone(b, y, x);
      assert false;
    }
  }

  /** A half-open range of row positions [lo, hi). */
  datatype Span = Span(lo: nat, hi: nat)

  function Rows(sp: Span): (r: seq<nat>)
    ensures |r| == Max(0, sp.hi - sp.lo)
    ensures forall k :: 0 <= k < |r| ==> r[k] == sp.lo + k
  {
    if sp.lo < sp.hi then seq(sp.hi - sp.lo, k => sp.lo + k) else []
  }

  /** `xs[:batch_train_index]` for batch i, clamped like a slice. */
  function TrainSpan(nRows: nat, nTrain: nat, batchSize: nat, i: nat): (r: Span)
    ensures r.lo == 0 && r.hi <= nRows
    ensures nTrain + batchSize * i <= nRows ==> r.hi == nTrain + batchSize * i
    ensures nRows < nTrain + batchSize * i ==> r.hi == nRows
  {
    Span(0, Min(nTrain + batchSize * i, nRows))
  }

  /** `xs[batch_train_index:batch_test_index]` for batch i, clamped like a slice. */
  function TestSpan(nRows: nat, nTrain: nat, batchSize: nat, i: nat): (r: Span)
    ensures r.lo <= r.hi <= nRows && r.hi - r.lo <= batchSize
    ensures nTrain + batchSize * i + batchSize <= nRows ==>
              r == Span(nTrain + batchSize * i, nTrain + batchSize * i + batchSize)
    ensures nTrain + batchSize * i <= nRows ==>
              r == Span(nTrain + batchSize * i, Min(nTrain + batchSize * i + batchSize, nRows))
    ensures nRows <= nTrain + batchSize * i ==> r.lo == r.hi == nRows
  {
    var start := nTrain + batchSize * i;
    Span(Min(start, nRows), Min(start + batchSize, nRows))
  }

  /** Every batch that runs starts inside the test segment. */
  lemma BatchStartsInside(testSize: nat, batchSize: nat, i: nat)
    requires 0 < batchSize && i < NumBatches(testSize, batchSize)
    ensures batchSize * i < testSize
  {
    var n := NumBatches(testSize, batchSize);
    assert batchSize * i <= batchSize * (n - 1);
  }

  /** The batches together hold at least the whole test segment. */
  lemma AllBatchesFill(testSize: nat, batchSize: nat)
    requires 0 < batchSize
    ensures Min(batchSize * NumBatches(testSize, batchSize), testSize) == testSize
  {
    var n := NumBatches(testSize, batchSize);
    assert batchSize * n == n * batchSize;
  }

  /** Batch i + 1's test rows start where batch i's end. */
  lemma TestSpansContiguous(nRows: nat, nTrain: nat, batchSize: nat, i: nat)
    ensures TestSpan(nRows, nTrain, batchSize, i).hi == TestSpan(nRows, nTrain, batchSize, i + 1).lo
  {
    assert batchSize * (i + 1) == batchSize * i + batchSize;
  }

  /** Test rows of different batches never overlap. */
  lemma TestSpansDisjoint(nRows: nat, nTrain: nat, batchSize: nat, i: nat, j: nat)
    requires i < j
    ensures TestSpan(nRows, nTrain, batchSize, i).hi <= TestSpan(nRows, nTrain, batchSize, j).lo
    ensures forall a, b ::
              (a in Rows(TestSpan(nRows, nTrain, batchSize, i)) && b in Rows(TestSpan(nRows, nTrain, batchSize, j)))
              ==> a < b
  {
    MulMonotone(batchSize, i + 1, j);
    MulDistributes(batchSize, i);
  }

  /** No look-ahead: batch i trains on a prefix that ends exactly where its
      test rows begin, and the prefix grows by one batch per batch. */
  lemma NoLookAhead(testSize: nat, nTrain: nat, batchSize: nat, i: nat)
    requires 0 < batchSize && i < NumBatches(testSize, batchSize)
    ensures var nRows := nTrain + testSize;
            var train := TrainSpan(nRows, nTrain, batchSize, i);
            var test := TestSpan(nRows, nTrain, batchSize, i);
            train.lo == 0 && train.hi == test.lo < test.hi
            && train.hi == nTrain + batchSize * i
            && (forall a, b :: a in Rows(train) && b in Rows(test) ==> a < b)
  {
    BatchStartsInside(testSize, batchSize, i);
  }

  /** The training prefix grows by the batch size from one batch to the next. */
  lemma TrainPrefixGrows(testSize: nat, nTrain: nat, batchSize: nat, i: nat)
    requires 0 < batchSize && i + 1 < NumBatches(testSize, batchSize)
    ensures var nRows := nTrain + testSize;
            TrainSpan(nRows, nTrain, batchSize, i + 1).hi
            == TrainSpan(nRows, nTrain, batchSize, i).hi + batchSize
  {
    BatchStartsInside(testSize, batchSize, i + 1);
    assert batchSize * (i + 1) == batchSize * i + batchSize;
  }

  /** The test rows of batches 0 .. m-1, in batch order. */
  function TestRows(nRows: nat, nTrain: nat, batchSize: nat, m: nat): seq<nat>
  {
    if m == 0 then [] else TestRows(nRows, nTrain, batchSize, m - 1) + Rows(TestSpan(nRows, nTrain, batchSize, m - 1))
  }

  lemma RowsConcat(lo: nat, mid: nat, hi: nat)
    requires lo <= mid <= hi
    ensures Rows(Span(lo, mid)) + Rows(Span(mid, hi)) == Rows(Span(lo, hi))
  {
    var a, b := Rows(Span(lo, mid)), Rows(Span(mid, hi));
    forall k | 0 <= k < hi - lo
      ensures (a + b)[k] == lo + k
    {
      if k >= |a| {
        assert (a + b)[k] == b[k - |a|];
      }
    }
  }

  lemma {:induction false} TestRowsPrefix(nRows: nat, nTrain: nat, batchSize: nat, m: nat)
    requires nTrain <= nRows
    ensures TestRows(nRows, nTrain, batchSize, m) == Rows(Span(nTrain, Min(nTrain + batchSize * m, nRows)))
  {
    if m > 0 {
      TestRowsPrefix(nRows, nTrain, batchSize, m - 1);
      var start := nTrain + batchSize * (m - 1);
      assert batchSize * m == batchSize * (m - 1) + batchSize;
      assert TestSpan(nRows, nTrain, batchSize, m - 1) == Span(Min(start, nRows), Min(start + batchSize, nRows));
      RowsConcat(nTrain, Min(start, nRows), Min(start + batchSize, nRows));
    }
  }

  /** Coverage: the batches' test rows, concatenated, are exactly the rows
      n_train .. n_train + test_size, each once and in order. */
  lemma BatchesCoverTestSegment(testSize: nat, nTrain: nat, batchSize: nat)
    requires 0 < batchSize
    ensures var rows := TestRows(nTrain + testSize, nTrain, batchSize, NumBatches(testSize, batchSize));
            |rows| == testSize && forall k :: 0 <= k < testSize ==> rows[k] == nTrain + k
  {
    var n := NumBatches(testSize, batchSize);
    TestRowsPrefix(nTrain + testSize, nTrain, batchSize, n);
  }

  /** The end of the training prefix of the batch that scores test row j. */
  function TrainEnd(nTrain: nat, batchSize: nat, j: nat): nat
    requires 0 < batchSize
  {
    nTrain + batchSize * (j / batchSize)
  }

  lemma BatchOfRow(batchSize: nat, i: nat, j: nat)
    requires 0 < batchSize && batchSize * i <= j < batchSize * i + batchSize
    ensures j / batchSize == i
  {
    var q := j / batchSize;
    assert batchSize * q <= j < batchSize * q + batchSize;
    assert batchSize * (i + 1) == batchSize * i + batchSize;
    assert batchSize * (q + 1) == batchSize * q + batchSize;
    MulCancelLess(batchSize, q, i + 1);
    MulCancelLess(batchSize, i, q + 1);
  }

  /** Test row j is scored by batch j / batch size, whose training prefix
      ends at or before the row and at most one batch before it. */
  lemma ScoredRowSeesOnlyThePast(testSize: nat, nTrain: nat, batchSize: nat, j: nat)
    requires 0 < batchSize && j < testSize
    ensures var i := j / batchSize;
            i < NumBatches(testSize, batchSize)
            && nTrain + j in Rows(TestSpan(nTrain + testSize, nTrain, batchSize, i))
            && TrainSpan(nTrain + testSize, nTrain, batchSize, i).hi == TrainEnd(nTrain, batchSize, j)
            && TrainEnd(nTrain, batchSize, j) <= nTrain + j < TrainEnd(nTrain, batchSize, j) + batchSize
  {
    var i := j / batchSize;
    var n := NumBatches(testSize, batchSize);
    DivBounds(j, batchSize);
    MulCommutes(n, batchSize);
    MulCancelLess(batchSize, i, n);
    var test := TestSpan(nTrain + testSize, nTrain, batchSize, i);
    assert Rows(test)[j - batchSize * i] == nTrain + j;
  }

  /** The score `sequential` gives test row j: the model trained on the
      training prefix of batch j / batch size, with its labels and decay
      weights. */
  function RowScore(ys: seq<int>, nTrain: nat, batchSize: nat, decayRatio: real,
                    score: (seq<int>, seq<real>, nat) -> real, j: nat): real
    requires 0 < batchSize
  {
    var train := TrainSpan(|ys|, nTrain, batchSize, j / batchSize);
    var trainYs := Slice(ys, train.lo, train.hi);
    score(trainYs, GetWeights(trainYs, decayRatio), nTrain + j)
  }

  /** One batch of `sequential`: the rows from batch_train_index up to
      batch_test_index (clamped like a slice), each scored by the model
      trained on the labels and decay weights of the rows before them. */
  function BatchScores(ys: seq<int>, nTrain: nat, batchSize: nat, decayRatio: real,
                       score: (seq<int>, seq<real>, nat) -> real, i: nat): (r: seq<real>)
    requires 0 < batchSize
    ensures |r| == Max(0, Min(nTrain + batchSize * i + batchSize, |ys|) - Min(nTrain + batchSize * i, |ys|))
    ensures forall j :: batchSize * i <= j < batchSize * i + |r| ==>
              r[j - batchSize * i] == RowScore(ys, nTrain, batchSize, decayRatio, score, j)
  {
    var train := TrainSpan(|ys|, nTrain, batchSize, i);
    var batchTrainYs := Slice(ys, train.lo, train.hi);
    var batchTrainWeights := GetWeights(batchTrainYs, decayRatio);
    var batchTestRows := Rows(TestSpan(|ys|, nTrain, batchSize, i));
    BatchRowsScoredByBatch(ys, nTrain, batchSize, decayRatio, score, i, |batchTestRows|);
    seq(|batchTestRows|, k requires 0 <= k < |batchTestRows| =>
          score(batchTrainYs, batchTrainWeights, batchTestRows[k]))
  }

  lemma BatchRowsScoredByBatch(ys: seq<int>, nTrain: nat, batchSize: nat, decayRatio: real,
                               score: (seq<int>, seq<real>, nat) -> real, i: nat, m: nat)
    requires 0 < batchSize && m <= batchSize
    ensures forall j :: batchSize * i <= j < batchSize * i + m ==>
              var train := TrainSpan(|ys|, nTrain, batchSize, i);
              var trainYs := Slice(ys, train.lo, train.hi);
              RowScore(ys, nTrain, batchSize, decayRatio, score, j)
              == score(trainYs, GetWeights(trainYs, decayRatio), nTrain + j)
  {
    forall j | batchSize * i <= j < batchSize * i + m
      ensures j / batchSize == i
    {
      BatchOfRow(batchSize, i, j);
    }
  }

  /** `sequential`'s batch loop for one label and one parameter pair:
      binarise the raw label column, then walk forward over the last
      test_size rows in batches, training on all rows before each batch
      (weighted by `get_weights`) and scoring the batch; `score(trainYs,
      weights, row)` stands for the model trained on that prefix scoring
      that row. Returns the accumulated scores, their 0.5 cut, and the
      test labels they are evaluated against. */
  method Sequential(raw: seq<real>, testSize: nat, batchSize: nat, decayRatio: real,
                    score: (seq<int>, seq<real>, nat) -> real)
    returns (scores: seq<real>, predictions: seq<int>, testYs: seq<int>)
    requires 0 < batchSize && testSize <= |raw|
    ensures var ys := Labels(raw, 0.0);
            testYs == ys[|raw| - testSize..]
    ensures |scores| == |predictions| == |testYs| == testSize
    ensures forall j :: 0 <= j < testSize ==>
              scores[j] == RowScore(Labels(raw, 0.0), |raw| - testSize, batchSize, decayRatio, score, j)
    ensures predictions == Labels(scores, 0.5)
    ensures forall j :: 0 <= j < testSize ==> (predictions[j] == 1 <==> scores[j] > 0.5)
  {
    var ys := Labels(raw, 0.0);
    var nTrain := |raw| - testSize;
    testYs := ys[nTrain..];
    scores, predictions := [], [];
    var nBatch := NumBatches(testSize, batchSize);
    var i := 0;
    while i < nBatch
      invariant 0 <= i <= nBatch
      invariant |scores| == Min(batchSize * i, testSize)
      invariant forall j :: 0 <= j < |scores| ==>
                  scores[j] == RowScore(ys, nTrain, batchSize, decayRatio, score, j)
      invariant predictions == Labels(scores, 0.5)
    {
      var batchScores := BatchScores(ys, nTrain, batchSize, decayRatio, score, i);
      var batchPredictions := Labels(batchScores, 0.5);
      AppendBatch(ys, nTrain, batchSize, decayRatio, score, i, scores);
      LabelsAppend(scores, batchScores, 0.5);
      scores := scores + batchScores;
      predictions := predictions + batchPredictions;
      i := i + 1;
    }
    AllBatchesFill(testSize, batchSize);
  }

  /** Appending batch i's scores to those of batches 0 .. i-1 gives the
      scores of batches 0 .. i. */
  lemma AppendBatch(ys: seq<int>, nTrain: nat, batchSize: nat, decayRatio: real,
                    score: (seq<int>, seq<real>, nat) -> real, i: nat, scores: seq<real>)
    requires 0 < batchSize && nTrain <= |ys|
    requires i < NumBatches(|ys| - nTrain, batchSize)
    requires |scores| == Min(batchSize * i, |ys| - nTrain)
    requires forall j :: 0 <= j < |scores| ==>
               scores[j] == RowScore(ys, nTrain, batchSize, decayRatio, score, j)
    ensures var next := scores + BatchScores(ys, nTrain, batchSize, decayRatio, score, i);
            |next| == Min(batchSize * (i + 1), |ys| - nTrain)
            && forall j :: 0 <= j < |next| ==>
                 next[j] == RowScore(ys, nTrain, batchSize, decayRatio, score, j)
  {
    var batchScores := BatchScores(ys, nTrain, batchSize, decayRatio, score, i);
    BatchStartsInside(|ys| - nTrain, batchSize, i);
    assert batchSize * (i + 1) == batchSize * i + batchSize;
    var next := scores + batchScores;
    forall j | 0 <= j < |next|
      ensures next[j] == RowScore(ys, nTrain, batchSize, decayRatio, score, j)
    {
      if j >= |scores| {
        assert next[j] == batchScores[j - batchSize * i];
      }
    }
  }

  /* ---------------- report paths ---------------- */

  /** The report directory: `output/report` in production, else `output/exp`. */
  function ReportDir(isProduction: bool): (d: string)
    ensures |d| > 7 && d[..7] == "output/"
    ensures !PosixPath.EndsWithSep(d)
  {
    if isProduction then "output/report" else "output/exp"
  }

  /** `get_regression_file_path(asset, is_production)`. */
  function RegressionFilePath(asset: string, isProduction: bool): (p: string)
    ensures |p| >= 15 && p[|p| - 15..] == "_regression.csv"
  {
    PosixPath.Join(ReportDir(isProduction), asset + "_regression.csv")
  }

  /** `get_classification_file_path(asset, label_name, is_production)`. */
  function ClassificationFilePath(asset: string, labelName: string, isProduction: bool): (p: string)
    ensures |p| >= 19 && p[|p| - 19..] == "_classification.csv"
  {
    PosixPath.Join(ReportDir(isProduction), asset + "_" + labelName + "_classification.csv")
  }

  /** `get_sequential_file_path(asset, is_production)`. */
  function SequentialFilePath(asset: string, isProduction: bool): (p: string)
    ensures |p| >= 15 && p[|p| - 15..] == "_sequential.csv"
  {
    PosixPath.Join(ReportDir(isProduction), asset + "_sequential.csv")
  }

  /** The regression report is the file `{asset}_regression.csv` in the
      report directory, for any asset name without a separator. */
  lemma RegressionPathSplit(asset: string, isProduction: bool)
    requires '/' !in asset
    ensures PosixPath.Split(RegressionFilePath(asset, isProduction))
         == (if isProduction then "output/report" else "output/exp", asset + "_regression.csv")
  {
    PosixPath.SplitJoin(ReportDir(isProduction), asset + "_regression.csv");
  }

  /** The classification report is `{asset}_{label}_classification.csv` in
      the report directory. */
  lemma ClassificationPathSplit(asset: string, labelName: string, isProduction: bool)
    requires '/' !in asset && '/' !in labelName
    ensures PosixPath.Split(ClassificationFilePath(asset, labelName, isProduction))
         == (if isProduction then "output/report" else "output/exp",
             asset + "_" + labelName + "_classification.csv")
  {
    PosixPath.SplitJoin(ReportDir(isProduction), asset + "_" + labelName + "_classification.csv");
  }

  /** The sequential report is `{asset}_sequential.csv` in the report directory. */
  lemma SequentialPathSplit(asset: string, isProduction: bool)
    requires '/' !in asset
    ensures PosixPath.Split(SequentialFilePath(asset, isProduction))
         == (if isProduction then "output/report" else "output/exp", asset + "_sequential.csv")
  {
    PosixPath.SplitJoin(ReportDir(isProduction), asset + "_sequential.csv");
  }

  lemma SuffixCancel(a: string, b: string, suffix: string)
    requires a + suffix == b + suffix
    ensures a == b
  {
    assert a == (a + suffix)[..|a|];
    assert b == (b + suffix)[..|b|];
  }

  /** Two runs write the same regression report only for the same asset
      and the same mode. */
  lemma RegressionPathsDistinct(asset1: string, asset2: string, prod1: bool, prod2: bool)
    requires '/' !in asset1 && '/' !in asset2
    requires RegressionFilePath(asset1, prod1) == RegressionFilePath(asset2, prod2)
    ensures asset1 == asset2 && prod1 == prod2
  {
    RegressionPathSplit(asset1, prod1);
    RegressionPathSplit(asset2, prod2);
    assert "output/report" != "output/exp";
    SuffixCancel(asset1, asset2, "_regression.csv");
  }

  /** Two runs write the same sequential report only for the same asset
      and the same mode. */
  lemma SequentialPathsDistinct(asset1: string, asset2: string, prod1: bool, prod2: bool)
    requires '/' !in asset1 && '/' !in asset2
    requires SequentialFilePath(asset1, prod1) == SequentialFilePath(asset2, prod2)
    ensures asset1 == asset2 && prod1 == prod2
  {
    SequentialPathSplit(asset1, prod1);
    SequentialPathSplit(asset2, prod2);
    assert "output/report" != "output/exp";
    SuffixCancel(asset1, asset2, "_sequential.csv");
  }

  lemma UnderscoreJoinAt(a: string, l: string)
    ensures (a + "_" + l)[|a|] == '_'
    ensures forall k :: 0 <= k < |a| ==> (a + "_" + l)[k] == a[k] && a[k] in a
  {
  }

  /** `{asset}_{label}` determines asset and label when the asset name
      holds no underscore. */
  lemma UnderscoreJoinInjective(a1: string, l1: string, a2: string, l2: string)
    requires '_' !in a1 && '_' !in a2
    requires a1 + "_" + l1 == a2 + "_" + l2
    ensures a1 == a2 && l1 == l2
  {
    var n1, n2 := a1 + "_" + l1, a2 + "_" + l2;
    UnderscoreJoinAt(a1, l1);
    UnderscoreJoinAt(a2, l2);
    if |a1| < |a2| {
      assert false;
    } else if |a2| < |a1| {
      assert false;
    }
    assert a1 == n1[..|a1|] && a2 == n2[..|a2|];
    assert l1 == n1[|a1| + 1..] && l2 == n2[|a2| + 1..];
  }

  /** Classification reports of different (asset, label, mode) triples are
      different files, provided asset names hold no underscore. */
  lemma ClassificationPathsDistinct(asset1: string, label1: string, asset2: string, label2: string,
                                    prod1: bool, prod2: bool)
    requires '/' !in asset1 && '/' !in asset2 && '/' !in label1 && '/' !in label2
    requires '_' !in asset1 && '_' !in asset2
    requires ClassificationFilePath(asset1, label1, prod1) == ClassificationFilePath(asset2, label2, prod2)
    ensures asset1 == asset2 && label1 == label2 && prod1 == prod2
  {
    ClassificationPathSplit(asset1, label1, prod1);
    ClassificationPathSplit(asset2, label2, prod2);
    assert "output/report" != "output/exp";
    SuffixCancel(asset1 + "_" + label1, asset2 + "_" + label2, "_classification.csv");
    UnderscoreJoinInjective(asset1, label1, asset2, label2);
  }

  /** Without that proviso two classification reports can share a file:
      asset `a_b` with label `c`, and asset `a` with label `b_c`. */
  lemma ClassificationPathsCanCollide()
    ensures ClassificationFilePath("a_b", "c", false) == ClassificationFilePath("a", "b_c", false)
  {
  }
}

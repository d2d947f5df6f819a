/** The windowed datasets of the forecasting pipeline: the train/test cut,
    the (window, next value) training pairs and the test windows whose
    predictions are compared with the held-out rows. */
module Windowing {
  import opened Base
  import opened PipelineErrors
  import opened Scaling
  import opened Training

  /** The window length every windowing function defaults to. */
  const DefaultWindow: nat := 60

  function Ceil(x: real): (r: int)
    ensures r as real - 1.0 < x <= r as real
  {
    -((-x).Floor)
  }

  /** `split_num`: the number of training rows, ceil(n * size). */
  function SplitNum(n: nat, size: real): (r: int)
    ensures r as real - 1.0 < n as real * size <= r as real
    ensures 0.0 <= size <= 1.0 ==> 0 <= r <= n
  {
    var r := Ceil(n as real * size);
    assert 0.0 <= size <= 1.0 ==> 0.0 <= n as real * size <= n as real by {
      if 0.0 <= size <= 1.0 {
        assert n as real * size <= n as real * 1.0;
        assert n as real * size >= n as real * 0.0;
      }
    }
    r
  }

  /** `make_datasets`: only the Close column goes on into the pipeline. */
  function MakeDatasets(rows: seq<Bar>): (r: seq<real>)
    ensures |r| == |rows| && forall i :: 0 <= i < |rows| ==> r[i] == rows[i].close
  {
    Closes(rows)
  }

  /** How many training pairs `train_data` yields: one per training row that
      has a full window before it. */
  function PairCount(n: nat, trainLen: nat, window: nat): nat
  {
    if Min(trainLen, n) > window then Min(trainLen, n) - window else 0
  }

  /** The training pairs for a cut at `trainLen`: pair k has input
      scaled[k .. k+window) and label scaled[k+window], and every index it
      reads is a training row. */
  ghost predicate IsTrainingSet(scaled: seq<real>, trainLen: nat, window: nat,
                                xs: seq<seq<real>>, ys: seq<real>)
  {
    && |xs| == PairCount(|scaled|, trainLen, window)
    && |ys| == |xs|
    && forall k :: 0 <= k < |xs| ==>
         && k + window < Min(trainLen, |scaled|)
         && xs[k] == scaled[k..k + window]
         && ys[k] == scaled[k + window]
  }

  /** `train_data`. */
  method TrainData(scaled: seq<real>, trainLen: nat, window: nat)
    returns (xTrain: seq<seq<real>>, yTrain: seq<real>)
    ensures IsTrainingSet(scaled, trainLen, window, xTrain, yTrain)
  {
    var train := scaled[..Min(trainLen, |scaled|)];
    xTrain, yTrain := [], [];
    var i := window;
    while i < |train|
      invariant i == window || window <= i <= |train|
      invariant |xTrain| == |yTrain| == i - window
      invariant forall k :: 0 <= k < |xTrain| ==>
        k + window < |train| && xTrain[k] == scaled[k..k + window] && yTrain[k] == scaled[k + window]
    {
      xTrain := xTrain + [scaled[i - window..i]];
      yTrain := yTrain + [scaled[i]];
      i := i + 1;
    }
  }

  datatype TrainingSet = TrainingSet(inputs: seq<seq<real>>, labels: seq<real>)

  /** `preprocessing`: the training pairs, reshaped for the network. With no
      pair the array is one-dimensional and reading its second dimension
      fails. */
  method Preprocessing(trainLen: nat, scaled: seq<real>, window: nat)
    returns (r: Result<TrainingSet, PipelineError>)
    ensures r.Failure? <==> Min(trainLen, |scaled|) <= window
    ensures r.Failure? ==> r.error == NoTrainingWindows
    ensures r.Success? ==> |r.value.inputs| > 0
    ensures r.Success? ==> IsTrainingSet(scaled, trainLen, window, r.value.inputs, r.value.labels)
  {
    var xTrain, yTrain := TrainData(scaled, trainLen, window);
    if |xTrain| == 0 {
      return Failure(NoTrainingWindows);
    }
    r := Success(TrainingSet(xTrain, yTrain));
  }

  /** `test_data`: one window per row after the cut, starting `window` rows
      before it, each predicted and turned back into a price. Without any
      window the reshape fails; a scaler without an inverse fails after
      predicting. */
  method TestData(model: Network, scaled: seq<real>, trainLen: nat, datasets: seq<real>,
                  scaler: Scaler, window: nat)
    returns (r: Result<seq<real>, PipelineError>)
    ensures !(window <= trainLen < |scaled|) ==> r == Failure(NoTestWindows)
    ensures window <= trainLen < |scaled| && scaler.UnitNorm? ==> r == Failure(NoInverse)
    ensures window <= trainLen < |scaled| && scaler.Affine? ==> r.Success?
    ensures r.Success? ==> |r.value| == |scaled| - trainLen
    ensures r.Success? ==>
      forall k :: 0 <= k < |r.value| ==>
        InverseTransform(scaler, model(scaled[trainLen - window + k..trainLen + k])) == Some(r.value[k])
    ensures r.Success? && |datasets| == |scaled| ==> |r.value| == |datasets[trainLen..]|
  {
    var test := SliceFrom(scaled, trainLen - window);
    var xTest: seq<seq<real>> := [];
    var i := window;
    while i < |test|
      invariant i == window || window <= i <= |test|
      invariant |xTest| == i - window
      invariant forall k :: 0 <= k < |xTest| ==> xTest[k] == test[k..k + window]
    {
      xTest := xTest + [test[i - window..i]];
      i := i + 1;
    }
    assert |xTest| == if |test| > window then |test| - window else 0;
    if |xTest| == 0 {
      return Failure(NoTestWindows);
    }
    assert trainLen >= window && test == scaled[trainLen - window..];
    if scaler.UnitNorm? {
      return Failure(NoInverse);
    }
    var predictions := seq(|xTest|, k requires 0 <= k < |xTest| =>
      model(xTest[k]) * scaler.spread + scaler.center);
    forall k | 0 <= k < |predictions|
      ensures InverseTransform(scaler, model(scaled[trainLen - window + k..trainLen + k])) == Some(predictions[k])
    {
      assert xTest[k] == scaled[trainLen - window + k..trainLen + k];
      var y := model(xTest[k]);
      assert InverseTransform(scaler, y).Some?;
      assert InverseTransform(scaler, y).value == predictions[k];
    }
    r := Success(predictions);
  }

  /** The example of 300 rows with the defaults: 240 training rows, 180
      training pairs and 60 test rows. */
  lemma DefaultSplitOf300()
    ensures SplitNum(300, 0.8) == 240
    ensures PairCount(300, 240, DefaultWindow) == 180
    ensures 300 - SplitNum(300, 0.8) == 60
  {
  }
}

/** `meramal`: the recursive multi-step forecast. A rolling window of scaled
    closes is fed to the network; each scaled prediction is pushed onto the
    window (dropping its oldest value) and its inverse transform is the
    forecast price of that day. */
module Forecaster {
  import opened Base
  import opened PipelineErrors
  import opened Scaling
  import opened Training

  /** The first window, `scaled_data[-window:]`. numpy reads `-0` as 0, so a
      window of 0 starts from the whole series, as does a window longer than
      the series. */
  function Seed(scaled: seq<real>, window: nat): (r: seq<real>)
    ensures 1 <= window <= |scaled| ==> r == scaled[|scaled| - window..]
    ensures window == 0 || window > |scaled| ==> r == scaled
  {
    SliceFrom(scaled, -(window as int))
  }

  /** One update of the buffer: `np.concatenate((data[1:], predict))`. The
      length is kept and the prediction becomes the newest value. */
  function NextWindow(w: seq<real>, p: real): (r: seq<real>)
    ensures |w| >= 1 ==> |r| == |w|
    ensures |r| >= 1 && r[|r| - 1] == p
  {
    (if |w| == 0 then [] else w[1..]) + [p]
  }

  /** The scaled predictions of `days` steps started from window `w`. */
  function Path(model: Network, w: seq<real>, days: nat): (r: seq<real>)
    ensures |r| == days
    decreases days
  {
    if days == 0 then [] else [model(w)] + Path(model, NextWindow(w, model(w)), days - 1)
  }

  /** The window after `steps` steps started from `w`. */
  function Advance(model: Network, w: seq<real>, steps: nat): seq<real>
    decreases steps
  {
    if steps == 0 then w else Advance(model, NextWindow(w, model(w)), steps - 1)
  }

  /** Step n+1 appends the prediction made on the window reached after n
      steps, and moves that window on by this prediction. */
  lemma {:induction false} PathSnoc(model: Network, w: seq<real>, n: nat)
    ensures Path(model, w, n + 1) == Path(model, w, n) + [model(Advance(model, w, n))]
    ensures Advance(model, w, n + 1) == NextWindow(Advance(model, w, n), model(Advance(model, w, n)))
    decreases n
  {
    if n > 0 {
      PathSnoc(model, NextWindow(w, model(w)), n - 1);
    }
  }

  /** Forecasting further does not change the earlier days: the first k
      values of a d-day forecast are the k-day forecast. */
  lemma {:induction false} PathPrefix(model: Network, w: seq<real>, d: nat, k: nat)
    requires k <= d
    ensures Path(model, w, d)[..k] == Path(model, w, k)
    decreases k
  {
    if k > 0 {
      PathPrefix(model, NextWindow(w, model(w)), d - 1, k - 1);
    }
  }

  /** After k steps the window still has the length it started with, and it
      is the last |w| values of the seed followed by the k scaled
      predictions. */
  lemma {:induction false} WindowIsSuffix(model: Network, w: seq<real>, k: nat)
    requires |w| >= 1
    ensures |Advance(model, w, k)| == |w|
    ensures Advance(model, w, k) == (w + Path(model, w, k))[k..]
    decreases k
  {
    if k > 0 {
      WindowIsSuffix(model, w, k - 1);
      PathSnoc(model, w, k - 1);
      var a, P := Advance(model, w, k - 1), Path(model, w, k - 1);
      var p := model(a);
      assert a[1..] == (w + P)[k..];
      assert (w + P + [p])[k..] == (w + P)[k..] + [p];
    }
  }

  /** The feedback loop: day k's scaled prediction is the network applied
      to the seed extended by days 0..k-1, keeping its last |w| values. */
  lemma Feedback(model: Network, w: seq<real>, d: nat, k: nat)
    requires |w| >= 1 && k < d
    ensures Path(model, w, d)[k] == model((w + Path(model, w, d)[..k])[k..])
  {
    PathPrefix(model, w, d, k + 1);
    PathPrefix(model, w, d, k);
    PathSnoc(model, w, k);
    WindowIsSuffix(model, w, k);
  }

  /** `meramal`. A scaler without an inverse fails on the first day; with no
      day to forecast nothing is predicted and nothing fails. */
  method Meramal(scaled: seq<real>, model: Network, scaler: Scaler, days: int, window: nat)
    returns (r: Result<seq<real>, PipelineError>)
    ensures days > 0 && scaler.UnitNorm? ==> r == Failure(NoInverse)
    ensures days <= 0 || scaler.Affine? ==> r.Success?
    ensures r.Success? ==> |r.value| == if days > 0 then days else 0
    ensures r.Success? ==>
      forall k :: 0 <= k < |r.value| ==>
        InverseTransform(scaler, Path(model, Seed(scaled, window), |r.value|)[k]) == Some(r.value[k])
  {
    var ramalan: seq<real> := [];
    var data := SliceFrom(scaled, -(window as int));
    ghost var seed := data;
    var i := 0;
    while i < days
      invariant 0 <= i && (days >= 0 ==> i <= days) && (days < 0 ==> i == 0)
      invariant scaler.UnitNorm? ==> i == 0
      invariant data == Advance(model, seed, i)
      invariant |ramalan| == i
      invariant forall k :: 0 <= k < i ==> InverseTransform(scaler, Path(model, seed, i)[k]) == Some(ramalan[k])
    {
      var predict := model(data);
      var back := InverseTransform(scaler, predict);
      if back.None? {
        return Failure(NoInverse);
      }
      PathSnoc(model, seed, i);
      ramalan := ramalan + [back.value];
      data := NextWindow(data, predict);
      i := i + 1;
    }
    r := Success(ramalan);
  }

  /** Seeded as `meramal` seeds it, with 1 <= window <= the series length,
      the rolling window keeps exactly `window` values on every step. */
  lemma ForecastWindowLength(model: Network, scaled: seq<real>, window: nat, k: nat)
    requires 1 <= window <= |scaled|
    ensures |Advance(model, Seed(scaled, window), k)| == window
  {
    WindowIsSuffix(model, Seed(scaled, window), k);
  }
}

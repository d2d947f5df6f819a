/** The scaler choice of `scale_data`: a name picks one of four sklearn
    scalers, which is fitted once on the whole closing-price column (test rows
    included) and kept for turning predictions back into prices. */
module Scaling {
  import opened Base
  import opened PipelineErrors

  datatype ScalerKind = MinMaxScaler | StandardScaler | RobustScaler | Normalizer

  /** The name the caller passes for each scaler. */
  function ScalerName(k: ScalerKind): string
  {
    match k
    case MinMaxScaler => "MinMaxScaler"
    case StandardScaler => "StandardScaler"
    case RobustScaler => "RobustScaler"
    case Normalizer => "Normalizer"
  }

  /** The if/elif chain on the scaler name; any other name matches no branch. */
  function ParseScaler(name: string): (r: Option<ScalerKind>)
    ensures r.Some? ==> ScalerName(r.value) == name
    ensures r.None? <==> forall k: ScalerKind :: ScalerName(k) != name
  {
    if name == "MinMaxScaler" then Some(MinMaxScaler)
    else if name == "StandardScaler" then Some(StandardScaler)
    else if name == "RobustScaler" then Some(RobustScaler)
    else if name == "Normalizer" then Some(Normalizer)
    else None
  }

  type NonZero = x: real | x != 0.0 witness 1.0

  /** A fitted scaler on a single column. MinMaxScaler, StandardScaler and
      RobustScaler all map x to (x - center) / spread; Normalizer scales each
      one-value row to unit norm. */
  datatype Scaler = Affine(center: real, spread: NonZero) | UnitNorm

  /** `transform` of one value: an affine scaler sends its centre to 0, the
      unit-norm scaler lands in [-1, 1]. */
  function Transform(s: Scaler, x: real): (r: real)
    ensures s.Affine? && x == s.center ==> r == 0.0
    ensures s.UnitNorm? ==> -1.0 <= r <= 1.0
  {
    match s
    case Affine(c, d) => (x - c) / (d as real)
    case UnitNorm => if x == 0.0 then 0.0 else x / Abs(x)
  }

  /** `inverse_transform`; sklearn's Normalizer has none. */
  function InverseTransform(s: Scaler, y: real): (r: Option<real>)
    ensures r.Some? <==> s.Affine?
  {
    match s
    case Affine(c, d) => Some(y * (d as real) + c)
    case UnitNorm => None
  }

  /** Every affine scaler inverts exactly what it transforms, both ways. */
  lemma AffineRoundTrip(s: Scaler, x: real, y: real)
    requires s.Affine?
    ensures InverseTransform(s, Transform(s, x)) == Some(x)
    ensures InverseTransform(s, y).Some? && Transform(s, InverseTransform(s, y).value) == y
  {
  }

  /** sklearn replaces a zero spread by 1 so that a constant column does
      not divide by zero. */
  function NonZeroSpread(d: real): NonZero
  {
    if d == 0.0 then 1.0 else d
  }

  /** The library's centre and spread for StandardScaler (mean, standard
      deviation) and RobustScaler (median, interquartile range). */
  type Stats = (ScalerKind, seq<real>) -> (real, real)

  /** `fit` on the column `data`. */
  function Fit(kind: ScalerKind, data: seq<real>, stats: Stats): (s: Scaler)
    requires |data| > 0
    ensures s.UnitNorm? <==> kind == Normalizer
    ensures kind == MinMaxScaler ==> forall x :: x in data ==> 0.0 <= Transform(s, x) <= 1.0
    ensures kind == MinMaxScaler ==> Transform(s, SeqMin(data)) == 0.0
    ensures kind == MinMaxScaler && SeqMin(data) < SeqMax(data) ==> Transform(s, SeqMax(data)) == 1.0
    ensures kind == MinMaxScaler && SeqMin(data) == SeqMax(data) ==> forall x :: x in data ==> Transform(s, x) == 0.0
  {
    match kind
    case MinMaxScaler =>
      var lo, hi := SeqMin(data), SeqMax(data);
      var s := Affine(lo, NonZeroSpread(hi - lo));
      assert forall x :: x in data ==> 0.0 <= Transform(s, x) <= 1.0 by {
        forall x | x in data ensures 0.0 <= Transform(s, x) <= 1.0 {
          UnitInterval(x, lo, hi);
        }
      }
      assert lo < hi ==> Transform(s, hi) == 1.0 by {
        if lo < hi {
          DivSelf(hi - lo);
        }
      }
      s
    case StandardScaler => Affine(stats(kind, data).0, NonZeroSpread(stats(kind, data).1))
    case RobustScaler => Affine(stats(kind, data).0, NonZeroSpread(stats(kind, data).1))
    case Normalizer => UnitNorm
  }

  lemma DivSelf(d: real)
    requires d != 0.0
    ensures d / d == 1.0
  {
  }

  lemma UnitInterval(x: real, lo: real, hi: real)
    requires lo <= x <= hi
    ensures 0.0 <= (x - lo) / NonZeroSpread(hi - lo) <= 1.0
  {
  }

  datatype ScaledData = ScaledData(values: seq<real>, scaler: Scaler)

  /** `scale_data`: pick the scaler by name, fit it on the whole series and
      transform every row with it. */
  function ScaleData(name: string, datasets: seq<real>, stats: Stats): (r: Result<ScaledData, PipelineError>)
    ensures ParseScaler(name).None? ==> r == Failure(UnboundScaler(name))
    ensures ParseScaler(name).Some? && |datasets| == 0 ==> r == Failure(EmptySeries)
    ensures r.Success? <==> ParseScaler(name).Some? && |datasets| > 0
    ensures r.Success? ==> r.value.scaler == Fit(ParseScaler(name).value, datasets, stats)
    ensures r.Success? ==> |r.value.values| == |datasets|
    ensures r.Success? ==>
      forall i :: 0 <= i < |datasets| ==> r.value.values[i] == Transform(r.value.scaler, datasets[i])
    ensures r.Success? && r.value.scaler.Affine? ==>
      forall i :: 0 <= i < |datasets| ==> InverseTransform(r.value.scaler, r.value.values[i]) == Some(datasets[i])
    ensures r.Success? && ParseScaler(name) == Some(MinMaxScaler) ==>
      forall i :: 0 <= i < |datasets| ==> 0.0 <= r.value.values[i] <= 1.0
  {
    match ParseScaler(name)
    case None => Failure(UnboundScaler(name))
    case Some(kind) =>
      if |datasets| == 0 then Failure(EmptySeries)
      else
        var scaler := Fit(kind, datasets, stats);
        var values := seq(|datasets|, i requires 0 <= i < |datasets| => Transform(scaler, datasets[i]));
        assert scaler.Affine? ==> forall i :: 0 <= i < |datasets| ==>
          InverseTransform(scaler, values[i]) == Some(datasets[i]) by {
          if scaler.Affine? {
            forall i | 0 <= i < |datasets| ensures InverseTransform(scaler, values[i]) == Some(datasets[i]) {
              AffineRoundTrip(scaler, datasets[i], 0.0);
            }
          }
        }
        assert kind == MinMaxScaler ==> forall i :: 0 <= i < |datasets| ==> 0.0 <= values[i] <= 1.0 by {
          if kind == MinMaxScaler {
            forall i | 0 <= i < |datasets| ensures 0.0 <= values[i] <= 1.0 {
              assert datasets[i] in datasets;
            }
          }
        }
        Success(ScaledData(values, scaler))
  }
}

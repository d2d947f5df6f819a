/** Shared value types: an optional value (pandas' NaN, a missing match) and a
    result that carries either a value or the error the Python code raises. */
module Base {

  datatype Option<+T> = None | Some(value: T)

  datatype Result<+T, +E> = Success(value: T) | Failure(error: E)

  /** One row of a downloaded price table. A table of several stocks tags each
      row with its ticker; a single-stock table has no ticker column, and its
      rows carry a placeholder ticker (the table records that the column is
      missing). `date` is the row's index as a day number. */
  datatype Bar = Bar(ticker: string, date: int, high: real, low: real, close: real)

  /** The Close column of a table. */
  function Closes(rows: seq<Bar>): (r: seq<real>)
    ensures |r| == |rows|
  {
    seq(|rows|, i requires 0 <= i < |rows| => rows[i].close)
  }

  function Min(a: int, b: int): int { if a <= b then a else b }

  function MaxReal(a: real, b: real): real { if a >= b then a else b }

  function Abs(x: real): real { if x < 0.0 then -x else x }

  /** The least and the greatest value of a non-empty sequence. */
  function SeqMin(s: seq<real>): (r: real)
    requires |s| > 0
    ensures r in s && forall x :: x in s ==> r <= x
  {
    if |s| == 1 then s[0]
    else
      var m := SeqMin(s[1..]);
      assert forall x :: x in s ==> x == s[0] || x in s[1..];
      if s[0] <= m then s[0] else m
  }

  function SeqMax(s: seq<real>): (r: real)
    requires |s| > 0
    ensures r in s && forall x :: x in s ==> x <= r
  {
    if |s| == 1 then s[0]
    else
      var m := SeqMax(s[1..]);
      assert forall x :: x in s ==> x == s[0] || x in s[1..];
      if s[0] >= m then s[0] else m
  }

  /** Python's `s[start:]` for a possibly negative `start`: a negative start
      counts from the end and is clamped at 0, a start past the end gives
      the empty slice. The result is always a suffix of `s`. */
  function SliceFrom<T>(s: seq<T>, start: int): (r: seq<T>)
    ensures |r| == if start >= 0 then (if start <= |s| then |s| - start else 0)
                   else Min(|s|, -start)
    ensures r == s[|s| - |r|..]
  {
    if start >= 0 then (if start <= |s| then s[start..] else [])
    else if |s| + start < 0 then s
    else s[|s| + start..]
  }
}

/** The exceptions the forecasting pipeline can end in, named after what the
    Python code does: a local left unbound by an unknown name, a scaler fitted
    on no rows, a reshape of an empty window array, and an inverse transform
    the fitted scaler does not have. */
module PipelineErrors {

  datatype PipelineError =
    | UnboundScaler(scalerName: string)        // `scaler` never assigned
    | UnboundOptimizer(optimizerName: string)  // `optimizer` never assigned
    | EmptySeries                              // sklearn refuses 0 samples
    | NoTrainingWindows                        // x_train.shape[1] of an empty array
    | NoTestWindows                            // x_test.shape[1] of an empty array
    | NoInverse                                // Normalizer has no inverse_transform
}

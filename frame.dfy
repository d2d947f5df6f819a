/** The price table the analysis helpers work on. `data_drawdown`,
    `treshold_return` and `omega_ratio` add columns to the caller's table in
    place; the other helpers read it and return new columns. A table of
    several stocks has a ticker column; a single-stock table has none, and
    the helpers that select by ticker fail on it. */
module Frames {
  import opened Base
  import opened Series

  /** `value_counts('is_true')`: how many rows are True and how many False. */
  datatype ReturnCounts = ReturnCounts(up: nat, down: nat)

  /** The two columns `calculate_atr` returns. */
  datatype Atr = Atr(rolling14: seq<Cell>, rolling30: seq<Cell>)

  /** What `Rolling` returns: the Close column and one mean column per
      window length. */
  datatype Moving = Moving(close: seq<real>, means: map<nat, seq<Cell>>)

  /** The price columns every downloaded table has. */
  predicate IsPriceColumn(name: string)
  {
    name == "High" || name == "Low" || name == "Close"
  }

  /** The names no added column may take: the price columns and the ticker. */
  predicate IsOwnColumn(name: string)
  {
    IsPriceColumn(name) || name == "ticker"
  }

  /** The cells of a price column: always defined. */
  function PriceCells(rows: seq<Bar>, name: string): (r: seq<Cell>)
    requires IsPriceColumn(name)
    ensures |r| == |rows| && forall i :: 0 <= i < |rows| ==> r[i].Some?
  {
    seq(|rows|, i requires 0 <= i < |rows| =>
      Some(if name == "High" then rows[i].high else if name == "Low" then rows[i].low else rows[i].close))
  }

  class Frame {
    /** The downloaded rows: date index, ticker, High, Low, Close. */
    var rows: seq<Bar>
    /** Whether the table has a ticker column. The rows of a table without
        one carry a ticker that only stands in for it. */
    var tagged: bool
    /** Numeric columns added to the table, by name. */
    var columns: map<string, seq<Cell>>
    /** Boolean columns added to the table, by name. */
    var flags: map<string, seq<bool>>

    ghost predicate Valid()
      reads this
    {
      && (forall c :: c in columns ==> |columns[c]| == |rows| && !IsOwnColumn(c))
      && (forall c :: c in flags ==> |flags[c]| == |rows|)
    }

    /** A table of the given rows, with or without a ticker column, and the
        numeric columns other code has already added. */
    constructor (rows: seq<Bar>, tagged: bool, added: map<string, seq<Cell>>)
      requires forall c :: c in added ==> |added[c]| == |rows| && !IsOwnColumn(c)
      ensures Valid() && this.rows == rows && this.tagged == tagged
      ensures columns == added && flags == map[]
    {
      this.rows := rows;
      this.tagged := tagged;
      columns := added;
      flags := map[];
    }

    /** The column `name`: a price column from the rows, else an added
        column; None when the table has no such column. */
    function Column(name: string): (r: Option<seq<Cell>>)
      reads this
      requires Valid()
      ensures r.Some? ==> |r.value| == |rows|
      ensures r.None? <==> !IsPriceColumn(name) && name !in columns
    {
      if IsPriceColumn(name) then Some(PriceCells(rows, name))
      else if name in columns then Some(columns[name])
      else None
    }

    /** The index as day numbers. */
    function Dates(): (r: seq<int>)
      reads this
      ensures |r| == |rows|
    {
      seq(|rows|, i requires 0 <= i < |rows| reads this => rows[i].date)
    }

    /** `data_drawdown`: adds the running peak and the drawdown from it. */
    method DataDrawdown()
      requires Valid()
      modifies this
      ensures Valid() && rows == old(rows) && flags == old(flags) && tagged == old(tagged)
      ensures columns == old(columns)["Peak" := PeakColumn(Closes(rows))]["Drawdown" := DrawdownColumn(Closes(rows))]
    {
      var close := Closes(rows);
      columns := columns["Peak" := PeakColumn(close)];
      columns := columns["Drawdown" := DrawdownColumn(close)];
    }

    /** `treshold_return`: adds the daily return and whether it is >= 0, and
        counts the rows of each kind. */
    method TresholdReturn() returns (counts: ReturnCounts)
      requires Valid()
      modifies this
      ensures Valid() && rows == old(rows) && tagged == old(tagged)
      ensures columns == old(columns)["return" := PctChange(Closes(rows))]
      ensures flags == old(flags)["is_true" := UpFlags(PctChange(Closes(rows)))]
      ensures counts.up == CountOf(flags["is_true"], true)
      ensures counts.down == CountOf(flags["is_true"], false)
      ensures counts.up + counts.down == |rows|
      ensures |rows| > 0 ==> counts.down >= 1
    {
      var ret := PctChange(Closes(rows));
      columns := columns["return" := ret];
      var isTrue := UpFlags(ret);
      flags := flags["is_true" := isTrue];
      ThresholdCounts(Closes(rows));
      counts := ReturnCounts(CountOf(isTrue, true), CountOf(isTrue, false));
    }

    /** `calculate_drawdown_duration`: for every row in drawdown, the days to
        the first row at or above its peak; the longest of these, or None. */
    method DrawdownDuration() returns (r: Result<Option<int>, LookupError>)
      requires Valid()
      ensures "Drawdown" !in columns ==> r == Failure(MissingColumn("Drawdown"))
      ensures "Drawdown" in columns && "Peak" !in columns ==> r == Failure(MissingColumn("Peak"))
      ensures "Drawdown" in columns && "Peak" in columns ==>
        && r.Success?
        && IsLongestDrawdown(DrawdownTable(Dates(), Closes(rows), columns["Peak"], columns["Drawdown"]), r.value)
    {
      if "Drawdown" !in columns {
        return Failure(MissingColumn("Drawdown"));
      }
      if "Peak" !in columns {
        return Failure(MissingColumn("Peak"));
      }
      var t := DrawdownTable(Dates(), Closes(rows), columns["Peak"], columns["Drawdown"]);
      var durations: seq<int> := [];
      for i := 0 to |t.dates|
        invariant forall d :: d in durations ==>
          exists k :: 0 <= k < i && HasDuration(t, k) && Duration(t, k) == d
        invariant forall k :: 0 <= k < i && HasDuration(t, k) ==> Duration(t, k) in durations
      {
        if Underwater(t.drawdown[i]) {
          var end := Recovery(t, i);
          if end.Some? {
            assert HasDuration(t, i) && Duration(t, i) == t.dates[end.value] - t.dates[i];
            durations := durations + [Duration(t, i)];
          }
        }
      }
      if |durations| == 0 {
        return Success(None);
      }
      r := Success(Some(MaxOf(durations)));
    }

    /** `omega_ratio`: adds the daily returns and splits them at the
        threshold. */
    method OmegaRatio(threshold: real) returns (omega: Cell)
      requires Valid()
      modifies this
      ensures Valid() && rows == old(rows) && flags == old(flags) && tagged == old(tagged)
      ensures columns == old(columns)["returns" := PctChange(Closes(rows))]
      ensures omega == Omega(PctChange(Closes(rows)), threshold)
    {
      var dailyReturns := PctChange(Closes(rows));
      columns := columns["returns" := dailyReturns];
      omega := Omega(dailyReturns, threshold);
    }

    /** `Rolling`: the Close column (of one ticker in multi mode) with one
        trailing-mean column per window length in `roll`. Selecting a ticker
        in a table without a ticker column fails. */
    method Rolling(stock: string, roll: seq<nat>, multi: bool) returns (r: Result<Moving, LookupError>)
      ensures multi && !tagged ==> r == Failure(MissingColumn("ticker"))
      ensures r.Success? <==> !multi || tagged
      ensures r.Success? ==> r.value.close == Closes(if multi then OfTicker(rows, stock) else rows)
      ensures r.Success? ==> r.value.means.Keys == set w | w in roll
      ensures r.Success? ==> forall w :: w in r.value.means ==> |r.value.means[w]| == |r.value.close|
      ensures r.Success? ==>
        forall w, i :: w in r.value.means && 0 <= i < |r.value.close| ==>
          r.value.means[w][i] == RollingMean(r.value.close, w, i)
    {
      if multi && !tagged {
        return Failure(MissingColumn("ticker"));
      }
      var data := if multi then OfTicker(rows, stock) else rows;
      var close := Closes(data);
      var means: map<nat, seq<Cell>> := map[];
      for j := 0 to |roll|
        invariant means.Keys == set k | 0 <= k < j :: roll[k]
        invariant forall w :: w in means ==> |means[w]| == |close|
        invariant forall w, i :: w in means && 0 <= i < |close| ==> means[w][i] == RollingMean(close, w, i)
      {
        means := means[roll[j] := RollingColumn(close, roll[j])];
      }
      assert (set k | 0 <= k < |roll| :: roll[k]) == set w | w in roll by {
        forall w | w in roll ensures w in set k | 0 <= k < |roll| :: roll[k] {
          var k :| 0 <= k < |roll| && roll[k] == w;
        }
      }
      r := Success(Moving(close, means));
    }

    /** `calculate_atr`: the 14- and 30-row trailing means of the true range
        of one ticker's rows. A table without a ticker column fails. */
    function CalculateAtr(ticker: string): (r: Result<Atr, LookupError>)
      reads this
      ensures r.Failure? <==> !tagged
      ensures r.Failure? ==> r.error == MissingColumn("ticker")
      ensures r.Success? ==>
        |r.value.rolling14| == |OfTicker(rows, ticker)| && |r.value.rolling30| == |OfTicker(rows, ticker)|
      ensures r.Success? ==>
        forall i :: 0 <= i < |r.value.rolling14| ==>
          r.value.rolling14[i] == RollingMean(TrueRanges(OfTicker(rows, ticker)), 14, i)
      ensures r.Success? ==>
        forall i :: 0 <= i < |r.value.rolling30| ==>
          r.value.rolling30[i] == RollingMean(TrueRanges(OfTicker(rows, ticker)), 30, i)
      ensures r.Success? ==> forall i :: 0 <= i < |r.value.rolling14| ==> (r.value.rolling14[i].Some? <==> i >= 13)
      ensures r.Success? ==> forall i :: 0 <= i < |r.value.rolling30| ==> (r.value.rolling30[i].Some? <==> i >= 29)
      ensures r.Success? && (forall b :: b in OfTicker(rows, ticker) ==> b.high >= b.low) ==>
        && (forall i :: 0 <= i < |r.value.rolling14| && r.value.rolling14[i].Some? ==> r.value.rolling14[i].value >= 0.0)
        && (forall i :: 0 <= i < |r.value.rolling30| && r.value.rolling30[i].Some? ==> r.value.rolling30[i].value >= 0.0)
    {
      if !tagged then Failure(MissingColumn("ticker"))
      else
        var data := OfTicker(rows, ticker);
        var tr := TrueRanges(data);
        var a := Atr(RollingColumn(tr, 14), RollingColumn(tr, 30));
        assert (forall b :: b in data ==> b.high >= b.low) ==>
          && (forall i :: 0 <= i < |a.rolling14| && a.rolling14[i].Some? ==> a.rolling14[i].value >= 0.0)
          && (forall i :: 0 <= i < |a.rolling30| && a.rolling30[i].Some? ==> a.rolling30[i].value >= 0.0)
        by {
          if forall b :: b in data ==> b.high >= b.low {
            forall i | 0 <= i < |tr| && a.rolling14[i].Some? ensures a.rolling14[i].value >= 0.0 {
              TrueRangeMeanNonNegative(data, 14, i);
            }
            forall i | 0 <= i < |tr| && a.rolling30[i].Some? ensures a.rolling30[i].value >= 0.0 {
              TrueRangeMeanNonNegative(data, 30, i);
            }
          }
        }
        Success(a)
    }

    /** `annot_cum_and_return` on column `column`: grouping by ticker fails
        first on a table without a ticker column, then reading the column
        fails when the table has no such column. */
    function AnnotCumAndReturn(op: string, column: string): (r: Result<Annotation, LookupError>)
      reads this
      requires Valid()
      ensures !tagged ==> r == Failure(MissingColumn("ticker"))
      ensures tagged && Column(column).None? ==> r == Failure(MissingColumn(column))
      ensures tagged && Column(column).Some? ==> r == AnnotOf(rows, Column(column).value, op)
    {
      if !tagged then Failure(MissingColumn("ticker"))
      else
        match Column(column)
        case None => Failure(MissingColumn(column))
        case Some(cells) => AnnotOf(rows, cells, op)
    }
  }

  /** On a non-empty table with a ticker column, the highest and the lowest
      last close are always found: every close is defined. */
  lemma ExtremeLastCloseFound(f: Frame)
    requires f.Valid() && f.tagged && |f.rows| > 0
    ensures f.AnnotCumAndReturn("max", "Close").Success?
    ensures f.AnnotCumAndReturn("min", "Close").Success?
  {
  }
}

/** The column arithmetic of the analysis helpers: running peak and
    drawdown, recovery search, percentage change and its sign, trailing
    means, threshold sums, true range and the per-ticker extreme. Values are
    exact reals; a cell that pandas would hold as NaN is `None`. */
module Series {
  import opened Base

  /** A pandas cell. `None` is NaN, and also the ±inf that pandas gives for a
      non-zero value divided by zero. */
  type Cell = Option<real>

  // ----- running peak and drawdown -----------------------------------------

  /** `cummax` at row i: the larger of the previous peak and the close of
      row i, so never below that close. */
  function PeakAt(s: seq<real>, i: nat): (r: real)
    requires i < |s|
    ensures s[i] <= r
    decreases i
  {
    if i == 0 then s[0] else MaxReal(PeakAt(s, i - 1), s[i])
  }

  /** The Peak column: the running maximum of the closes. */
  function PeakColumn(s: seq<real>): (r: seq<Cell>)
    ensures |r| == |s|
    ensures forall i :: 0 <= i < |s| ==> r[i].Some? && s[i] <= r[i].value
  {
    seq(|s|, i requires 0 <= i < |s| => Some(PeakAt(s, i)))
  }

  /** The peak at row i is at least every close up to row i. */
  lemma {:induction false} PeakBoundsCloses(s: seq<real>, i: nat)
    requires i < |s|
    ensures forall j :: 0 <= j <= i ==> s[j] <= PeakAt(s, i)
  {
    if i > 0 {
      PeakBoundsCloses(s, i - 1);
    }
  }

  /** The peak at row i is the close of some row up to i. */
  lemma {:induction false} PeakIsAClose(s: seq<real>, i: nat) returns (j: nat)
    requires i < |s|
    ensures j <= i && PeakAt(s, i) == s[j]
  {
    if i == 0 {
      j := 0;
    } else {
      j := PeakIsAClose(s, i - 1);
      if PeakAt(s, i - 1) < s[i] {
        j := i;
      }
    }
  }

  /** The peak never falls. */
  lemma {:induction false} PeakMonotone(s: seq<real>, i: nat, j: nat)
    requires i <= j < |s|
    ensures PeakAt(s, i) <= PeakAt(s, j)
    decreases j - i
  {
    if i < j {
      PeakMonotone(s, i, j - 1);
    }
  }

  /** (Close - Peak) / Peak; a zero peak divides by zero. Below a positive
      peak the drawdown is negative, at it zero. */
  function DrawdownOf(close: real, peak: real): (r: Cell)
    ensures r.None? <==> peak == 0.0
    ensures peak > 0.0 && close <= peak ==> r.Some? && r.value <= 0.0
    ensures peak > 0.0 ==> (r == Some(0.0) <==> close == peak)
  {
    if peak == 0.0 then None
    else
      var d := (close - peak) / peak;
      assert peak > 0.0 ==> (close <= peak ==> d <= 0.0) && (d == 0.0 <==> close == peak) by {
        if peak > 0.0 {
          DivByPositive(close - peak, peak);
        }
      }
      Some(d)
  }

  /** The Drawdown column. */
  function DrawdownColumn(s: seq<real>): (r: seq<Cell>)
    ensures |r| == |s|
  {
    seq(|s|, i requires 0 <= i < |s| => DrawdownOf(s[i], PeakAt(s, i)))
  }

  /** Dividing by a positive number keeps the sign, and only zero gives zero. */
  lemma DivByPositive(a: real, b: real)
    requires b > 0.0
    ensures a <= 0.0 ==> a / b <= 0.0
    ensures a >= 0.0 ==> a / b >= 0.0
    ensures a / b == 0.0 <==> a == 0.0
  {
  }

  /** For positive prices the drawdown is defined and never positive, and it
      is zero exactly on the rows that stand at their running peak. */
  lemma DrawdownOfPositivePrices(s: seq<real>, i: nat)
    requires i < |s|
    requires forall j :: 0 <= j < |s| ==> s[j] > 0.0
    ensures DrawdownColumn(s)[i].Some?
    ensures DrawdownColumn(s)[i].value <= 0.0
    ensures DrawdownColumn(s)[i].value == 0.0 <==> s[i] == PeakAt(s, i)
  {
  }

  lemma UnderwaterIsBelow(c: real, p: real)
    requires c <= p && Underwater(DrawdownOf(c, p))
    ensures c < p
  {
  }

  /** A row in drawdown lies strictly below its running peak, whatever the
      sign of the prices. */
  lemma UnderwaterBelowPeak(s: seq<real>, i: nat)
    requires i < |s|
    requires Underwater(DrawdownColumn(s)[i])
    ensures s[i] < PeakAt(s, i)
  {
  }

  // ----- drawdown duration ---------------------------------------------------

  /** The four columns `calculate_drawdown_duration` reads: the index (as day
      numbers), Close, Peak and Drawdown. */
  datatype DrawdownTable = DrawdownTable(dates: seq<int>, close: seq<real>, peak: seq<Cell>, drawdown: seq<Cell>)
  {
    predicate WellFormed()
    {
      |close| == |dates| && |peak| == |dates| && |drawdown| == |dates|
    }
  }

  /** The table `data_drawdown` leaves behind. */
  function DrawdownTableOf(dates: seq<int>, s: seq<real>): DrawdownTable
  {
    DrawdownTable(dates, s, PeakColumn(s), DrawdownColumn(s))
  }

  /** A drawdown start: Drawdown < 0 (NaN compares false). */
  predicate Underwater(dd: Cell)
  {
    dd.Some? && dd.value < 0.0
  }

  /** A drawdown end: Close >= Peak (NaN compares false). */
  predicate Recovered(close: real, peak: Cell)
  {
    peak.Some? && close >= peak.value
  }

  /** The first end at or after row j, in row order, dated on or after
      `from`. */
  function RecoveryFrom(t: DrawdownTable, from: int, j: nat): (r: Option<nat>)
    requires t.WellFormed() && j <= |t.dates|
    ensures r.Some? ==> j <= r.value < |t.dates|
    ensures r.Some? ==> Recovered(t.close[r.value], t.peak[r.value]) && t.dates[r.value] >= from
    ensures forall k :: j <= k < |t.dates| && (r.None? || k < r.value) ==>
      !(Recovered(t.close[k], t.peak[k]) && t.dates[k] >= from)
    decreases |t.dates| - j
  {
    if j == |t.dates| then None
    else if Recovered(t.close[j], t.peak[j]) && t.dates[j] >= from then Some(j)
    else RecoveryFrom(t, from, j + 1)
  }

  /** `drawdown_ends[drawdown_ends >= start]`, first element: the first end
      dated on or after row i's date. */
  function Recovery(t: DrawdownTable, i: nat): (r: Option<nat>)
    requires t.WellFormed() && i < |t.dates|
    ensures r.Some? ==> r.value < |t.dates|
    ensures r.Some? ==> Recovered(t.close[r.value], t.peak[r.value]) && t.dates[r.value] >= t.dates[i]
    ensures forall k :: 0 <= k < |t.dates| && (r.None? || k < r.value) ==>
      !(Recovered(t.close[k], t.peak[k]) && t.dates[k] >= t.dates[i])
  {
    RecoveryFrom(t, t.dates[i], 0)
  }

  /** Row i starts a drawdown that has an end. */
  predicate HasDuration(t: DrawdownTable, i: nat)
    requires t.WellFormed() && i < |t.dates|
  {
    Underwater(t.drawdown[i]) && Recovery(t, i).Some?
  }

  /** Days from row i to its end; never negative, as the end is dated on
      or after the start. */
  function Duration(t: DrawdownTable, i: nat): (r: int)
    requires t.WellFormed() && i < |t.dates| && HasDuration(t, i)
    ensures r >= 0
  {
    t.dates[Recovery(t, i).value] - t.dates[i]
  }

  function MaxOf(s: seq<int>): (r: int)
    requires |s| > 0
    ensures r in s && forall x :: x in s ==> x <= r
  {
    if |s| == 1 then s[0]
    else
      var m := MaxOf(s[1..]);
      assert forall x :: x in s ==> x == s[0] || x in s[1..];
      if s[0] >= m then s[0] else m
  }

  /** What `calculate_drawdown_duration` returns for table t: None when no
      drawdown start has an end, otherwise the longest start-to-end gap. */
  ghost predicate IsLongestDrawdown(t: DrawdownTable, r: Option<int>)
    requires t.WellFormed()
  {
    && (r.None? <==> forall i :: 0 <= i < |t.dates| ==> !HasDuration(t, i))
    && (r.Some? ==> exists i :: 0 <= i < |t.dates| && HasDuration(t, i) && Duration(t, i) == r.value)
    && (r.Some? ==> forall i :: 0 <= i < |t.dates| && HasDuration(t, i) ==> Duration(t, i) <= r.value)
  }

  /** On the table `data_drawdown` builds, with strictly increasing dates,
      every drawdown ends strictly after it starts. */
  lemma RecoveryAfterStart(dates: seq<int>, s: seq<real>, i: nat)
    requires |dates| == |s| && i < |s|
    requires forall a, b :: 0 <= a < b < |dates| ==> dates[a] < dates[b]
    requires HasDuration(DrawdownTableOf(dates, s), i)
    ensures Recovery(DrawdownTableOf(dates, s), i).value > i
    ensures Duration(DrawdownTableOf(dates, s), i) > 0
  {
    var t := DrawdownTableOf(dates, s);
    var e := Recovery(t, i).value;
    UnderwaterBelowPeak(s, i);
    assert !Recovered(t.close[i], t.peak[i]);
    assert e != i;
  }

  /** With strictly increasing dates, the duration `calculate_drawdown_duration`
      reports for the table `data_drawdown` builds is positive. */
  lemma LongestDrawdownPositive(dates: seq<int>, s: seq<real>, r: Option<int>)
    requires |dates| == |s|
    requires forall a, b :: 0 <= a < b < |dates| ==> dates[a] < dates[b]
    requires IsLongestDrawdown(DrawdownTableOf(dates, s), r)
    requires r.Some?
    ensures r.value > 0
  {
    var t := DrawdownTableOf(dates, s);
    var i :| 0 <= i < |t.dates| && HasDuration(t, i) && Duration(t, i) == r.value;
    RecoveryAfterStart(dates, s, i);
  }

  /** A close that never falls is always at its running peak. */
  lemma {:induction false} RisingStaysAtPeak(s: seq<real>, i: nat)
    requires i < |s|
    requires forall a, b :: 0 <= a <= b < |s| ==> s[a] <= s[b]
    ensures PeakAt(s, i) == s[i]
  {
    if i > 0 {
      RisingStaysAtPeak(s, i - 1);
    }
  }

  /** A close that never falls has no drawdown, so the longest drawdown of its
      table is None. */
  lemma NoFallNoDrawdown(dates: seq<int>, s: seq<real>, r: Option<int>)
    requires |dates| == |s|
    requires forall a, b :: 0 <= a <= b < |s| ==> s[a] <= s[b]
    requires IsLongestDrawdown(DrawdownTableOf(dates, s), r)
    ensures r.None?
  {
    var t := DrawdownTableOf(dates, s);
    forall i | 0 <= i < |t.dates| ensures !Underwater(t.drawdown[i]) {
      RisingStaysAtPeak(s, i);
      assert t.drawdown[i] == DrawdownOf(s[i], s[i]);
      AtPeakNotUnderwater(s[i]);
    }
    assert forall i :: 0 <= i < |t.dates| ==> !HasDuration(t, i);
  }

  lemma AtPeakNotUnderwater(c: real)
    ensures !Underwater(DrawdownOf(c, c))
  {
  }

  // ----- returns ------------------------------------------------------------

  /** (cur - prev) / prev; a zero previous price divides by zero. */
  function Change(prev: real, cur: real): (r: Cell)
    ensures r.None? <==> prev == 0.0
    ensures prev > 0.0 ==> r.Some? && (r.value >= 0.0 <==> cur >= prev)
  {
    if prev == 0.0 then None
    else
      var d := (cur - prev) / prev;
      assert prev > 0.0 ==> (d >= 0.0 <==> cur >= prev) by {
        if prev > 0.0 {
          DivByPositive(cur - prev, prev);
        }
      }
      Some(d)
  }

  /** `pct_change`: undefined on the first row. */
  function PctChange(s: seq<real>): (r: seq<Cell>)
    ensures |r| == |s|
    ensures |s| > 0 ==> r[0].None?
    ensures forall i :: 0 < i < |s| ==> (r[i].Some? <==> s[i - 1] != 0.0)
  {
    seq(|s|, i requires 0 <= i < |s| => if i == 0 then None else Change(s[i - 1], s[i]))
  }

  /** `np.where(return >= 0, True, False)`: an undefined return is False. */
  function UpFlags(rets: seq<Cell>): (r: seq<bool>)
    ensures |r| == |rets|
  {
    seq(|rets|, i requires 0 <= i < |rets| => rets[i].Some? && rets[i].value >= 0.0)
  }

  /** How many of the flags equal b: at most all of them. */
  function CountOf(flags: seq<bool>, b: bool): (r: nat)
    ensures r <= |flags|
  {
    if |flags| == 0 then 0 else (if flags[0] == b then 1 else 0) + CountOf(flags[1..], b)
  }

  /** Every row is counted once, as True or as False. */
  lemma {:induction false} CountsCoverAllRows(flags: seq<bool>)
    ensures CountOf(flags, true) + CountOf(flags, false) == |flags|
  {
    if |flags| > 0 {
      CountsCoverAllRows(flags[1..]);
    }
  }

  /** The True and False counts of `treshold_return` add up to the row
      count, and the first row, with no return, is always among the False. */
  lemma ThresholdCounts(s: seq<real>)
    ensures CountOf(UpFlags(PctChange(s)), true) + CountOf(UpFlags(PctChange(s)), false) == |s|
    ensures |s| > 0 ==> CountOf(UpFlags(PctChange(s)), false) >= 1
  {
    CountsCoverAllRows(UpFlags(PctChange(s)));
  }

  /** For positive prices a row is True exactly when it has a previous row
      and did not close below it. */
  lemma UpMeansNoFall(s: seq<real>, i: nat)
    requires i < |s|
    requires forall j :: 0 <= j < |s| ==> s[j] > 0.0
    ensures UpFlags(PctChange(s))[i] <==> i > 0 && s[i] >= s[i - 1]
  {
  }

  // ----- trailing means -----------------------------------------------------

  function Sum(s: seq<real>): real
  {
    if |s| == 0 then 0.0 else s[0] + Sum(s[1..])
  }

  /** `rolling(window=w).mean()` at row i: the mean of the w closes ending
      at i, undefined while fewer than w rows exist. */
  function RollingMean(s: seq<real>, w: nat, i: nat): (r: Cell)
    requires i < |s|
    ensures r.Some? <==> 0 < w <= i + 1
  {
    if w == 0 || i + 1 < w then None else Some(Sum(s[i + 1 - w..i + 1]) / (w as real))
  }

  function RollingColumn(s: seq<real>, w: nat): (r: seq<Cell>)
    ensures |r| == |s|
    ensures forall i :: 0 <= i < |s| ==> (r[i].Some? <==> 0 < w <= i + 1)
  {
    seq(|s|, i requires 0 <= i < |s| => RollingMean(s, w, i))
  }

  lemma {:induction false} SumBounds(t: seq<real>, lo: real, hi: real)
    requires forall x :: x in t ==> lo <= x <= hi
    ensures |t| as real * lo <= Sum(t) <= |t| as real * hi
  {
    if |t| > 0 {
      assert forall x :: x in t[1..] ==> x in t;
      SumBounds(t[1..], lo, hi);
      assert t[0] in t;
      var m := |t[1..]| as real;
      assert m == (|t| - 1) as real;
      assert |t| as real * lo == m * lo + lo;
      assert |t| as real * hi == m * hi + hi;
    }
  }

  /** A trailing mean is defined once its window is full, and it lies
      between any bounds of the closes in its window. */
  lemma MeanWithinWindow(s: seq<real>, w: nat, i: nat, lo: real, hi: real)
    requires 0 < w <= i + 1 <= |s|
    requires forall j :: i + 1 - w <= j <= i ==> lo <= s[j] <= hi
    ensures RollingMean(s, w, i).Some?
    ensures lo <= RollingMean(s, w, i).value <= hi
  {
    var win := s[i + 1 - w..i + 1];
    assert forall x :: x in win ==> lo <= x <= hi;
    SumBounds(win, lo, hi);
    DivBetween(Sum(win), w as real, lo, hi);
  }

  lemma DivBetween(x: real, n: real, lo: real, hi: real)
    requires n > 0.0 && n * lo <= x <= n * hi
    ensures lo <= x / n <= hi
  {
  }

  // ----- threshold sums (omega ratio) ---------------------------------------

  /** Sum of the defined returns strictly above t: not negative when t is
      not. */
  function SumAbove(rs: seq<Cell>, t: real): (r: real)
    ensures t >= 0.0 ==> r >= 0.0
  {
    if |rs| == 0 then 0.0
    else (if rs[0].Some? && rs[0].value > t then rs[0].value else 0.0) + SumAbove(rs[1..], t)
  }

  /** Sum of the defined returns strictly below t: not positive when t is
      not. */
  function SumBelow(rs: seq<Cell>, t: real): (r: real)
    ensures t <= 0.0 ==> r <= 0.0
  {
    if |rs| == 0 then 0.0
    else (if rs[0].Some? && rs[0].value < t then rs[0].value else 0.0) + SumBelow(rs[1..], t)
  }

  /** Number of defined returns equal to t. */
  function CountAt(rs: seq<Cell>, t: real): nat
  {
    if |rs| == 0 then 0 else (if rs[0] == Some(t) then 1 else 0) + CountAt(rs[1..], t)
  }

  /** Sum of all defined returns. */
  function SumDefined(rs: seq<Cell>): real
  {
    if |rs| == 0 then 0.0 else (if rs[0].Some? then rs[0].value else 0.0) + SumDefined(rs[1..])
  }

  /** Above, below and at the threshold split the defined returns: the two
      sums miss exactly the returns equal to the threshold. */
  lemma {:induction false} ThresholdPartition(rs: seq<Cell>, t: real)
    ensures SumAbove(rs, t) + SumBelow(rs, t) + t * (CountAt(rs, t) as real) == SumDefined(rs)
  {
    if |rs| > 0 {
      ThresholdPartition(rs[1..], t);
    }
  }

  /** A defined return strictly below t. */
  predicate Below(c: Cell, t: real)
  {
    c.Some? && c.value < t
  }

  /** For t <= 0 the sum below t is zero exactly when no defined return lies
      below t. */
  lemma {:induction false} SumBelowZero(rs: seq<Cell>, t: real)
    requires t <= 0.0
    ensures SumBelow(rs, t) == 0.0 <==> forall i :: 0 <= i < |rs| ==> !Below(rs[i], t)
  {
    if |rs| > 0 {
      SumBelowZero(rs[1..], t);
      assert forall i :: 1 <= i < |rs| ==> rs[i] == rs[1..][i - 1];
    }
  }

  /** The omega ratio: gains above the threshold over the negated sum of
      returns below it; NaN when that denominator is zero. For a threshold
      of at most 0 it is NaN exactly when no return lies below the
      threshold, and at threshold 0 it is never negative. */
  function Omega(rs: seq<Cell>, t: real): (r: Cell)
    ensures r.None? <==> SumBelow(rs, t) == 0.0
    ensures r.Some? ==> r.value * -SumBelow(rs, t) == SumAbove(rs, t)
    ensures t <= 0.0 ==> (r.None? <==> forall i :: 0 <= i < |rs| ==> !Below(rs[i], t))
    ensures t == 0.0 && r.Some? ==> r.value >= 0.0
  {
    var below := -SumBelow(rs, t);
    assert t <= 0.0 ==> (SumBelow(rs, t) == 0.0 <==> forall i :: 0 <= i < |rs| ==> !Below(rs[i], t)) by {
      if t <= 0.0 {
        SumBelowZero(rs, t);
      }
    }
    if below != 0.0 then
      assert t == 0.0 ==> SumAbove(rs, t) / below >= 0.0 by {
        if t == 0.0 {
          DivByPositive(SumAbove(rs, t), below);
        }
      }
      Some(SumAbove(rs, t) / below)
    else None
  }

  /** Appending a return equal to the threshold, or a NaN, changes neither
      sum. */
  lemma {:induction false} NeutralReturn(rs: seq<Cell>, t: real, c: Cell)
    requires c.None? || c == Some(t)
    ensures SumAbove(rs + [c], t) == SumAbove(rs, t)
    ensures SumBelow(rs + [c], t) == SumBelow(rs, t)
  {
    if |rs| > 0 {
      assert (rs + [c])[1..] == rs[1..] + [c];
      NeutralReturn(rs[1..], t, c);
    }
  }

  /** A return equal to the threshold counts in neither sum, and a NaN
      return is skipped: neither changes the omega ratio. */
  lemma OmegaIgnoresNeutral(rs: seq<Cell>, t: real)
    ensures Omega(rs + [Some(t)], t) == Omega(rs, t)
    ensures Omega(rs + [None], t) == Omega(rs, t)
  {
    NeutralReturn(rs, t, Some(t));
    NeutralReturn(rs, t, None);
  }

  // ----- true range -----------------------------------------------------------

  /** The largest of High - Low, |High - previous Close| and |Low - previous
      Close|; on the first row the last two are NaN and `max` skips them. */
  function TrueRange(high: real, low: real, prevClose: Option<real>): (r: real)
    ensures r >= high - low
    ensures prevClose.Some? ==> r >= Abs(high - prevClose.value) && r >= Abs(low - prevClose.value)
    ensures r == high - low || (prevClose.Some? && (r == Abs(high - prevClose.value) || r == Abs(low - prevClose.value)))
    ensures high >= low ==> r >= 0.0
  {
    match prevClose
    case None => high - low
    case Some(p) => MaxReal(MaxReal(high - low, Abs(high - p)), Abs(low - p))
  }

  /** The true range of each row, the previous close taken from the row
      before: never below that row's High - Low. */
  function TrueRanges(rows: seq<Bar>): (r: seq<real>)
    ensures |r| == |rows|
    ensures forall i :: 0 <= i < |rows| ==> r[i] >= rows[i].high - rows[i].low
  {
    seq(|rows|, i requires 0 <= i < |rows| =>
      TrueRange(rows[i].high, rows[i].low, if i == 0 then None else Some(rows[i - 1].close)))
  }

  /** When every High is at least its Low, every defined trailing mean of
      the true range is non-negative. */
  lemma TrueRangeMeanNonNegative(rows: seq<Bar>, w: nat, i: nat)
    requires i < |rows|
    requires forall b :: b in rows ==> b.high >= b.low
    requires RollingMean(TrueRanges(rows), w, i).Some?
    ensures RollingMean(TrueRanges(rows), w, i).value >= 0.0
  {
    var tr := TrueRanges(rows);
    forall j | 0 <= j < |tr| ensures 0.0 <= tr[j] <= SeqMax(tr) {
      assert rows[j] in rows;
      assert tr[j] in tr;
    }
    MeanWithinWindow(tr, w, i, 0.0, SeqMax(tr));
  }

  /** `data[data.ticker == t]`: the rows of one ticker, in order. */
  function OfTicker(rows: seq<Bar>, t: string): (r: seq<Bar>)
    ensures forall b :: b in r <==> b in rows && b.ticker == t
    ensures |r| <= |rows|
  {
    if |rows| == 0 then []
    else (if rows[0].ticker == t then [rows[0]] else []) + OfTicker(rows[1..], t)
  }

  /** The selection keeps row order and multiplicity: selecting from a
      concatenation concatenates the selections, and a single row is kept
      exactly when it has the ticker. */
  lemma {:induction false} OfTickerAppend(a: seq<Bar>, b: seq<Bar>, t: string)
    ensures OfTicker(a + b, t) == OfTicker(a, t) + OfTicker(b, t)
  {
    if |a| == 0 {
      assert a + b == b;
    } else {
      assert (a + b)[1..] == a[1..] + b;
      OfTickerAppend(a[1..], b, t);
    }
  }

  lemma OfTickerOne(x: Bar, t: string)
    ensures OfTicker([x], t) == if x.ticker == t then [x] else []
  {
  }

  /** A table whose rows all carry ticker t is kept whole. */
  lemma {:induction false} OfTickerAll(rows: seq<Bar>, t: string)
    requires forall i :: 0 <= i < |rows| ==> rows[i].ticker == t
    ensures OfTicker(rows, t) == rows
  {
    if |rows| > 0 {
      OfTickerAll(rows[1..], t);
      assert [rows[0]] + rows[1..] == rows;
    }
  }

  // ----- extreme last value per ticker ----------------------------------------

  /** Python's `<` on strings: code point by code point, a proper prefix first. */
  predicate StrBelow(a: string, b: string)
    decreases |a|
  {
    if |a| == 0 then |b| > 0
    else if |b| == 0 then false
    else if a[0] != b[0] then a[0] < b[0]
    else StrBelow(a[1..], b[1..])
  }

  lemma {:induction false} StrBelowIrreflexive(a: string)
    ensures !StrBelow(a, a)
    decreases |a|
  {
    if |a| > 0 {
      StrBelowIrreflexive(a[1..]);
    }
  }

  lemma {:induction false} StrBelowTransitive(a: string, b: string, c: string)
    requires StrBelow(a, b) && StrBelow(b, c)
    ensures StrBelow(a, c)
    decreases |a|
  {
    if |a| > 0 && a[0] == b[0] && b[0] == c[0] {
      StrBelowTransitive(a[1..], b[1..], c[1..]);
    }
  }

  /** Two different strings are ordered one way or the other. */
  lemma {:induction false} StrBelowTotal(a: string, b: string)
    requires a != b
    ensures StrBelow(a, b) || StrBelow(b, a)
    decreases |a|
  {
    if |a| > 0 && |b| > 0 && a[0] == b[0] {
      assert a == [a[0]] + a[1..] && b == [b[0]] + b[1..];
      StrBelowTotal(a[1..], b[1..]);
    }
  }

  /** Strictly increasing by name, hence without repeats. */
  predicate StrictlySorted(ts: seq<string>)
  {
    forall a, b :: 0 <= a < b < |ts| ==> StrBelow(ts[a], ts[b])
  }

  /** Adding a key to sorted, repeat-free keys keeps them so. */
  function InsertSorted(t: string, ts: seq<string>): (r: seq<string>)
    requires StrictlySorted(ts)
    ensures forall x :: x in r <==> x == t || x in ts
    ensures StrictlySorted(r)
  {
    if |ts| == 0 then [t]
    else if t == ts[0] then ts
    else if StrBelow(t, ts[0]) then
      assert StrictlySorted([t] + ts) by {
        forall a, b | 0 <= a < b < |ts| + 1 ensures StrBelow(([t] + ts)[a], ([t] + ts)[b]) {
          if a == 0 && b > 1 {
            StrBelowTransitive(t, ts[0], ts[b - 1]);
          }
        }
      }
      [t] + ts
    else
      StrBelowTotal(t, ts[0]);
      var rest := InsertSorted(t, ts[1..]);
      assert forall x :: x in rest ==> StrBelow(ts[0], x) by {
        forall x | x in rest ensures StrBelow(ts[0], x) {
          if x != t {
            var k :| 0 <= k < |ts[1..]| && ts[1..][k] == x;
            assert ts[k + 1] == x;
          }
        }
      }
      assert StrictlySorted([ts[0]] + rest) by {
        forall a, b | 0 <= a < b < |rest| + 1 ensures StrBelow(([ts[0]] + rest)[a], ([ts[0]] + rest)[b]) {
          assert rest[b - 1] in rest;
        }
      }
      [ts[0]] + rest
  }

  /** The group keys of `groupby('ticker')`: each ticker once, by name. */
  function TickerGroups(rows: seq<Bar>): (r: seq<string>)
    ensures forall i :: 0 <= i < |rows| ==> rows[i].ticker in r
    ensures forall x :: x in r ==> exists i :: 0 <= i < |rows| && rows[i].ticker == x
    ensures StrictlySorted(r)
  {
    if |rows| == 0 then []
    else
      var n := |rows| - 1;
      var r := InsertSorted(rows[n].ticker, TickerGroups(rows[..n]));
      assert forall i :: 0 <= i < n ==> rows[..n][i] == rows[i];
      r
  }

  /** `groupby('ticker')[column].last()`: the last non-NaN value of the
      ticker's rows, NaN when there is none. */
  function LastDefined(rows: seq<Bar>, cells: seq<Cell>, t: string): (r: Cell)
    requires |cells| == |rows|
    ensures r.Some? ==>
      exists i :: 0 <= i < |rows| && rows[i].ticker == t && cells[i] == r
                  && forall j :: i < j < |rows| && rows[j].ticker == t ==> cells[j].None?
    ensures r.None? ==> forall i :: 0 <= i < |rows| && rows[i].ticker == t ==> cells[i].None?
    decreases |rows|
  {
    if |rows| == 0 then None
    else
      var n := |rows| - 1;
      if rows[n].ticker == t && cells[n].Some? then cells[n]
      else
        var r := LastDefined(rows[..n], cells[..n], t);
        assert forall i :: 0 <= i < n ==> rows[..n][i] == rows[i] && cells[..n][i] == cells[i];
        r
  }

  datatype Extreme = Highest | Lowest

  /** The operator names `annot_cum_and_return` knows. */
  function ParseExtreme(op: string): (r: Option<Extreme>)
    ensures r == Some(Highest) <==> op == "max"
    ensures r == Some(Lowest) <==> op == "min"
    ensures r.None? <==> op != "max" && op != "min"
  {
    if op == "max" then Some(Highest) else if op == "min" then Some(Lowest) else None
  }

  /** a is at least as extreme as b. */
  predicate Beats(e: Extreme, a: real, b: real)
  {
    if e == Highest then a >= b else a <= b
  }

  /** `max()` / `min()` of a column, skipping NaN. */
  function BestOf(e: Extreme, vals: seq<Cell>): (r: Cell)
    ensures r.Some? <==> exists k :: 0 <= k < |vals| && vals[k].Some?
    ensures r.Some? ==> exists k :: 0 <= k < |vals| && vals[k] == r
    ensures r.Some? ==> forall k :: 0 <= k < |vals| && vals[k].Some? ==> Beats(e, r.value, vals[k].value)
  {
    if |vals| == 0 then None
    else
      var rest := BestOf(e, vals[1..]);
      assert forall k :: 1 <= k < |vals| ==> vals[k] == vals[1..][k - 1];
      if vals[0].None? then rest
      else if rest.None? || Beats(e, vals[0].value, rest.value) then vals[0]
      else rest
  }

  /** Index of the first cell equal to v. */
  function FirstIndexOf(vals: seq<Cell>, v: Cell): (r: nat)
    requires v in vals
    ensures r < |vals| && vals[r] == v && forall k :: 0 <= k < r ==> vals[k] != v
  {
    if vals[0] == v then 0 else 1 + FirstIndexOf(vals[1..], v)
  }

  datatype Annotation = Annotation(ticker: string, value: real)

  datatype LookupError =
    | MissingColumn(column: string)  // KeyError on the column name
    | UnboundResult(op: string)      // `result` never assigned
    | NoRow                          // `values[0]` of an empty selection

  /** `annot_cum_and_return` on the tickers of `rows` and the cells of the
      chosen column: the first ticker, by name, whose last value equals the
      highest (or lowest) last value, and that value. */
  function AnnotOf(rows: seq<Bar>, cells: seq<Cell>, op: string): (r: Result<Annotation, LookupError>)
    requires |cells| == |rows|
    ensures ParseExtreme(op).None? ==> r == Failure(UnboundResult(op))
    ensures ParseExtreme(op).Some? ==>
      (r.Failure? <==> forall i :: 0 <= i < |rows| ==> LastDefined(rows, cells, rows[i].ticker).None?)
    ensures r.Failure? && ParseExtreme(op).Some? ==> r.error == NoRow
    ensures r.Success? ==> exists i :: 0 <= i < |rows| && rows[i].ticker == r.value.ticker
    ensures r.Success? ==> LastDefined(rows, cells, r.value.ticker) == Some(r.value.value)
    ensures r.Success? ==>
      forall i :: 0 <= i < |rows| && LastDefined(rows, cells, rows[i].ticker).Some? ==>
        Beats(ParseExtreme(op).value, r.value.value, LastDefined(rows, cells, rows[i].ticker).value)
  {
    match ParseExtreme(op)
    case None => Failure(UnboundResult(op))
    case Some(e) =>
      var groups := TickerGroups(rows);
      var lasts := seq(|groups|, g requires 0 <= g < |groups| => LastDefined(rows, cells, groups[g]));
      var best := BestOf(e, lasts);
      assert forall i :: 0 <= i < |rows| ==> exists g :: 0 <= g < |groups| && groups[g] == rows[i].ticker
                                                       && lasts[g] == LastDefined(rows, cells, rows[i].ticker) by {
        forall i | 0 <= i < |rows|
          ensures exists g :: 0 <= g < |groups| && groups[g] == rows[i].ticker
                              && lasts[g] == LastDefined(rows, cells, rows[i].ticker)
        {
          assert rows[i].ticker in groups;
          var g :| 0 <= g < |groups| && groups[g] == rows[i].ticker;
        }
      }
      if best.None? then Failure(NoRow)
      else
        var g := FirstIndexOf(lasts, best);
        assert groups[g] in groups;
        Success(Annotation(groups[g], best.value))
  }
}

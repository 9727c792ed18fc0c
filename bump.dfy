/**
 * bump.py: which tickers rose by more than a factor over one of the offset
 * horizons, and each ticker's current value.
 */
module Bump {
  import opened Wrappers
  import opened Collections
  import opened Models
  import opened Frames

  /** A float quotient: dividing by zero gives an infinity or NaN instead of failing. */
  datatype Ratio = Finite(value: real) | PosInf | NegInf | NaN

  /**
   * `close / origin - 1`, where a missing origin value is NaN: the bump is finite
   * exactly for a non-zero origin, and then the origin grown by it gives the close.
   */
  function BumpRatio(close: real, origin: Option<real>): (r: Ratio)
    ensures r.Finite? <==> origin.Some? && origin.value != 0.0
    ensures r.Finite? ==> (r.value + 1.0) * origin.value == close
    ensures r.NaN? <==> origin.None? || (origin.value == 0.0 && close == 0.0)
    ensures r.PosInf? <==> origin.Some? && origin.value == 0.0 && close > 0.0
  {
    match origin
    case None => NaN
    case Some(o) =>
      if o != 0.0 then
        assert (close / o) * o == close;
        Finite(close / o - 1.0)
      else if close > 0.0 then PosInf
      else if close < 0.0 then NegInf
      else NaN
  }

  /** `bump > bump_factor`: every comparison with NaN is false. */
  predicate Exceeds(bump: Ratio, bumpFactor: real)
  {
    bump.PosInf? || (bump.Finite? && bump.value > bumpFactor)
  }

  /** Multiplying both sides by a positive number keeps an inequality; by a negative one flips it. */
  lemma ScaleKeepsOrder(x: real, y: real, o: real)
    requires o != 0.0
    ensures o > 0.0 ==> (x > y <==> x * o > y * o)
    ensures o < 0.0 ==> (x > y <==> x * o < y * o)
  {
    assert x * o - y * o == (x - y) * o;
  }

  /**
   * The bump exceeds `f` exactly when the close grew past `f + 1` times the
   * origin value (or, from a zero origin, is positive at all); a missing
   * origin never qualifies.
   */
  lemma ExceedsMeansGrowth(close: real, origin: Option<real>, f: real)
    ensures origin.None? ==> !Exceeds(BumpRatio(close, origin), f)
    ensures origin.Some? && origin.value > 0.0 ==>
      (Exceeds(BumpRatio(close, origin), f) <==> close > (f + 1.0) * origin.value)
    ensures origin.Some? && origin.value < 0.0 ==>
      (Exceeds(BumpRatio(close, origin), f) <==> close < (f + 1.0) * origin.value)
    ensures origin.Some? && origin.value == 0.0 ==>
      (Exceeds(BumpRatio(close, origin), f) <==> close > 0.0)
  {
    if origin.Some? && origin.value != 0.0 {
      var o := origin.value;
      var q := close / o;
      assert q * o == close;
      ScaleKeepsOrder(q, f + 1.0, o);
    }
  }

  /** One row of the frame `_bump_df_filtered_by_bump_factor` returns. */
  datatype BumpRow = BumpRow(ticker: string, date: Day, close: real, originDate: Day, originValue: Option<real>, bump: Ratio)

  /** Every row has a value (possibly NaN) in `column`. */
  predicate HasColumn(rows: seq<TickerRow>, column: string)
  {
    forall i :: 0 <= i < |rows| ==> column in rows[i].offsets
  }

  /** The bump, origin date and origin value columns the helper adds to one row. */
  function WithBumpColumns(row: TickerRow, column: string, years: int, cal: Calendar): BumpRow
    requires column in row.offsets
  {
    BumpRow(row.ticker, row.bar.date, row.bar.close, cal.back(row.bar.date, years, 0, 0),
            row.offsets[column], BumpRatio(row.bar.close, row.offsets[column]))
  }

  /**
   * The frame with the bump columns added: every row keeps its ticker, date and
   * close, and gains the date `years` earlier, the offset column's value as its
   * origin value, and the bump from that value to the close.
   */
  function AddBumpColumns(rows: seq<TickerRow>, column: string, years: int, cal: Calendar): (r: seq<BumpRow>)
    requires HasColumn(rows, column)
    ensures |r| == |rows|
    ensures forall i :: 0 <= i < |rows| ==>
      r[i].ticker == rows[i].ticker && r[i].date == rows[i].bar.date && r[i].close == rows[i].bar.close
    ensures forall i :: 0 <= i < |rows| ==>
      r[i].originDate == cal.back(rows[i].bar.date, years, 0, 0) && r[i].originValue == rows[i].offsets[column]
    ensures forall i :: 0 <= i < |rows| ==> r[i].bump == BumpRatio(r[i].close, r[i].originValue)
    ensures forall i :: 0 <= i < |rows| ==> r[i] == WithBumpColumns(rows[i], column, years, cal)
  {
    seq(|rows|, i requires 0 <= i < |rows| => WithBumpColumns(rows[i], column, years, cal))
  }

  /** A row the helper keeps before removing duplicate tickers. */
  predicate Qualifies(b: BumpRow, bumpFactor: real, cutoffYear: int, cal: Calendar)
  {
    cal.yearOf(b.originDate) > cutoffYear && Exceeds(b.bump, bumpFactor)
  }

  /**
   * `_bump_df_filtered_by_bump_factor`: add the bump columns, keep the rows whose
   * origin year is after the cutoff, keep those whose bump exceeds the factor,
   * then keep the last row of each ticker.
   */
  function BumpDfFilteredByBumpFactor(rows: seq<TickerRow>, column: string, years: int, bumpFactor: real,
                                      cutoffYear: int, cal: Calendar): (r: seq<BumpRow>)
    requires HasColumn(rows, column)
    ensures forall b :: b in r ==> Qualifies(b, bumpFactor, cutoffYear, cal)
    ensures forall i, j :: 0 <= i < j < |r| ==> r[i].ticker != r[j].ticker
    ensures IsSubsequence(r, AddBumpColumns(rows, column, years, cal))
  {
    var framed := AddBumpColumns(rows, column, years, cal);
    var recent := Where(framed, (b: BumpRow) => cal.yearOf(b.originDate) > cutoffYear);
    var bumped := Where(recent, (b: BumpRow) => Exceeds(b.bump, bumpFactor));
    var r := KeepLast(bumped, (b: BumpRow) => b.ticker);
    SubsequenceMembers(r, bumped);
    SubsequenceTransitive(bumped, recent, framed);
    SubsequenceTransitive(r, bumped, framed);
    r
  }

  /** No later row of the same ticker qualifies after `rows[i]`. */
  ghost predicate IsLastQualifying(rows: seq<TickerRow>, i: int, column: string, years: int, bumpFactor: real,
                                   cutoffYear: int, cal: Calendar)
    requires HasColumn(rows, column) && 0 <= i < |rows|
  {
    forall j :: i < j < |rows| && rows[j].ticker == rows[i].ticker ==>
      !Qualifies(WithBumpColumns(rows[j], column, years, cal), bumpFactor, cutoffYear, cal)
  }

  /**
   * The helper returns, in input order, exactly the last qualifying row of each
   * ticker that has one, with the origin columns taken from that row.
   */
  lemma BumpFilterKeepsLastQualifyingRow(rows: seq<TickerRow>, column: string, years: int, bumpFactor: real,
                                         cutoffYear: int, cal: Calendar)
    requires HasColumn(rows, column)
    ensures var r := BumpDfFilteredByBumpFactor(rows, column, years, bumpFactor, cutoffYear, cal);
      && (forall b :: b in r ==>
            (exists i :: 0 <= i < |rows| && b == WithBumpColumns(rows[i], column, years, cal)
              && Qualifies(b, bumpFactor, cutoffYear, cal)
              && IsLastQualifying(rows, i, column, years, bumpFactor, cutoffYear, cal)))
      && (forall i :: 0 <= i < |rows| && Qualifies(WithBumpColumns(rows[i], column, years, cal), bumpFactor, cutoffYear, cal)
            && IsLastQualifying(rows, i, column, years, bumpFactor, cutoffYear, cal)
            ==> WithBumpColumns(rows[i], column, years, cal) in r)
      && (forall i, j :: 0 <= i < j < |r| ==> r[i].ticker != r[j].ticker)
      && IsSubsequence(r, AddBumpColumns(rows, column, years, cal))
  {
    var framed := AddBumpColumns(rows, column, years, cal);
    var p := (b: BumpRow) => cal.yearOf(b.originDate) > cutoffYear;
    var q := (b: BumpRow) => Exceeds(b.bump, bumpFactor);
    var both := (b: BumpRow) => Qualifies(b, bumpFactor, cutoffYear, cal);
    var key := (b: BumpRow) => b.ticker;
    var r := BumpDfFilteredByBumpFactor(rows, column, years, bumpFactor, cutoffYear, cal);
    WhereWhere(framed, p, q, both);
    assert r == KeepLast(Where(framed, both), key);
    KeepLastOfWhere(framed, both, key);
    SubsequenceTransitive(r, Where(framed, both), framed);
    forall i | 0 <= i < |rows|
      ensures IsLastKeptOfKey(framed, both, key, i) <==> IsLastQualifying(rows, i, column, years, bumpFactor, cutoffYear, cal)
    {
    }
  }

  /** A row whose offset value is missing (NaN) is never reported as a bump. */
  lemma MissingOriginNeverBumps(rows: seq<TickerRow>, column: string, years: int, bumpFactor: real,
                                cutoffYear: int, cal: Calendar)
    requires HasColumn(rows, column)
    ensures forall b :: b in BumpDfFilteredByBumpFactor(rows, column, years, bumpFactor, cutoffYear, cal) ==>
      b.originValue.Some?
  {
    BumpFilterKeepsLastQualifyingRow(rows, column, years, bumpFactor, cutoffYear, cal);
    forall b | b in BumpDfFilteredByBumpFactor(rows, column, years, bumpFactor, cutoffYear, cal)
      ensures b.originValue.Some?
    {
      ExceedsMeansGrowth(b.close, b.originValue, bumpFactor);
    }
  }

  /** The three horizons the bump table looks at: `offset_one`, `offset_two` and `offset_five`. */
  const BumpHorizons: seq<OffsetSpec> := HistoricalOffsetColumns[..3]

  predicate HasBumpColumns(rows: seq<TickerRow>)
  {
    forall k :: 0 <= k < |BumpHorizons| ==> HasColumn(rows, BumpHorizons[k].columnName)
  }

  /** The concatenated `big_bumps_df`: the helper over each horizon with factor `bump_factor_filter - 1`. */
  function BigBumps(rows: seq<TickerRow>, cutoffYear: int, bumpFactorFilter: real, cal: Calendar): (r: seq<BumpRow>)
    requires HasBumpColumns(rows)
    ensures forall b :: b in r ==> Qualifies(b, bumpFactorFilter - 1.0, cutoffYear, cal)
  {
    var f := bumpFactorFilter - 1.0;
    var one, two, five := BumpHorizons[0], BumpHorizons[1], BumpHorizons[2];
    var a := BumpDfFilteredByBumpFactor(rows, one.columnName, one.years, f, cutoffYear, cal);
    var b := BumpDfFilteredByBumpFactor(rows, two.columnName, two.years, f, cutoffYear, cal);
    var c := BumpDfFilteredByBumpFactor(rows, five.columnName, five.years, f, cutoffYear, cal);
    a + b + c
  }

  /** A reported row: its close is more than `factor` times its origin value, or positive after a zero one. */
  predicate GrewByFactor(b: BumpRow, factor: real)
  {
    && b.originValue.Some?
    && (b.originValue.value > 0.0 ==> b.close > factor * b.originValue.value)
    && (b.originValue.value == 0.0 ==> b.close > 0.0)
    && (b.originValue.value < 0.0 ==> b.close < factor * b.originValue.value)
  }

  lemma QualifyingRowGrew(b: BumpRow, bumpFactor: real, cutoffYear: int, cal: Calendar)
    requires b.bump == BumpRatio(b.close, b.originValue)
    requires Qualifies(b, bumpFactor, cutoffYear, cal)
    ensures GrewByFactor(b, bumpFactor + 1.0)
  {
    ExceedsMeansGrowth(b.close, b.originValue, bumpFactor);
  }

  /**
   * Every row the helper returns grew by more than `bumpFactor + 1` times its
   * origin value, over an origin year after the cutoff.
   */
  lemma FilteredRowsGrewByFactor(rows: seq<TickerRow>, column: string, years: int, bumpFactor: real,
                                 cutoffYear: int, cal: Calendar)
    requires HasColumn(rows, column)
    ensures forall b :: b in BumpDfFilteredByBumpFactor(rows, column, years, bumpFactor, cutoffYear, cal) ==>
      && GrewByFactor(b, bumpFactor + 1.0)
      && cal.yearOf(b.originDate) > cutoffYear
      && (exists i :: 0 <= i < |rows| && b == WithBumpColumns(rows[i], column, years, cal))
  {
    var r := BumpDfFilteredByBumpFactor(rows, column, years, bumpFactor, cutoffYear, cal);
    BumpFilterKeepsLastQualifyingRow(rows, column, years, bumpFactor, cutoffYear, cal);
    forall b | b in r
      ensures GrewByFactor(b, bumpFactor + 1.0)
    {
      var i :| 0 <= i < |rows| && b == WithBumpColumns(rows[i], column, years, cal) && Qualifies(b, bumpFactor, cutoffYear, cal);
      QualifyingRowGrew(b, bumpFactor, cutoffYear, cal);
    }
  }

  /**
   * Every big bump is a row whose close is more than `bump_factor_filter` times
   * its value one, two or five years earlier (or positive after a zero value).
   */
  lemma BigBumpMeansGrowthByFactor(rows: seq<TickerRow>, cutoffYear: int, bumpFactorFilter: real, cal: Calendar)
    requires HasBumpColumns(rows)
    ensures forall b :: b in BigBumps(rows, cutoffYear, bumpFactorFilter, cal) ==>
      && GrewByFactor(b, bumpFactorFilter)
      && cal.yearOf(b.originDate) > cutoffYear
      && (exists k, i :: 0 <= k < 3 && 0 <= i < |rows| &&
           b == WithBumpColumns(rows[i], BumpHorizons[k].columnName, BumpHorizons[k].years, cal))
  {
    var f := bumpFactorFilter - 1.0;
    assert f + 1.0 == bumpFactorFilter;
    var one, two, five := BumpHorizons[0], BumpHorizons[1], BumpHorizons[2];
    FilteredRowsGrewByFactor(rows, one.columnName, one.years, f, cutoffYear, cal);
    FilteredRowsGrewByFactor(rows, two.columnName, two.years, f, cutoffYear, cal);
    FilteredRowsGrewByFactor(rows, five.columnName, five.years, f, cutoffYear, cal);
  }

  /** One row of `_current_value_df`'s frame. */
  datatype CurrentValue = CurrentValue(ticker: string, close: real)

  /** The ticker column. */
  function Tickers(rows: seq<TickerRow>): (r: seq<string>)
    ensures |r| == |rows|
    ensures forall i :: 0 <= i < |rows| ==> r[i] == rows[i].ticker
  {
    seq(|rows|, i requires 0 <= i < |rows| => rows[i].ticker)
  }

  lemma TickerHasRows(rows: seq<TickerRow>, ticker: string)
    requires ticker in Tickers(rows)
    ensures RowsFor(rows, ticker) != []
  {
    var i :| 0 <= i < |rows| && Tickers(rows)[i] == ticker;
    assert rows[i] in RowsFor(rows, ticker);
  }

  /** The selected rows dated `date`. */
  function OnDate(rows: seq<TickerRow>, date: Day): (r: seq<TickerRow>)
    ensures forall x :: x in r <==> x in rows && x.bar.date == date
  {
    Where(rows, (x: TickerRow) => x.bar.date == date)
  }

  lemma LatestDateIsSelected(rows: seq<TickerRow>)
    requires rows != []
    ensures OnDate(rows, LatestDate(rows)) != []
  {
    var i :| 0 <= i < |rows| && rows[i].bar.date == LatestDate(rows);
    assert rows[i] in OnDate(rows, LatestDate(rows));
  }

  /**
   * The first row of `ticker` on its greatest date: a scan in row order that
   * replaces its pick only by a row of the ticker with a strictly later date.
   */
  function CurrentRow(rows: seq<TickerRow>, ticker: string): (c: Option<TickerRow>)
    ensures c.Some? <==> ticker in Tickers(rows)
  {
    if rows == [] then None
    else
      var best := CurrentRow(rows[..|rows| - 1], ticker);
      var x := rows[|rows| - 1];
      assert Tickers(rows) == Tickers(rows[..|rows| - 1]) + [x.ticker];
      if x.ticker == ticker && (best.None? || x.bar.date > best.value.bar.date) then Some(x) else best
  }

  /** A ticker's current value: the close of its current row. */
  function LatestClose(rows: seq<TickerRow>, ticker: string): real
    requires ticker in Tickers(rows)
  {
    CurrentRow(rows, ticker).value.bar.close
  }

  /** `rows[i]` holds the ticker's current value: none of its rows is later, and every earlier one is older. */
  ghost predicate IsCurrentRow(rows: seq<TickerRow>, ticker: string, i: int)
    requires 0 <= i < |rows|
  {
    && rows[i].ticker == ticker
    && (forall j :: 0 <= j < |rows| && rows[j].ticker == ticker ==> rows[j].bar.date <= rows[i].bar.date)
    && (forall j :: 0 <= j < i && rows[j].ticker == ticker ==> rows[j].bar.date < rows[i].bar.date)
  }

  /** At most one row is the current row of a ticker. */
  lemma CurrentRowIsUnique(rows: seq<TickerRow>, ticker: string, i: int, k: int)
    requires 0 <= i < |rows| && 0 <= k < |rows|
    requires IsCurrentRow(rows, ticker, i) && IsCurrentRow(rows, ticker, k)
    ensures i == k
  {
  }

  /** The scan picks the current row. */
  lemma {:induction false} CurrentRowIsCurrent(rows: seq<TickerRow>, ticker: string)
    requires ticker in Tickers(rows)
    ensures exists i :: 0 <= i < |rows| && rows[i] == CurrentRow(rows, ticker).value && IsCurrentRow(rows, ticker, i)
  {
    var n := |rows|;
    var p, x := rows[..n - 1], rows[n - 1];
    var best := CurrentRow(p, ticker);
    if best.None? {
      forall j | 0 <= j < n - 1
        ensures rows[j].ticker != ticker
      {
        assert Tickers(p)[j] == p[j].ticker == rows[j].ticker;
      }
      assert IsCurrentRow(rows, ticker, n - 1);
    } else {
      CurrentRowIsCurrent(p, ticker);
      var i :| 0 <= i < |p| && p[i] == best.value && IsCurrentRow(p, ticker, i);
      if x.ticker == ticker && x.bar.date > best.value.bar.date {
        LaterRowBecomesCurrent(rows, ticker, i);
      } else {
        CurrentRowStaysCurrent(rows, ticker, i);
      }
    }
  }

  /** A last row of the ticker later than the prefix's current row is the new current row. */
  lemma LaterRowBecomesCurrent(rows: seq<TickerRow>, ticker: string, i: int)
    requires 0 <= i < |rows| - 1 && IsCurrentRow(rows[..|rows| - 1], ticker, i)
    requires rows[|rows| - 1].ticker == ticker && rows[|rows| - 1].bar.date > rows[i].bar.date
    ensures IsCurrentRow(rows, ticker, |rows| - 1)
  {
    var p := rows[..|rows| - 1];
    forall j | 0 <= j < |rows| - 1 && rows[j].ticker == ticker
      ensures rows[j].bar.date < rows[|rows| - 1].bar.date
    {
      assert p[j] == rows[j];
    }
  }

  /** A last row that is not later than the prefix's current row leaves it current. */
  lemma CurrentRowStaysCurrent(rows: seq<TickerRow>, ticker: string, i: int)
    requires 0 <= i < |rows| - 1 && IsCurrentRow(rows[..|rows| - 1], ticker, i)
    requires rows[|rows| - 1].ticker == ticker ==> rows[|rows| - 1].bar.date <= rows[i].bar.date
    ensures IsCurrentRow(rows, ticker, i)
  {
    var p := rows[..|rows| - 1];
    forall j | 0 <= j < |rows| - 1
      ensures rows[j] == p[j]
    {
    }
  }

  /**
   * The current value of a ticker is the close of its current row: its first
   * row on the ticker's latest date.
   */
  lemma LatestCloseMeaning(rows: seq<TickerRow>, ticker: string)
    requires ticker in Tickers(rows)
    ensures exists i :: 0 <= i < |rows| && IsCurrentRow(rows, ticker, i) && rows[i].bar.close == LatestClose(rows, ticker)
  {
    CurrentRowIsCurrent(rows, ticker);
  }

  /** The first of the ticker's rows dated `date` is the first such row of the whole frame. */
  lemma FirstRowOnDate(rows: seq<TickerRow>, ticker: string, date: Day)
    requires OnDate(RowsFor(rows, ticker), date) != []
    ensures exists i :: (0 <= i < |rows| && rows[i] == OnDate(RowsFor(rows, ticker), date)[0]
      && rows[i].ticker == ticker && rows[i].bar.date == date
      && forall j :: 0 <= j < i ==> !(rows[j].ticker == ticker && rows[j].bar.date == date))
  {
    var both := (x: TickerRow) => x.ticker == ticker && x.bar.date == date;
    WhereWhere(rows, (x: TickerRow) => x.ticker == ticker, (x: TickerRow) => x.bar.date == date, both);
    assert OnDate(RowsFor(rows, ticker), date) == Where(rows, both);
    WhereFirst(rows, both);
  }

  /** No row of the ticker is dated after its latest date. */
  lemma LatestDateBoundsTicker(rows: seq<TickerRow>, ticker: string)
    requires RowsFor(rows, ticker) != []
    ensures forall j :: 0 <= j < |rows| && rows[j].ticker == ticker ==> rows[j].bar.date <= LatestDate(RowsFor(rows, ticker))
  {
    forall j | 0 <= j < |rows| && rows[j].ticker == ticker
      ensures rows[j].bar.date <= LatestDate(RowsFor(rows, ticker))
    {
      assert rows[j] in RowsFor(rows, ticker);
    }
  }

  /** The row the selection steps read is a current row of the ticker. */
  lemma SelectedRowIsCurrent(rows: seq<TickerRow>, ticker: string)
    requires RowsFor(rows, ticker) != []
    ensures OnDate(RowsFor(rows, ticker), LatestDate(RowsFor(rows, ticker))) != []
    ensures exists i ::
      0 <= i < |rows| && rows[i] == OnDate(RowsFor(rows, ticker), LatestDate(RowsFor(rows, ticker)))[0] && IsCurrentRow(rows, ticker, i)
  {
    var own := RowsFor(rows, ticker);
    var latest := LatestDate(own);
    LatestDateIsSelected(own);
    FirstRowOnDate(rows, ticker, latest);
    LatestDateBoundsTicker(rows, ticker);
    var i :| 0 <= i < |rows| && rows[i] == OnDate(own, latest)[0]
      && rows[i].ticker == ticker && rows[i].bar.date == latest
      && forall j :: 0 <= j < i ==> !(rows[j].ticker == ticker && rows[j].bar.date == latest);
    assert IsCurrentRow(rows, ticker, i);
  }

  /**
   * Selecting the ticker's rows, taking their latest date and reading the first
   * row on it finds the current row.
   */
  lemma SelectionFindsCurrentRow(rows: seq<TickerRow>, ticker: string)
    requires ticker in Tickers(rows)
    ensures RowsFor(rows, ticker) != []
    ensures OnDate(RowsFor(rows, ticker), LatestDate(RowsFor(rows, ticker))) != []
    ensures OnDate(RowsFor(rows, ticker), LatestDate(RowsFor(rows, ticker)))[0] == CurrentRow(rows, ticker).value
  {
    TickerHasRows(rows, ticker);
    SelectedRowIsCurrent(rows, ticker);
    var selected := OnDate(RowsFor(rows, ticker), LatestDate(RowsFor(rows, ticker)))[0];
    var i :| 0 <= i < |rows| && rows[i] == selected && IsCurrentRow(rows, ticker, i);
    CurrentRowIsCurrent(rows, ticker);
    var k :| 0 <= k < |rows| && rows[k] == CurrentRow(rows, ticker).value && IsCurrentRow(rows, ticker, k);
    CurrentRowIsUnique(rows, ticker, i, k);
  }

  /** The body of `_current_value_df`'s loop: select the ticker's rows, take their latest date, read the first close on it. */
  method CurrentValueOf(rows: seq<TickerRow>, ticker: string) returns (close: real)
    requires ticker in Tickers(rows)
    ensures close == LatestClose(rows, ticker)
  {
    SelectionFindsCurrentRow(rows, ticker);
    var own := RowsFor(rows, ticker);
    var latestDate := LatestDate(own);
    close := OnDate(own, latestDate)[0].bar.close;
  }

  /**
   * `_current_value_df`: one row per distinct ticker, in order of first
   * appearance, with that ticker's current value.
   */
  method CurrentValueDf(rows: seq<TickerRow>) returns (r: seq<CurrentValue>)
    ensures |r| == |Distinct(Tickers(rows))|
    ensures forall i :: 0 <= i < |r| ==> r[i].ticker == Distinct(Tickers(rows))[i]
    ensures forall i :: 0 <= i < |r| ==> r[i].ticker in Tickers(rows) && r[i].close == LatestClose(rows, r[i].ticker)
  {
    var tickers := Distinct(Tickers(rows));
    var currentValues: map<string, real> := map[];
    for k := 0 to |tickers|
      invariant forall j :: 0 <= j < k ==> tickers[j] in currentValues && currentValues[tickers[j]] == LatestClose(rows, tickers[j])
    {
      var ticker := tickers[k];
      var close := CurrentValueOf(rows, ticker);
      currentValues := currentValues[ticker := close];
    }
    r := seq(|tickers|, i requires 0 <= i < |tickers| => CurrentValue(tickers[i], currentValues[tickers[i]]));
  }

  /**
   * `bump_dataframe`'s result: the stored rows dated strictly after January 1
   * of the cutoff year, in store order.
   */
  function BumpDataframe(rows: seq<TickerRow>, cutoffYear: int, bumpFactorFilter: real, cal: Calendar): (r: seq<TickerRow>)
    ensures forall x :: x in r <==> x in rows && x.bar.date > cal.newYear(cutoffYear)
    ensures IsSubsequence(r, rows)
  {
    Where(rows, (x: TickerRow) => x.bar.date > cal.newYear(cutoffYear))
  }

  /** The big bumps are computed and dropped: the returned rows do not depend on the bump factor. */
  lemma BumpDataframeIgnoresBumpFactor(rows: seq<TickerRow>, cutoffYear: int, f: real, g: real, cal: Calendar)
    ensures BumpDataframe(rows, cutoffYear, f, cal) == BumpDataframe(rows, cutoffYear, g, cal)
  {
  }
}

/**
 * stooqie/ticker.py: for every row of a ticker's daily history, find the row whose
 * date is nearest to "this date minus an offset" and join that row's close on as an
 * `offset_*` column; and the older `get_ticker_df`, which serves the stored rows of
 * a ticker unless they are stale.
 */
module TickerHistory {
  import opened Wrappers
  import opened Collections
  import opened Models
  import opened Frames

  /** The `Date` column. */
  function Dates(bars: seq<Bar>): (ds: seq<Day>)
    ensures |ds| == |bars|
    ensures forall i :: 0 <= i < |bars| ==> ds[i] == bars[i].date
  {
    seq(|bars|, i requires 0 <= i < |bars| => bars[i].date)
  }

  /** `date - pd.DateOffset(years=…, months=…, days=…)` for one offset column. */
  function Target(date: Day, spec: OffsetSpec, cal: Calendar): Day
  {
    cal.back(date, spec.years, spec.months, spec.days)
  }

  /** `df[date_column].min()`. */
  function MinDate(dates: seq<Day>): (m: Day)
    requires |dates| > 0
    ensures m in dates
    ensures forall i :: 0 <= i < |dates| ==> m <= dates[i]
  {
    if |dates| == 1 then dates[0]
    else
      var m := MinDate(dates[1..]);
      assert forall i :: 1 <= i < |dates| ==> dates[i] == dates[1..][i - 1];
      if dates[0] <= m then dates[0] else m
  }

  /**
   * Among the first `n` dates, `k` is closest to `target` in absolute distance, and
   * every earlier index is strictly farther: numpy's `argmin`, which returns the
   * first minimiser.
   */
  ghost predicate IsFirstNearestBelow(dates: seq<Day>, target: Day, k: int, n: int)
    requires n <= |dates|
  {
    && 0 <= k < n
    && (forall j :: 0 <= j < n ==> Abs(dates[k] - target) <= Abs(dates[j] - target))
    && (forall j :: 0 <= j < k ==> Abs(dates[k] - target) < Abs(dates[j] - target))
  }

  ghost predicate IsFirstNearest(dates: seq<Day>, target: Day, k: int)
  {
    IsFirstNearestBelow(dates, target, k, |dates|)
  }

  function NearestIndexBelow(dates: seq<Day>, target: Day, n: nat): (k: nat)
    requires 0 < n <= |dates|
    ensures IsFirstNearestBelow(dates, target, k, n)
  {
    if n == 1 then 0
    else
      var k := NearestIndexBelow(dates, target, n - 1);
      if Abs(dates[n - 1] - target) < Abs(dates[k] - target) then n - 1 else k
  }

  function NearestIndex(dates: seq<Day>, target: Day): (k: nat)
    requires |dates| > 0
    ensures IsFirstNearest(dates, target, k)
  {
    NearestIndexBelow(dates, target, |dates|)
  }

  /** At most one index is the first nearest one. */
  lemma FirstNearestIsUnique(dates: seq<Day>, target: Day, k1: int, k2: int)
    requires IsFirstNearest(dates, target, k1) && IsFirstNearest(dates, target, k2)
    ensures k1 == k2
  {
    assert Abs(dates[k1] - target) <= Abs(dates[k2] - target);
    assert Abs(dates[k2] - target) <= Abs(dates[k1] - target);
  }

  /** One row of `abs(targets[:, None] - dates).argmin(axis=1)`: a scan that keeps the first smallest distance. */
  method ArgMinDistance(dates: seq<Day>, target: Day) returns (k: nat)
    requires |dates| > 0
    ensures IsFirstNearest(dates, target, k)
  {
    k := 0;
    for j := 1 to |dates|
      invariant IsFirstNearestBelow(dates, target, k, j)
    {
      if Abs(dates[j] - target) < Abs(dates[k] - target) {
        k := j;
      }
    }
  }

  /** The date reported for one target: the first nearest date, or NaT when the target precedes every date. */
  function NearestDate(dates: seq<Day>, target: Day): (r: Option<Day>)
    requires |dates| > 0
    ensures r == None <==> forall i :: 0 <= i < |dates| ==> target < dates[i]
    ensures r.Some? ==> exists k :: IsFirstNearest(dates, target, k) && r.value == dates[k]
  {
    if target < MinDate(dates) then None else Some(dates[NearestIndex(dates, target)])
  }

  /** A target that is itself a date of the history (the earliest one included) is matched to itself. */
  lemma ExactDateIsItsOwnMatch(dates: seq<Day>, target: Day)
    requires target in dates
    ensures NearestDate(dates, target) == Some(target)
  {
    var i :| 0 <= i < |dates| && dates[i] == target;
    var k := NearestIndex(dates, target);
    assert Abs(dates[k] - target) <= Abs(dates[i] - target);
  }

  /** The match is by absolute distance, so it may lie after the target date. */
  lemma MatchMayFollowTarget()
    ensures NearestDate([100, 110], 108) == Some(110)
  {
    assert MinDate([100, 110]) == 100;
    assert NearestIndexBelow([100, 110], 108, 1) == 0;
  }

  /** Between two equally near dates the earlier ROW wins, whichever of the two dates is earlier. */
  lemma TieGoesToEarlierRow()
    ensures NearestDate([110, 100], 105) == Some(110)
  {
    assert MinDate([110, 100]) == 100;
    assert NearestIndexBelow([110, 100], 105, 1) == 0;
  }

  /**
   * `_series_with_nearest_date_for_offset`: all nearest dates by `argmin`, then the
   * targets before the minimum date blanked to NaT in place.
   */
  method NearestDatesForOffset(dates: seq<Day>, spec: OffsetSpec, cal: Calendar) returns (nearest: seq<Option<Day>>)
    requires |dates| > 0
    ensures |nearest| == |dates|
    ensures forall i :: 0 <= i < |dates| ==> nearest[i] == NearestDate(dates, Target(dates[i], spec, cal))
  {
    nearest := ArgMinDates(dates, spec, cal);
    var minDate := MinDate(dates);
    for i := 0 to |dates|
      invariant |nearest| == |dates|
      invariant forall p :: 0 <= p < i ==> nearest[p] == RowMatch(dates, p, spec, cal)
      invariant forall p :: i <= p < |dates| ==> nearest[p] == ArgMinMatch(dates, p, spec, cal)
    {
      if Target(dates[i], spec, cal) < minDate {
        nearest := nearest[i := None];
      }
    }
  }

  /** `df_date[nearest_indices]`: the `argmin` step for every row, before blanking. */
  method ArgMinDates(dates: seq<Day>, spec: OffsetSpec, cal: Calendar) returns (nearest: seq<Option<Day>>)
    ensures |nearest| == |dates|
    ensures forall p :: 0 <= p < |dates| ==> nearest[p] == ArgMinMatch(dates, p, spec, cal)
  {
    nearest := [];
    for i := 0 to |dates|
      invariant |nearest| == i
      invariant forall p :: 0 <= p < i ==> nearest[p] == ArgMinMatch(dates, p, spec, cal)
    {
      var target := Target(dates[i], spec, cal);
      var k := ArgMinDistance(dates, target);
      FirstNearestIsUnique(dates, target, k, NearestIndex(dates, target));
      nearest := nearest + [Some(dates[k])];
    }
  }

  /** Row `p`'s entry after the `argmin` step, before blanking. */
  function ArgMinMatch(dates: seq<Day>, p: int, spec: OffsetSpec, cal: Calendar): Option<Day>
    requires 0 <= p < |dates|
  {
    Some(dates[NearestIndex(dates, Target(dates[p], spec, cal))])
  }

  /** Row `p`'s final entry. */
  function RowMatch(dates: seq<Day>, p: int, spec: OffsetSpec, cal: Calendar): Option<Day>
    requires 0 <= p < |dates|
  {
    NearestDate(dates, Target(dates[p], spec, cal))
  }

  /** No two bars share a date, as in a well-formed Stooq history. */
  ghost predicate DistinctDates(bars: seq<Bar>)
  {
    forall i, j :: 0 <= i < |bars| && 0 <= j < |bars| && i != j ==> bars[i].date != bars[j].date
  }

  /** The left merge on the matched date: the `Close` of the first bar with that date; NaN for NaT. */
  function CloseOn(bars: seq<Bar>, date: Option<Day>): (r: Option<real>)
    ensures r.Some? <==> date.Some? && exists j :: 0 <= j < |bars| && bars[j].date == date.value
    ensures r.Some? ==> exists j :: (0 <= j < |bars| && bars[j].date == date.value && bars[j].close == r.value
                                     && forall i :: 0 <= i < j ==> bars[i].date != date.value)
  {
    match date
    case None => None
    case Some(d) =>
      var keep := (b: Bar) => b.date == d;
      var hits := Where(bars, keep);
      if hits == [] then
        assert forall j :: 0 <= j < |bars| ==> bars[j] !in hits;
        None
      else
        WhereFirst(bars, keep);
        Some(hits[0].close)
  }

  /** The value of one offset column in row `i`. */
  function OffsetClose(bars: seq<Bar>, i: int, spec: OffsetSpec, cal: Calendar): Option<real>
    requires 0 <= i < |bars|
  {
    CloseOn(bars, NearestDate(Dates(bars), Target(bars[i].date, spec, cal)))
  }

  /**
   * An offset value is absent exactly when the target precedes the whole history;
   * otherwise it is the close of a bar of the same history dated at the nearest date,
   * and with distinct dates it is the close of the first nearest row itself.
   */
  lemma OffsetCloseMeaning(bars: seq<Bar>, i: int, spec: OffsetSpec, cal: Calendar)
    requires 0 <= i < |bars|
    ensures var target := Target(bars[i].date, spec, cal);
      OffsetClose(bars, i, spec, cal) == None <==> forall j :: 0 <= j < |bars| ==> target < bars[j].date
    ensures var target := Target(bars[i].date, spec, cal);
      OffsetClose(bars, i, spec, cal).Some? ==>
        exists j :: 0 <= j < |bars| && bars[j].close == OffsetClose(bars, i, spec, cal).value
          && bars[j].date == NearestDate(Dates(bars), target).value
    ensures var target := Target(bars[i].date, spec, cal);
      DistinctDates(bars) && OffsetClose(bars, i, spec, cal).Some? ==>
        OffsetClose(bars, i, spec, cal).value == bars[NearestIndex(Dates(bars), target)].close
  {
    var dates := Dates(bars);
    var target := Target(bars[i].date, spec, cal);
    match NearestDate(dates, target)
    case None =>
    case Some(d) =>
      var k := NearestIndex(dates, target);
      var keep := (b: Bar) => b.date == d;
      var hits := Where(bars, keep);
      assert bars[k] in hits;
      assert hits[0] in hits;
      var j :| 0 <= j < |bars| && bars[j] == hits[0];
      assert bars[j].date == d;
      if DistinctDates(bars) {
        assert j == k;
      }
  }

  /** The `offset_*` columns of row `i`, added one spec after another. */
  function OffsetsFor(bars: seq<Bar>, i: int, specs: seq<OffsetSpec>, cal: Calendar): map<string, Option<real>>
    requires 0 <= i < |bars|
  {
    if specs == [] then map[]
    else
      var last := specs[|specs| - 1];
      OffsetsFor(bars, i, specs[..|specs| - 1], cal)[last.columnName := OffsetClose(bars, i, last, cal)]
  }

  /** One `offset_*` column per spec name. */
  lemma {:induction false} OffsetsForKeys(bars: seq<Bar>, i: int, specs: seq<OffsetSpec>, cal: Calendar)
    requires 0 <= i < |bars|
    ensures OffsetsFor(bars, i, specs, cal).Keys == set s | s in specs :: s.columnName
  {
    if specs != [] {
      var p := specs[..|specs| - 1];
      OffsetsForKeys(bars, i, p, cal);
      assert specs == p + [specs[|specs| - 1]];
      assert (set s | s in specs :: s.columnName) == (set s | s in p :: s.columnName) + {specs[|specs| - 1].columnName};
    }
  }

  /** A column holds the value of the last spec with its name: a later column assignment overwrites. */
  lemma {:induction false} OffsetsForValues(bars: seq<Bar>, i: int, specs: seq<OffsetSpec>, cal: Calendar, k: int)
    requires 0 <= i < |bars|
    requires 0 <= k < |specs|
    requires forall j :: k < j < |specs| ==> specs[j].columnName != specs[k].columnName
    ensures specs[k].columnName in OffsetsFor(bars, i, specs, cal)
    ensures OffsetsFor(bars, i, specs, cal)[specs[k].columnName] == OffsetClose(bars, i, specs[k], cal)
  {
    var n := |specs| - 1;
    if k < n {
      var p := specs[..n];
      assert specs[k] == p[k];
      assert specs[n].columnName != specs[k].columnName;
      OffsetsForValues(bars, i, p, cal, k);
    }
  }

  /**
   * `historical_change_from_ticker` after the fetch: an empty history is rejected;
   * otherwise every row is kept, in order, with its price columns and one column per spec.
   */
  function HistoricalChange(bars: seq<Bar>, specs: seq<OffsetSpec>, cal: Calendar): (r: Result<seq<HistoricalRow>, StooqieError>)
    ensures r.Failure? <==> bars == []
    ensures r.Failure? ==> r.error == EmptyHistory
    ensures r.Success? ==> |r.value| == |bars| && forall i :: 0 <= i < |bars| ==> r.value[i].bar == bars[i]
  {
    if bars == [] then Failure(EmptyHistory)
    else Success(seq(|bars|, i requires 0 <= i < |bars| => HistoricalRow(bars[i], OffsetsFor(bars, i, specs, cal))))
  }

  /** Every row of the aligned history has exactly the offset columns, one per spec name. */
  lemma HistoricalChangeShape(bars: seq<Bar>, specs: seq<OffsetSpec>, cal: Calendar)
    ensures var r := HistoricalChange(bars, specs, cal);
      r.Success? ==> forall i :: 0 <= i < |bars| ==> r.value[i].offsets.Keys == set s | s in specs :: s.columnName
  {
    forall i | 0 <= i < |bars| ensures OffsetsFor(bars, i, specs, cal).Keys == set s | s in specs :: s.columnName {
      OffsetsForKeys(bars, i, specs, cal);
    }
  }

  /**
   * `historical_change_from_ticker` on the fetched bars: the empty check, then one
   * column added per spec, each from the nearest dates and the merge on them.
   */
  method HistoricalChangeFromTicker(bars: seq<Bar>, specs: seq<OffsetSpec>, cal: Calendar)
    returns (r: Result<seq<HistoricalRow>, StooqieError>)
    ensures r == HistoricalChange(bars, specs, cal)
  {
    if |bars| == 0 {
      return Failure(EmptyHistory);
    }
    var dates := Dates(bars);
    var frame := seq(|bars|, i requires 0 <= i < |bars| => HistoricalRow(bars[i], map[]));
    for k := 0 to |specs|
      invariant |frame| == |bars|
      invariant forall i :: 0 <= i < |bars| ==> frame[i] == HistoricalRow(bars[i], OffsetsFor(bars, i, specs[..k], cal))
    {
      var spec := specs[k];
      assert specs[..k + 1][..k] == specs[..k] && specs[..k + 1][k] == spec;
      var nearest := NearestDatesForOffset(dates, spec, cal);
      for i := 0 to |bars|
        invariant |frame| == |bars|
        invariant forall p :: 0 <= p < i ==> frame[p] == HistoricalRow(bars[p], OffsetsFor(bars, p, specs[..k + 1], cal))
        invariant forall p :: i <= p < |bars| ==> frame[p] == HistoricalRow(bars[p], OffsetsFor(bars, p, specs[..k], cal))
      {
        var value := CloseOn(bars, nearest[i]);
        frame := frame[i := HistoricalRow(bars[i], frame[i].offsets[spec.columnName := value])];
      }
    }
    assert specs[..|specs|] == specs;
    var expected := seq(|bars|, i requires 0 <= i < |bars| => HistoricalRow(bars[i], OffsetsFor(bars, i, specs, cal)));
    assert frame == expected;
    return Success(frame);
  }

  /** The fetched history aligned and tagged with its ticker (`df["ticker"] = ticker`). */
  function TaggedHistoricalChange(ticker: string, bars: seq<Bar>, specs: seq<OffsetSpec>, cal: Calendar): Result<seq<TickerRow>, StooqieError>
  {
    match HistoricalChange(bars, specs, cal)
    case Failure(e) => Failure(e)
    case Success(rows) => Success(Tag(rows, ticker))
  }

  /** A successful fetch yields one row per fetched bar, each carrying the requested ticker. */
  lemma TaggedHistoricalChangeRows(ticker: string, bars: seq<Bar>, specs: seq<OffsetSpec>, cal: Calendar)
    ensures TaggedHistoricalChange(ticker, bars, specs, cal).Failure? <==> bars == []
    ensures var r := TaggedHistoricalChange(ticker, bars, specs, cal);
      r.Success? ==> |r.value| == |bars| && forall i :: 0 <= i < |bars| ==> r.value[i].ticker == ticker && r.value[i].bar == bars[i]
  {
  }

  /**
   * `get_ticker_df` of ticker.py. Its staleness test runs on `max()` of the cached
   * dates; for no cached rows that is NaT, the difference's `.days` is NaN and
   * `NaN > ttl` is false, so only a non-empty cache can be found stale.
   */
  function GetTickerDf(stored: seq<TickerRow>, ticker: string, invalidationTtl: int, now: Day,
                       fetch: string -> seq<Bar>, specs: seq<OffsetSpec>, cal: Calendar): (r: Result<seq<TickerRow>, StooqieError>)
    ensures r.Failure? ==> r.error == EmptyHistory && fetch(ticker) == []
    ensures r.Success? ==> forall i :: 0 <= i < |r.value| ==> r.value[i].ticker == ticker
  {
    TaggedHistoricalChangeRows(ticker, fetch(ticker), specs, cal);
    var cached := RowsFor(stored, ticker);
    if |cached| > 0 && IsStale(LatestDate(cached), now, invalidationTtl) then
      TaggedHistoricalChange(ticker, fetch(ticker), specs, cal)
    else
      Success(cached)
  }

  /** A fresh cache is returned as stored, whatever the fetch would have given: no fetch happens. */
  lemma GetTickerDfServesFreshCache(stored: seq<TickerRow>, ticker: string, invalidationTtl: int, now: Day,
                                    fetch: string -> seq<Bar>, otherFetch: string -> seq<Bar>, specs: seq<OffsetSpec>, cal: Calendar)
    requires RowsFor(stored, ticker) != []
    requires !IsStale(LatestDate(RowsFor(stored, ticker)), now, invalidationTtl)
    ensures GetTickerDf(stored, ticker, invalidationTtl, now, fetch, specs, cal) == Success(RowsFor(stored, ticker))
    ensures GetTickerDf(stored, ticker, invalidationTtl, now, otherFetch, specs, cal) == GetTickerDf(stored, ticker, invalidationTtl, now, fetch, specs, cal)
  {
  }

  /** A stale cache is replaced in the result by the freshly aligned history, every row tagged with the ticker. */
  lemma GetTickerDfRefetchesStaleCache(stored: seq<TickerRow>, ticker: string, invalidationTtl: int, now: Day,
                                       fetch: string -> seq<Bar>, specs: seq<OffsetSpec>, cal: Calendar)
    requires RowsFor(stored, ticker) != []
    requires IsStale(LatestDate(RowsFor(stored, ticker)), now, invalidationTtl)
    ensures var r := GetTickerDf(stored, ticker, invalidationTtl, now, fetch, specs, cal);
      && r == TaggedHistoricalChange(ticker, fetch(ticker), specs, cal)
      && (r.Failure? <==> fetch(ticker) == [])
      && (r.Success? ==> |r.value| == |fetch(ticker)| && forall i :: 0 <= i < |r.value| ==> r.value[i].ticker == ticker)
  {
    TaggedHistoricalChangeRows(ticker, fetch(ticker), specs, cal);
  }

  /** As written, a ticker with no stored rows is answered with no rows at all: it is never fetched. */
  lemma GetTickerDfNeverFetchesMissingTicker(stored: seq<TickerRow>, ticker: string, invalidationTtl: int, now: Day,
                                             fetch: string -> seq<Bar>, specs: seq<OffsetSpec>, cal: Calendar)
    requires forall i :: 0 <= i < |stored| ==> stored[i].ticker != ticker
    requires fetch(ticker) != []
    ensures GetTickerDf(stored, ticker, invalidationTtl, now, fetch, specs, cal) == Success([])
    ensures TaggedHistoricalChange(ticker, fetch(ticker), specs, cal).Success?
  {
    RowsForAbsent(stored, ticker);
  }
}

/**
 * stooqie/io.py: `get_ticker_df` serves a ticker's rows from the parquet store,
 * fetching from Stooq when the ticker is missing (and then appending it to the
 * store) or when its latest date is stale (without writing back).
 */
module TickerCache {
  import opened Wrappers
  import opened Collections
  import opened Models
  import opened Frames
  import TickerHistory

  type Path = string

  /** `_get_historical_change_df_from_stooq`: fetch and align the history, then set its `ticker` column row by row. */
  method FetchFromStooq(ticker: string, fetch: string -> seq<Bar>, specs: seq<OffsetSpec>, cal: Calendar)
    returns (r: Result<seq<TickerRow>, StooqieError>)
    ensures r == TickerHistory.TaggedHistoricalChange(ticker, fetch(ticker), specs, cal)
  {
    var aligned := TickerHistory.HistoricalChangeFromTicker(fetch(ticker), specs, cal);
    if aligned.Failure? {
      return Failure(aligned.error);
    }
    var rows := aligned.value;
    var tagged: seq<TickerRow> := [];
    for i := 0 to |rows|
      invariant |tagged| == i
      invariant forall p :: 0 <= p < i ==> tagged[p] == TickerRow(ticker, rows[p].bar, rows[p].offsets)
    {
      tagged := tagged + [TickerRow(ticker, rows[i].bar, rows[i].offsets)];
    }
    assert tagged == Tag(rows, ticker);
    return Success(tagged);
  }

  /** The three branches of `get_ticker_df` once the store has been read. */
  datatype CachePlan = ServeCached | FetchAndAppend | FetchWithoutWrite

  /** Missing ticker: fetch and append; latest date more than the TTL away from now: fetch only; else serve. */
  function Plan(cached: seq<TickerRow>, invalidationTtl: int, now: Day): CachePlan
  {
    if |cached| == 0 then FetchAndAppend
    else if IsStale(LatestDate(cached), now, invalidationTtl) then FetchWithoutWrite
    else ServeCached
  }

  /** What one call returns and what the parquet files hold afterwards. */
  datatype Outcome = Outcome(result: Result<seq<TickerRow>, StooqieError>, files: map<Path, seq<TickerRow>>)

  /**
   * `get_ticker_df` as a function of the files on disk. It reads `parquetPath`, but
   * the append goes to `settingsPath` (`settings.parquet_path`): the concatenation
   * of the rows read and the fetched rows replaces that file. The rows returned are
   * all of the ticker, and the only write is that append, for a missing ticker.
   */
  function GetTickerDfOutcome(files: map<Path, seq<TickerRow>>, settingsPath: Path, ticker: string, invalidationTtl: int,
                              parquetPath: Path, now: Day, fetch: string -> seq<Bar>, specs: seq<OffsetSpec>, cal: Calendar): (o: Outcome)
    ensures o.result.Success? ==> forall i :: 0 <= i < |o.result.value| ==> o.result.value[i].ticker == ticker
    ensures o.files == files
      || (&& parquetPath in files && RowsFor(files[parquetPath], ticker) == [] && o.result.Success?
          && o.files == files[settingsPath := files[parquetPath] + o.result.value])
  {
    if parquetPath !in files then Outcome(Failure(MissingParquet(parquetPath)), files)
    else
      TickerHistory.TaggedHistoricalChangeRows(ticker, fetch(ticker), specs, cal);
      var stored := files[parquetPath];
      var cached := RowsFor(stored, ticker);
      var fetched := TickerHistory.TaggedHistoricalChange(ticker, fetch(ticker), specs, cal);
      match Plan(cached, invalidationTtl, now)
      case ServeCached => Outcome(Success(cached), files)
      case FetchWithoutWrite => Outcome(fetched, files)
      case FetchAndAppend =>
        if fetched.Failure? then Outcome(fetched, files)
        else Outcome(fetched, files[settingsPath := stored + fetched.value])
  }

  /** The parquet files on disk, with the default store location of the settings. */
  class ParquetFiles {
    var files: map<Path, seq<TickerRow>>
    const settingsPath: Path

    constructor (files: map<Path, seq<TickerRow>>, settingsPath: Path)
      ensures this.files == files && this.settingsPath == settingsPath
    {
      this.files := files;
      this.settingsPath := settingsPath;
    }

    /** `get_ticker_df(ticker, invalidation_ttl=…, parquet_path=…)` with the clock reading `now`. */
    method GetTickerDf(ticker: string, invalidationTtl: int, parquetPath: Path, now: Day,
                       fetch: string -> seq<Bar>, specs: seq<OffsetSpec>, cal: Calendar)
      returns (r: Result<seq<TickerRow>, StooqieError>)
      modifies this
      ensures var o := GetTickerDfOutcome(old(files), settingsPath, ticker, invalidationTtl, parquetPath, now, fetch, specs, cal);
        r == o.result && files == o.files
    {
      if parquetPath !in files {
        return Failure(MissingParquet(parquetPath));
      }
      var stored := files[parquetPath];
      var cached := RowsFor(stored, ticker);
      if |cached| == 0 {
        r := FetchFromStooq(ticker, fetch, specs, cal);
        if r.Success? {
          files := files[settingsPath := stored + r.value];
        }
        return;
      }
      var latest := LatestDate(cached);
      if IsStale(latest, now, invalidationTtl) {
        r := FetchFromStooq(ticker, fetch, specs, cal);
        return;
      }
      return Success(cached);
    }
  }

  /** A fresh cache is returned as stored; nothing is fetched (the fetch does not matter) and nothing is written. */
  lemma FreshCacheServedAsStored(files: map<Path, seq<TickerRow>>, settingsPath: Path, ticker: string, invalidationTtl: int,
                                 parquetPath: Path, now: Day, fetch: string -> seq<Bar>, otherFetch: string -> seq<Bar>,
                                 specs: seq<OffsetSpec>, cal: Calendar)
    requires parquetPath in files
    requires RowsFor(files[parquetPath], ticker) != []
    requires !IsStale(LatestDate(RowsFor(files[parquetPath], ticker)), now, invalidationTtl)
    ensures var o := GetTickerDfOutcome(files, settingsPath, ticker, invalidationTtl, parquetPath, now, fetch, specs, cal);
      && o.result == Success(RowsFor(files[parquetPath], ticker))
      && o.files == files
      && o == GetTickerDfOutcome(files, settingsPath, ticker, invalidationTtl, parquetPath, now, otherFetch, specs, cal)
  {
  }

  /**
   * A ticker with no stored rows is fetched; the fetched rows, all tagged with the
   * ticker, are returned and appended after the rows read, in the settings' store,
   * leaving every other ticker's rows as they were.
   */
  lemma MissingTickerFetchedAndAppended(files: map<Path, seq<TickerRow>>, settingsPath: Path, ticker: string, other: string,
                                        invalidationTtl: int, parquetPath: Path, now: Day, fetch: string -> seq<Bar>,
                                        specs: seq<OffsetSpec>, cal: Calendar)
    requires parquetPath in files
    requires forall i :: 0 <= i < |files[parquetPath]| ==> files[parquetPath][i].ticker != ticker
    requires other != ticker
    ensures var o := GetTickerDfOutcome(files, settingsPath, ticker, invalidationTtl, parquetPath, now, fetch, specs, cal);
      fetch(ticker) == [] ==> o.result == Failure(EmptyHistory) && o.files == files
    ensures var o := GetTickerDfOutcome(files, settingsPath, ticker, invalidationTtl, parquetPath, now, fetch, specs, cal);
      var stored := files[parquetPath];
      fetch(ticker) != [] ==>
        && o.result == TickerHistory.TaggedHistoricalChange(ticker, fetch(ticker), specs, cal)
        && o.result.Success?
        && |o.result.value| == |fetch(ticker)|
        && (forall i :: 0 <= i < |o.result.value| ==> o.result.value[i].ticker == ticker)
        && o.files == files[settingsPath := stored + o.result.value]
        && o.files[settingsPath][..|stored|] == stored
        && RowsFor(o.files[settingsPath], ticker) == o.result.value
        && RowsFor(o.files[settingsPath], other) == RowsFor(stored, other)
  {
    var stored := files[parquetPath];
    RowsForAbsent(stored, ticker);
    var fetched := TickerHistory.TaggedHistoricalChange(ticker, fetch(ticker), specs, cal);
    TickerHistory.TaggedHistoricalChangeRows(ticker, fetch(ticker), specs, cal);
    if fetch(ticker) != [] {
      var rows := TickerHistory.HistoricalChange(fetch(ticker), specs, cal).value;
      assert fetched.value == Tag(rows, ticker);
      RowsForAppend(stored, fetched.value, ticker);
      RowsForAppend(stored, fetched.value, other);
      RowsForTagged(rows, ticker, other);
      assert (stored + fetched.value)[..|stored|] == stored;
    }
  }

  /** A stale cache, in either direction of time, is answered by a fresh fetch and the store is left as it was. */
  lemma StaleCacheRefetchedWithoutWrite(files: map<Path, seq<TickerRow>>, settingsPath: Path, ticker: string, invalidationTtl: int,
                                        parquetPath: Path, now: Day, fetch: string -> seq<Bar>, specs: seq<OffsetSpec>, cal: Calendar)
    requires parquetPath in files
    requires RowsFor(files[parquetPath], ticker) != []
    requires IsStale(LatestDate(RowsFor(files[parquetPath], ticker)), now, invalidationTtl)
    ensures var o := GetTickerDfOutcome(files, settingsPath, ticker, invalidationTtl, parquetPath, now, fetch, specs, cal);
      && o.result == TickerHistory.TaggedHistoricalChange(ticker, fetch(ticker), specs, cal)
      && o.files == files
  {
  }

  /** Reading a path that holds no file fails, and nothing is written. */
  lemma MissingStoreFails(files: map<Path, seq<TickerRow>>, settingsPath: Path, ticker: string, invalidationTtl: int,
                          parquetPath: Path, now: Day, fetch: string -> seq<Bar>, specs: seq<OffsetSpec>, cal: Calendar)
    requires parquetPath !in files
    ensures GetTickerDfOutcome(files, settingsPath, ticker, invalidationTtl, parquetPath, now, fetch, specs, cal)
      == Outcome(Failure(MissingParquet(parquetPath)), files)
  {
  }

  /**
   * A second call at the same clock reading, with a download that may answer
   * differently. When the first call served the store, the second serves the same
   * rows and writes nothing. After a fetch-and-append into the store it reads, the
   * second call finds exactly the appended rows, and when they are fresh it serves
   * them again without fetching.
   */
  lemma {:induction false} SecondCallReturnsSameRows(files: map<Path, seq<TickerRow>>, settingsPath: Path, ticker: string,
                                                     invalidationTtl: int, parquetPath: Path, now: Day,
                                                     fetch: string -> seq<Bar>, fetch2: string -> seq<Bar>,
                                                     specs: seq<OffsetSpec>, cal: Calendar)
    ensures var o1 := GetTickerDfOutcome(files, settingsPath, ticker, invalidationTtl, parquetPath, now, fetch, specs, cal);
      var o2 := GetTickerDfOutcome(o1.files, settingsPath, ticker, invalidationTtl, parquetPath, now, fetch2, specs, cal);
      parquetPath in files && Plan(RowsFor(files[parquetPath], ticker), invalidationTtl, now) == ServeCached ==>
        o1.files == files && o2 == o1
    ensures var o1 := GetTickerDfOutcome(files, settingsPath, ticker, invalidationTtl, parquetPath, now, fetch, specs, cal);
      var o2 := GetTickerDfOutcome(o1.files, settingsPath, ticker, invalidationTtl, parquetPath, now, fetch2, specs, cal);
      parquetPath == settingsPath && parquetPath in files && RowsFor(files[parquetPath], ticker) == [] && o1.result.Success? ==>
        && RowsFor(o1.files[parquetPath], ticker) == o1.result.value
        && (!IsStale(LatestDate(o1.result.value), now, invalidationTtl) ==> o2.result == o1.result && o2.files == o1.files)
  {
    var o1 := GetTickerDfOutcome(files, settingsPath, ticker, invalidationTtl, parquetPath, now, fetch, specs, cal);
    if parquetPath in files {
      var stored := files[parquetPath];
      var cached := RowsFor(stored, ticker);
      var plan := Plan(cached, invalidationTtl, now);
      if plan == ServeCached {
        assert o1 == Outcome(Success(cached), files);
      } else if plan == FetchAndAppend && o1.result.Success? && parquetPath == settingsPath {
        var rows := TickerHistory.HistoricalChange(fetch(ticker), specs, cal).value;
        var fetched := o1.result.value;
        assert fetched == Tag(rows, ticker);
        assert o1.files[parquetPath] == stored + fetched;
        RowsForAppend(stored, fetched, ticker);
        assert RowsFor(o1.files[parquetPath], ticker) == fetched;
        if fetched != [] && !IsStale(LatestDate(fetched), now, invalidationTtl) {
          assert Plan(RowsFor(o1.files[parquetPath], ticker), invalidationTtl, now) == ServeCached;
          var o2 := GetTickerDfOutcome(o1.files, settingsPath, ticker, invalidationTtl, parquetPath, now, fetch2, specs, cal);
          assert o2 == Outcome(Success(fetched), o1.files);
        }
      }
    }
  }
}

# stooqie core in Dafny

stooqie keeps daily stock histories downloaded from Stooq in one parquet store
and shows them in a terminal dashboard. This project models the part of it that
decides what data there is:

- **Offset alignment** (`stooqie/ticker.py`). For every row of a ticker's
  history and every column of the offset table passed in, the date "this date
  minus the offset" is matched to the nearest date in the history. (models.py's
  table has one, two, five, ten and twenty years back; ticker.py's own copy has
  no two-year column.) The match is by absolute distance, and a tie goes to the first row
  (numpy's `argmin`). A target earlier than the whole history gets no match
  (NaT). The close on the matched date becomes the `offset_*` value.
- **Cache policy** (`stooqie/io.py`, and the older copy in `stooqie/ticker.py`).
  - A ticker that is stored and fresh is served from the store.
  - A ticker that is missing from the store is fetched and appended to the store.
  - A ticker that is stored but stale is fetched again, and the store is not rewritten.
  - "Stale" means the latest stored date is more than the TTL away from now,
    in either direction.
- **Bump analysis** (`stooqie/bump.py`).
  - Per offset column, the rows whose close grew by more than a factor, keeping
    the last such row per ticker.
  - Each ticker's current value.
  - The cutoff filter that `bump_dataframe` returns.
- **Configuration** (`stooqie/models.py`): the offset table, `StockTickers.from_csv`,
  and the `Settings` defaults.

Modules, one per source file plus two shared ones:

| Dafny file | module | models |
|---|---|---|
| `wrappers.dfy` | `Wrappers` | `Option` (NaN/NaT) and `Result` (a raised error) |
| `collections.dfy` | `Collections` | boolean-mask selection (`Where`), `pd.unique`/`drop_duplicates()` (`Distinct`), `drop_duplicates(key, keep="last")` (`KeepLast`) |
| `models.dfy` | `Models` | rows, offset table, errors, ticker CSV, settings |
| `frames.dfy` | `Frames` | one ticker's rows, tagging, latest date, staleness |
| `ticker.dfy` | `TickerHistory` | offset alignment; ticker.py's `get_ticker_df` |
| `io.dfy` | `TickerCache` | io.py's `get_ticker_df` over a store of parquet files (class `ParquetFiles`) |
| `bump.dfy` | `Bump` | bump filter, current values, `bump_dataframe`'s result |

These are modelled as parameters rather than computed:

- **Dates** are day numbers (`Day = int`).
- **Calendar arithmetic** is the `Calendar` parameter, which bundles three functions:
  - subtracting a `DateOffset`;
  - the year of a date;
  - January 1 of a year.
- **Stooq download**: `fetch: string -> seq<Bar>` gives the bars a ticker's CSV
  would hold. "Nothing is fetched" is stated as "the result does not depend on
  `fetch`".
- **Clock**: the reading of `datetime.now()` is the parameter `now`.
- **Prices** are `real`. A missing value (NaN) is `None`.

Points where the code's behaviour is easy to misread:

- The nearest date is the nearest by absolute distance. It may lie after the
  target date, so it is not necessarily the nearest earlier date
  (`TickerHistory.MatchMayFollowTarget`).
- A stale ticker is refetched but the store is not updated. `stooqie/io.py:49`
  leaves this as an open question.
- io.py's default TTL reads `settings.invalidation_ttl`. The `Settings` class only
  has `parquet_invalidation_ttl`. Python evaluates that default when io.py is
  imported, so the import itself raises `AttributeError`, whatever TTL a caller
  would pass. The model takes the TTL as an explicit parameter.
- io.py reads the store at `parquet_path` but appends to the default
  `settings.parquet_path`. The model keeps the two paths apart
  (`ParquetFiles.settingsPath`).
- No operation refreshes many tickers at once, or writes the whole history
  table. The code has no such function, so neither is modelled.

## Model

| member | source | states |
|---|---|---|
| Models.OffsetTableShape | stooqie/models.py:47-56 | there are five offset columns, one, two, five, ten and twenty years back, with no month or day part |
| Models.Lower | stooqie/models.py:79 | the lower-cased name has the same length and no capital letter; every other character is kept, and a capital becomes its small letter |
| Models.LowerIsIdempotent | stooqie/models.py:79 | lower-casing a key again gives the same key |
| Models.TickerMap | stooqie/models.py:77-80 | every entry is filed under the lower-cased display name of the row it holds |
| Models.TickerMapKeys | stooqie/models.py:77-80 | the dictionary has a key exactly for each lower-cased display name of a row |
| Models.TickerMapLaterWins | stooqie/models.py:78-80 | each key holds the unchanged row of the last row whose display name lower-cases to it |
| Models.TickerMapSize | stooqie/models.py:77-80 | the dictionary has no more entries than there are rows |
| Models.FromCsv | stooqie/models.py:72-82 | fails with the empty-CSV error exactly when there are no rows; otherwise returns the dictionary built over the rows with exact duplicates dropped first (keeping first occurrences) |
| Models.RepeatedRowDoesNotWinAgain | stooqie/models.py:73-80 | because duplicates are dropped before the loop, rows [A, B, A] whose names differ only in case map the key to B |
| Models.DefaultSettings | stooqie/models.py:85-93 | the default TTL is 5 days; the store is `.local/state/stooqie/data/ticker.parquet` under home; the ticker CSV is `data/stock_tickers.csv` under the project root |
| Collections.Where | stooqie/bump.py:27 | a boolean-mask selection keeps exactly the elements that pass, in their order |
| Collections.WhereKeepsEveryCopy | stooqie/bump.py:27 | a selection keeps every copy of a kept element and none of a dropped one |
| Collections.Distinct | stooqie/bump.py:54 | `pd.unique` yields the same elements, each once |
| Collections.DistinctKeepsFirstAppearanceOrder | stooqie/bump.py:54 | `pd.unique` lists elements in the order of their first appearance |
| Collections.KeepLast | stooqie/bump.py:29 | `drop_duplicates(key, keep="last")` yields an in-order subsequence with no repeated key |
| Collections.KeepLastOfWhere | stooqie/bump.py:29 | selecting and then keeping the last row per key leaves exactly the kept rows that no later kept row shares a key with |
| Collections.WhereFirst | stooqie/bump.py:59 | `.values[0]` of a selection is the first row of the frame that passes |
| Frames.RowsFor | stooqie/io.py:34 | `df.loc[df["ticker"] == ticker]` holds exactly the rows of that ticker, in store order |
| Frames.Tag | stooqie/io.py:14 | tagging keeps each row's bar and offset values, and selecting the ticker from the tagged frame gives back the whole frame |
| Frames.RowsForTagged | stooqie/io.py:11-16 | rows tagged with a ticker are selected by no other ticker |
| Frames.LatestDate | stooqie/io.py:43 | the latest date is a date of the rows, and no row is later |
| Frames.IsStale | stooqie/io.py:45 | with `abs`, the cache is stale exactly when its latest date is more than the TTL before now or after now |
| TickerHistory.MinDate | stooqie/ticker.py:80 | the minimum is one of the dates, and no date is smaller |
| TickerHistory.NearestIndexBelow | stooqie/ticker.py:75 | `argmin` of the absolute distances: the nearest index, with every earlier index strictly farther |
| TickerHistory.ArgMinDistance | stooqie/ticker.py:75 | the scanning loop returns the first index at the least absolute distance from the target |
| TickerHistory.FirstNearestIsUnique | stooqie/ticker.py:75 | the first minimiser is unique, so the loop and the recursive definition agree |
| TickerHistory.NearestDate | stooqie/ticker.py:71-84 | the match is NaT exactly when the target precedes every date; otherwise it is the date at the first nearest index |
| TickerHistory.ExactDateIsItsOwnMatch | stooqie/ticker.py:75-82 | a target that is a date of the history matches itself, even when it is the earliest date |
| TickerHistory.MatchMayFollowTarget | stooqie/ticker.py:75 | dates [100, 110] and target 108 match 110, a date after the target |
| TickerHistory.TieGoesToEarlierRow | stooqie/ticker.py:75 | dates [110, 100] and target 105 match 110, the first row, although 100 is the earlier date |
| TickerHistory.ArgMinDates | stooqie/ticker.py:75-77 | before blanking, every row's entry is the date at its first nearest index |
| TickerHistory.NearestDatesForOffset | stooqie/ticker.py:65-84 | the series has one entry per row, and each is the nearest date to that row's target, or NaT when the target precedes the history |
| TickerHistory.CloseOn | stooqie/ticker.py:104-109 | the left merge gives NaN exactly when the date is NaT or no bar has it; otherwise the close of the first bar on that date |
| TickerHistory.OffsetCloseMeaning | stooqie/ticker.py:104-109 | an offset value is missing exactly when the target precedes the history; otherwise it is the close of a bar on the matched date, and with distinct dates that of the matched row itself |
| TickerHistory.OffsetsForKeys | stooqie/ticker.py:97-114 | every row gets exactly one value per offset column |
| TickerHistory.OffsetsForValues | stooqie/ticker.py:97-109 | each offset column of a row holds the aligned close for that offset |
| TickerHistory.HistoricalChange | stooqie/ticker.py:87-116 | an empty download fails with the empty-history error; otherwise there is one row per bar, in order, carrying its bar |
| TickerHistory.HistoricalChangeShape | stooqie/ticker.py:96-114 | every row carries exactly the offset columns, one per name in the offset table |
| TickerHistory.HistoricalChangeFromTicker | stooqie/ticker.py:87-116 | the nested loops over offset columns and rows build exactly the aligned history |
| TickerHistory.TaggedHistoricalChangeRows | stooqie/io.py:11-16 | a successful fetch gives one row per bar, in order, each tagged with the requested ticker |
| TickerHistory.GetTickerDf | stooqie/ticker.py:119-133 | every returned row belongs to the ticker, and a failure can only come from an empty download |
| TickerHistory.GetTickerDfServesFreshCache | stooqie/ticker.py:119-133 | a stored, fresh ticker is answered with its stored rows, whatever the download would give |
| TickerHistory.GetTickerDfRefetchesStaleCache | stooqie/ticker.py:125-128 | a stale ticker is answered with exactly the freshly aligned history tagged with the ticker: it fails for an empty download, and otherwise has one row per downloaded bar |
| TickerHistory.GetTickerDfNeverFetchesMissingTicker | stooqie/ticker.py:123-125 | as written, a ticker with no stored rows is answered with no rows, although the download has data |
| TickerCache.FetchFromStooq | stooqie/io.py:11-16 | fetching aligns the downloaded history and tags every row with the ticker |
| TickerCache.GetTickerDfOutcome | stooqie/io.py:19-51 | every returned row belongs to the ticker; the files are unchanged unless a missing ticker was fetched, and then the only write is the rows read followed by the returned rows |
| TickerCache.ParquetFiles.GetTickerDf | stooqie/io.py:19-51 | the call returns the result of the cache policy, and the store afterwards is what the policy writes |
| TickerCache.FreshCacheServedAsStored | stooqie/io.py:43-51 | a stored, fresh ticker is served as stored; nothing is fetched and nothing is written |
| TickerCache.MissingTickerFetchedAndAppended | stooqie/io.py:36-41 | a missing ticker is fetched. An empty download fails and writes nothing. Otherwise the aligned, tagged history of the download is returned, and the store file becomes the old rows followed by them. Other tickers' rows are unchanged |
| TickerCache.StaleCacheRefetchedWithoutWrite | stooqie/io.py:43-49 | a stale ticker is answered by a fresh fetch, and the store is left as it was |
| TickerCache.MissingStoreFails | stooqie/io.py:33 | reading a store that does not exist fails and writes nothing |
| TickerCache.SecondCallReturnsSameRows | stooqie/io.py:33-51 | with any second download: after a call served from the store, a second call at the same clock reading serves the same rows and writes nothing; after an append to the store it reads, the second call finds exactly the appended rows and, when they are fresh, serves them without fetching |
| Bump.BumpRatio | stooqie/bump.py:21 | the bump is finite exactly for a present, non-zero origin value, and then the origin grown by the bump is the close; from a zero origin it is +inf for a positive close and NaN for a zero one; a missing origin gives NaN |
| Bump.ExceedsMeansGrowth | stooqie/bump.py:21-29 | the bump exceeds f exactly when the close is more than f + 1 times a positive origin value (the inequality flips for a negative one), or positive after a zero origin; a missing origin never qualifies |
| Bump.AddBumpColumns | stooqie/bump.py:19-25 | one row per input row, with its ticker, date and close copied, its origin date the date minus the years, its origin value the offset column's value, and its bump from that value to the close |
| Bump.BumpDfFilteredByBumpFactor | stooqie/bump.py:16-38 | every returned row has an origin year after the cutoff and a bump above the factor; no ticker appears twice; the rows keep input order |
| Bump.BumpFilterKeepsLastQualifyingRow | stooqie/bump.py:16-38 | the helper returns, in input order and at most one per ticker, exactly the last row of each ticker whose origin year is after the cutoff and whose bump exceeds the factor |
| Bump.MissingOriginNeverBumps | stooqie/bump.py:21-29 | a row with no offset value is never reported |
| Bump.FilteredRowsGrewByFactor | stooqie/bump.py:16-38 | every reported row has an origin value, an origin year after the cutoff, and a close more than factor + 1 times its origin value |
| Bump.BigBumps | stooqie/bump.py:89-102 | every big bump has an origin year after the cutoff and a bump above `bump_factor_filter - 1` |
| Bump.BigBumpMeansGrowthByFactor | stooqie/bump.py:89-102 | every big bump comes from the one-, two- or five-year column, and its close is more than `bump_factor_filter` times its origin value |
| Bump.CurrentRow | stooqie/bump.py:56-59 | the reference scan finds a row exactly for the tickers that occur |
| Bump.CurrentRowIsCurrent | stooqie/bump.py:56-59 | the scan's row belongs to the ticker, no row of the ticker is later, and every earlier row of it is strictly older |
| Bump.LatestCloseMeaning | stooqie/bump.py:56-59 | a ticker's current value is the close of that ticker's first row on its latest date |
| Bump.SelectedRowIsCurrent | stooqie/bump.py:56-59 | the first row on the latest date of the ticker's selected rows is a current row of the ticker |
| Bump.SelectionFindsCurrentRow | stooqie/bump.py:56-59 | selecting the ticker's rows, taking their maximum date and reading the first row on it finds the same row as the reference scan |
| Bump.CurrentValueOf | stooqie/bump.py:56-59 | the loop body's three pandas steps compute the ticker's current value |
| Bump.CurrentValueDf | stooqie/bump.py:41-61 | one row per distinct ticker, in order of first appearance, each with that ticker's current value |
| Bump.BumpDataframe | stooqie/bump.py:82-83 | the result is exactly the stored rows dated after January 1 of the cutoff year, in store order |
| Bump.BumpDataframeIgnoresBumpFactor | stooqie/bump.py:89-109 | the big bumps are computed and dropped, so the result does not depend on the bump factor |

## Left out

- The HTTP download from Stooq and its CSV parsing: replaced by the `fetch` parameter.
- Parquet and CSV reading and writing: the store is a map from path to rows, and
  the ticker CSV is a sequence of rows.
- The clock: `now` is a parameter, a whole day. `datetime.now()` carries the
  time of day, and `timedelta.days` floors: with the latest date today and the
  clock at 14:00, `.days` is -1, not 0. The model is exact when `now` is the clock
  reading rounded up to a whole day.
- Calendar arithmetic: `pd.DateOffset`, `.dt.year` and `fromisoformat` are
  abstract functions, so month-end clamping and leap years are not modelled.
- Floating point: prices are exact reals. Only division by zero and NaN in the
  bump are modelled, with `Ratio` and `Option`.
- `Models.FromCsv`: `drop_duplicates()` compares every column of the CSV, but a
  `Ticker` keeps only the two columns that are read. The model is exact for a CSV
  with just those two columns. With more, rows that differ only in the other
  columns are all kept by the source, so a later one can win its key again; the
  model keeps only the first of them.
- `Models.Lower`: only ASCII letters are lower-cased. Python's Unicode `str.lower`
  is not modelled.
- `TickerHistory.OffsetCloseMeaning`: pandas' left merge on a date that occurs
  twice duplicates rows. The model takes the first matching row instead, and
  proves the exact correspondence only for histories with distinct dates.
- `Bump.BumpDfFilteredByBumpFactor`: requires the offset column to be present in
  every row. pandas would raise `KeyError` for a missing column, and that error
  is not modelled.
- `Bump.BumpDataframe`: it does not model the `KeyError` that building the discarded
  bump table would raise on a store without the offset columns. The merge of
  the bump table with the current values is not modelled either: its result is
  never used, and the function returns only the filtered rows.
- The ticker.py `HistoricalOffsetColumns` copy lacks the two-year column. The
  aligner takes the offset table as a parameter, so either table can be passed.
- io.py imports its aligner from `stooqie._ticker`, which is not part of this
  model. It is taken to behave as `stooqie/ticker.py`'s `historical_change_from_ticker`.
- The failed `assert len(ticker_df) > 0` of an empty download is the `EmptyHistory`
  error.
- `Settings.__post_init__` creating the store directory, and the
  `stock_tickers` property reading the CSV, are file-system effects and are not
  modelled.
- The dashboard, command-line interface, plotting and logging are not part of
  the core.

## Findings

| source | as written | input that shows it | evidently intended | confidence | as-written member | corrected member |
|---|---|---|---|---|---|---|
| stooqie/ticker.py:123-125 | for a ticker with no stored rows, `max()` of the dates is NaT, `.days` of the difference is NaN and `NaN > ttl` is false, so the empty selection is returned and nothing is fetched | a store without rows for `AAPL.US`, and a download for `AAPL.US` that has rows | a missing ticker is fetched (and stored), as io.py does in its explicit empty branch | medium, not executed | TickerHistory.GetTickerDfNeverFetchesMissingTicker | TickerCache.MissingTickerFetchedAndAppended |

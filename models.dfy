/**
 * The data of stooqie/models.py: the Stooq price columns, the fixed table of
 * historical offsets, the ticker list read from CSV and the settings defaults.
 */
module Models {
  import opened Wrappers
  import opened Collections

  /** A calendar date, as a day number. */
  type Day = int

  /**
   * The calendar arithmetic pandas supplies, taken as given: `back(d, y, m, n)` is
   * `d - pd.DateOffset(years=y, months=m, days=n)`, `yearOf` is `.dt.year`, and
   * `newYear(y)` is January 1 of year `y`.
   */
  datatype Calendar = Calendar(back: (Day, int, int, int) -> Day, yearOf: Day -> int, newYear: int -> Day)

  /** One day of a ticker's price history: the `TickerColumns` Stooq serves. */
  datatype Bar = Bar(date: Day, open: real, high: real, low: real, close: real, volume: real)

  /** A bar with its `offset_*` columns; `None` is pandas' NaN. */
  datatype HistoricalRow = HistoricalRow(bar: Bar, offsets: map<string, Option<real>>)

  /** A row of the parquet store: a historical row with its `ticker` column. */
  datatype TickerRow = TickerRow(ticker: string, bar: Bar, offsets: map<string, Option<real>>)

  /** `HistoricalOffsetColumn`: a column name and how far back it looks. */
  datatype OffsetSpec = OffsetSpec(columnName: string, years: int, months: int, days: int)

  /** The `HistoricalOffsetColumns` enumeration, in declaration order. */
  const HistoricalOffsetColumns: seq<OffsetSpec> := [
    OffsetSpec("offset_one", 1, 0, 0),
    OffsetSpec("offset_two", 2, 0, 0),
    OffsetSpec("offset_five", 5, 0, 0),
    OffsetSpec("offset_ten", 10, 0, 0),
    OffsetSpec("offset_twenty", 20, 0, 0)
  ]

  lemma OffsetTableShape()
    ensures |HistoricalOffsetColumns| == 5
    ensures forall i :: 0 <= i < 5 ==> HistoricalOffsetColumns[i].months == 0 && HistoricalOffsetColumns[i].days == 0
    ensures forall i, j :: 0 <= i < j < 5 ==> HistoricalOffsetColumns[i].years < HistoricalOffsetColumns[j].years
    ensures forall i, j :: 0 <= i < j < 5 ==> HistoricalOffsetColumns[i].columnName != HistoricalOffsetColumns[j].columnName
    ensures [HistoricalOffsetColumns[0].years, HistoricalOffsetColumns[1].years, HistoricalOffsetColumns[2].years,
             HistoricalOffsetColumns[3].years, HistoricalOffsetColumns[4].years] == [1, 2, 5, 10, 20]
  {
  }

  /** Failures the source raises. */
  datatype StooqieError =
    | EmptyHistory             // ticker.py: the fetched history has no rows
    | MissingParquet(path: string)  // io.py: `pd.read_parquet` on a path with no file
    | EmptyTickerCsv           // models.py: the ticker CSV has no rows

  /** A ticker as listed in the CSV file: one row with `display_name` and `ticker_name`. */
  datatype Ticker = Ticker(displayName: string, tickerName: string)

  datatype StockTickers = StockTickers(tickers: map<string, Ticker>)

  /** Lower-casing of ASCII letters; every other character is left as it is. */
  function LowerChar(c: char): char
  {
    if 'A' <= c <= 'Z' then (c as int + 32) as char else c
  }

  /** `str.lower()` on ASCII: no capital letter is left, and every other character is kept. */
  function Lower(s: string): (r: string)
    ensures |r| == |s|
    ensures forall i :: 0 <= i < |r| ==> !('A' <= r[i] <= 'Z')
    ensures forall i :: 0 <= i < |s| && !('A' <= s[i] <= 'Z') ==> r[i] == s[i]
    ensures forall i :: 0 <= i < |s| && 'A' <= s[i] <= 'Z' ==> 'a' <= r[i] <= 'z' && r[i] as int - s[i] as int == 'a' as int - 'A' as int
  {
    seq(|s|, i requires 0 <= i < |s| => LowerChar(s[i]))
  }

  /** Lower-casing twice is lower-casing once, so a stored key is its own key. */
  lemma LowerIsIdempotent(s: string)
    ensures Lower(Lower(s)) == Lower(s)
  {
    var l := Lower(s);
    assert forall i :: 0 <= i < |l| ==> Lower(l)[i] == l[i];
  }

  /** The dictionary key of a ticker: its lower-cased display name. */
  function Key(t: Ticker): string
  {
    Lower(t.displayName)
  }

  /** The dictionary the loop of `from_csv` builds: one assignment per row, so a later row overwrites. */
  function TickerMap(rows: seq<Ticker>): (m: map<string, Ticker>)
    ensures forall k :: k in m ==> Key(m[k]) == k
  {
    if rows == [] then map[]
    else TickerMap(rows[..|rows| - 1])[Key(rows[|rows| - 1]) := rows[|rows| - 1]]
  }

  lemma {:induction false} TickerMapKeys(rows: seq<Ticker>)
    ensures forall k :: k in TickerMap(rows) <==> exists i :: 0 <= i < |rows| && Key(rows[i]) == k
  {
    if rows != [] {
      var p := rows[..|rows| - 1];
      TickerMapKeys(p);
      forall k | k in TickerMap(rows)
        ensures exists i :: 0 <= i < |rows| && Key(rows[i]) == k
      {
        if k != Key(rows[|rows| - 1]) {
          assert k in TickerMap(p);
          var i :| 0 <= i < |p| && Key(p[i]) == k;
          assert Key(rows[i]) == k;
        }
      }
      forall k | exists i :: 0 <= i < |rows| && Key(rows[i]) == k
        ensures k in TickerMap(rows)
      {
        var i :| 0 <= i < |rows| && Key(rows[i]) == k;
        if i < |p| {
          assert Key(p[i]) == k;
        }
      }
    }
  }

  /** Each entry holds the row, unchanged, of the LAST row whose display name lower-cases to its key. */
  lemma {:induction false} TickerMapLaterWins(rows: seq<Ticker>)
    ensures forall k :: k in TickerMap(rows) ==>
      exists i :: (0 <= i < |rows| && Key(rows[i]) == k && TickerMap(rows)[k] == rows[i]
                   && forall j :: i < j < |rows| ==> Key(rows[j]) != k)
  {
    if rows != [] {
      var p := rows[..|rows| - 1];
      var n := |rows| - 1;
      TickerMapLaterWins(p);
      forall k | k in TickerMap(rows)
        ensures exists i :: (0 <= i < |rows| && Key(rows[i]) == k && TickerMap(rows)[k] == rows[i]
                             && forall j :: i < j < |rows| ==> Key(rows[j]) != k)
      {
        if k == Key(rows[n]) {
          assert Key(rows[n]) == k && TickerMap(rows)[k] == rows[n];
        } else {
          assert k in TickerMap(p);
          var i :| (0 <= i < |p| && Key(p[i]) == k && TickerMap(p)[k] == p[i]
                    && forall j :: i < j < |p| ==> Key(p[j]) != k);
          assert Key(rows[i]) == k && TickerMap(rows)[k] == rows[i];
          assert forall j :: i < j < |rows| ==> Key(rows[j]) != k by {
            forall j | i < j < |rows| ensures Key(rows[j]) != k {
              if j < n { assert rows[j] == p[j]; }
            }
          }
        }
      }
    }
  }

  lemma {:induction false} TickerMapSize(rows: seq<Ticker>)
    ensures |TickerMap(rows)| <= |rows|
  {
    if rows != [] {
      var p := rows[..|rows| - 1];
      TickerMapSize(p);
      var m := TickerMap(p);
      var k := Key(rows[|rows| - 1]);
      if k in m {
        assert m[k := rows[|rows| - 1]].Keys == m.Keys;
      } else {
        assert m[k := rows[|rows| - 1]].Keys == m.Keys + {k};
      }
    }
  }

  /**
   * `StockTickers.from_csv` on the rows of the CSV file: exact duplicate rows are
   * dropped, an empty list is rejected, and each remaining row is stored under its
   * lower-cased display name.
   */
  method FromCsv(csvRows: seq<Ticker>) returns (r: Result<StockTickers, StooqieError>)
    ensures r.Failure? <==> csvRows == []
    ensures r.Failure? ==> r.error == EmptyTickerCsv
    ensures r.Success? ==> r.value.tickers == TickerMap(Distinct(csvRows))
  {
    var rows := Distinct(csvRows);
    assert csvRows != [] ==> csvRows[0] in rows;
    if |rows| == 0 {
      return Failure(EmptyTickerCsv);
    }
    var tickers: map<string, Ticker> := map[];
    for i := 0 to |rows|
      invariant tickers == TickerMap(rows[..i])
    {
      assert rows[..i + 1][..i] == rows[..i];
      tickers := tickers[Key(rows[i]) := rows[i]];
    }
    assert rows[..|rows|] == rows;
    return Success(StockTickers(tickers));
  }

  /** Dropping exact duplicates first means a repeated row does not win again: [A, B, A] keeps B. */
  lemma RepeatedRowDoesNotWinAgain()
    ensures var a, b := Ticker("Apple", "AAPL.US"), Ticker("APPLE", "APC.DE");
      TickerMap(Distinct([a, b, a])) == map["apple" := b]
  {
    var a, b := Ticker("Apple", "AAPL.US"), Ticker("APPLE", "APC.DE");
    assert [a, b, a][..2] == [a, b];
    assert [a, b][..1] == [a];
    assert [a][..0] == [];
    assert Distinct([a]) == [a];
    assert Distinct([a, b]) == [a, b];
    assert Distinct([a, b, a]) == [a, b];
    assert Key(a) == "apple" by {
      assert Lower("Apple")[0] == 'a';
    }
    assert Key(b) == "apple";
    assert TickerMap([a]) == map["apple" := a];
    assert TickerMap([a, b]) == map["apple" := b];
  }

  /** `Settings`: where the store lives, how stale it may get, where the ticker CSV is. */
  datatype Settings = Settings(parquetPath: string, parquetInvalidationTtl: int, stockTickerPath: string)

  /** `Settings()` with its defaults, given the home directory and the project root. */
  function DefaultSettings(home: string, projectRoot: string): (s: Settings)
    ensures s.parquetInvalidationTtl == 5
    ensures s.parquetPath == home + "/.local/state/stooqie/data/ticker.parquet"
    ensures s.stockTickerPath == projectRoot + "/data/stock_tickers.csv"
  {
    Settings(home + "/.local/state/stooqie/data/ticker.parquet", 5, projectRoot + "/data/stock_tickers.csv")
  }
}

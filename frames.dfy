/**
 * Frame operations shared by ticker.py, io.py and bump.py: selecting one
 * ticker's rows, tagging fetched rows with their ticker, the latest date, and
 * the staleness test.
 */
module Frames {
  import opened Wrappers
  import opened Collections
  import opened Models

  function Abs(x: int): nat
  {
    if x < 0 then -x else x
  }

  /** `df.loc[df["ticker"] == ticker]`. */
  function RowsFor(rows: seq<TickerRow>, ticker: string): (r: seq<TickerRow>)
    ensures forall x :: x in r <==> x in rows && x.ticker == ticker
    ensures IsSubsequence(r, rows)
  {
    Where(rows, (x: TickerRow) => x.ticker == ticker)
  }

  /** Selecting one ticker's rows from a concatenation selects from each part. */
  lemma RowsForAppend(a: seq<TickerRow>, b: seq<TickerRow>, ticker: string)
    ensures RowsFor(a + b, ticker) == RowsFor(a, ticker) + RowsFor(b, ticker)
  {
    WhereAppend(a, b, (x: TickerRow) => x.ticker == ticker);
  }

  /** A ticker that no row carries selects nothing. */
  lemma {:induction false} RowsForAbsent(rows: seq<TickerRow>, ticker: string)
    requires forall i :: 0 <= i < |rows| ==> rows[i].ticker != ticker
    ensures RowsFor(rows, ticker) == []
  {
    if rows != [] {
      RowsForAbsent(rows[1..], ticker);
    }
  }

  /** Rows that all carry the ticker are all selected by it. */
  lemma {:induction false} RowsForAll(rows: seq<TickerRow>, ticker: string)
    requires forall i :: 0 <= i < |rows| ==> rows[i].ticker == ticker
    ensures RowsFor(rows, ticker) == rows
  {
    if rows != [] {
      RowsForAll(rows[1..], ticker);
      assert rows == [rows[0]] + rows[1..];
      RowsForAppend([rows[0]], rows[1..], ticker);
      assert RowsFor([rows[0]], ticker) == [rows[0]] by {
        assert [rows[0]][1..] == [];
      }
    }
  }

  /**
   * `df["ticker"] = ticker` on a frame of historical rows: the bars and offset
   * values stay as they are, and selecting the ticker afterwards gives back the
   * whole frame.
   */
  function Tag(rows: seq<HistoricalRow>, ticker: string): (r: seq<TickerRow>)
    ensures |r| == |rows|
    ensures forall i :: 0 <= i < |rows| ==> r[i] == TickerRow(ticker, rows[i].bar, rows[i].offsets)
    ensures RowsFor(r, ticker) == r
  {
    var r := seq(|rows|, i requires 0 <= i < |rows| => TickerRow(ticker, rows[i].bar, rows[i].offsets));
    RowsForAll(r, ticker);
    r
  }

  /** Tagged rows are selected by no other ticker. */
  lemma RowsForTagged(rows: seq<HistoricalRow>, ticker: string, other: string)
    ensures other != ticker ==> RowsFor(Tag(rows, ticker), other) == []
  {
    if other != ticker {
      RowsForAbsent(Tag(rows, ticker), other);
    }
  }

  /** `pd.to_datetime(df[Date]).max()` of a non-empty frame. */
  function LatestDate(rows: seq<TickerRow>): (d: Day)
    requires |rows| > 0
    ensures exists i :: 0 <= i < |rows| && rows[i].bar.date == d
    ensures forall i :: 0 <= i < |rows| ==> rows[i].bar.date <= d
  {
    if |rows| == 1 then rows[0].bar.date
    else
      var d := LatestDate(rows[1..]);
      assert forall i :: 1 <= i < |rows| ==> rows[i] == rows[1..][i - 1];
      if rows[0].bar.date >= d then rows[0].bar.date else d
  }

  /**
   * `abs((latest_date - now).days) > invalidation_ttl`, in whole days. Because of
   * `abs`, data dated too far in the future is stale just as data too far in the past.
   */
  predicate IsStale(latest: Day, now: Day, invalidationTtl: int)
    ensures IsStale(latest, now, invalidationTtl) <==> latest < now - invalidationTtl || latest > now + invalidationTtl
  {
    Abs(latest - now) > invalidationTtl
  }
}

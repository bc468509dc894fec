/**
 The batch loop of the GuruFocus scraper's `fetch_stocks`: which tickers are
 fetched, in which order, and which summary records are kept. The browser
 session is the parameter `fetch`; the page cache between `fetch_stock` and
 `parse_summary_data` is modelled by the key each of them uses.
 */
module FetchLoop {
  import opened Wrappers
  import opened Strings
  import opened GuruFocus

  /** The records one ticker contributes. `fetch_stock` fetches the page of
      the stripped ticker and caches it under that name; `parse_summary_data`
      looks the page up under the ticker as given. The cache starts empty, so
      a ticker with whitespace at either end finds no page. The parsed
      summary is kept when the fetched page source is not empty and the
      summary is not empty. `parse` is the summary parser. */
  function Kept(ticker: string, fetch: string -> Option<SummaryPage>, parse: (string, Option<SummaryPage>) -> map<string, string>): seq<map<string, string>> {
    var html := fetch(Strip(ticker));
    var cached := if Stripped(ticker) then html else None;
    if Rendered(html) && |parse(ticker, cached)| > 0 then [parse(ticker, cached)] else []
  }

  /** With `parse_summary_data` as the parser, the emptiness test never
      drops a record: a ticker contributes exactly when it has no whitespace
      at either end and its page rendered. */
  lemma KeptSummary(ticker: string, fetch: string -> Option<SummaryPage>)
    ensures Kept(ticker, fetch, ParseSummaryData)
      == if Stripped(ticker) && Rendered(fetch(ticker)) then [ParseSummaryData(ticker, fetch(ticker))] else []
  {
  }

  /** What the first `n` tickers contribute, in ticker order, when each
      ticker contributes `keep` of it. */
  function Gathered<R>(tickers: seq<string>, n: nat, keep: string -> seq<R>): seq<R>
    requires n <= |tickers|
  {
    if n == 0 then [] else Gathered(tickers, n - 1, keep) + keep(tickers[n - 1])
  }

  lemma {:induction false} GatheredShort<R>(tickers: seq<string>, n: nat, keep: string -> seq<R>)
    requires n <= |tickers|
    requires forall t :: |keep(t)| <= 1
    ensures |Gathered(tickers, n, keep)| <= n
  {
    if n > 0 {
      GatheredShort(tickers, n - 1, keep);
    }
  }

  lemma {:induction false} GatheredPrefix<R>(ts: seq<string>, us: seq<string>, n: nat, keep: string -> seq<R>)
    requires n <= |ts| && n <= |us| && ts[..n] == us[..n]
    ensures Gathered(ts, n, keep) == Gathered(us, n, keep)
  {
    if n > 0 {
      assert ts[n - 1] == ts[..n][n - 1] == us[n - 1];
      assert ts[..n - 1] == ts[..n][..n - 1];
      assert us[..n - 1] == us[..n][..n - 1];
      GatheredPrefix(ts, us, n - 1, keep);
    }
  }

  lemma {:induction false} GatheredAppend<R>(a: seq<string>, b: seq<string>, m: nat, keep: string -> seq<R>)
    requires m <= |b|
    ensures Gathered(a + b, |a| + m, keep) == Gathered(a, |a|, keep) + Gathered(b, m, keep)
  {
    if m == 0 {
      assert (a + b)[..|a|] == a[..|a|];
      GatheredPrefix(a + b, a, |a|, keep);
    } else {
      var front := Gathered(a, |a|, keep);
      var last := keep(b[m - 1]);
      GatheredAppend(a, b, m - 1, keep);
      assert (a + b)[|a| + m - 1] == b[m - 1];
      AppendAssoc(front, Gathered(b, m - 1, keep), last);
    }
  }

  /** Everything gathered comes from one of the first `n` tickers. */
  lemma {:induction false} GatheredSource<R>(tickers: seq<string>, n: nat, keep: string -> seq<R>, x: R)
    returns (i: nat)
    requires n <= |tickers| && x in Gathered(tickers, n, keep)
    ensures i < n && x in keep(tickers[i])
  {
    if x in keep(tickers[n - 1]) {
      i := n - 1;
    } else {
      i := GatheredSource(tickers, n - 1, keep, x);
    }
  }

  /** Whatever one of the first `n` tickers contributes is gathered. */
  lemma {:induction false} GatheredKeeps<R>(tickers: seq<string>, n: nat, keep: string -> seq<R>, i: nat, x: R)
    requires i < n <= |tickers| && x in keep(tickers[i])
    ensures x in Gathered(tickers, n, keep)
  {
    if i < n - 1 {
      GatheredKeeps(tickers, n - 1, keep, i, x);
    }
  }

  /** The records of the first `n` tickers, in ticker order. */
  function ScreenedUpTo(tickers: seq<string>, n: nat, fetch: string -> Option<SummaryPage>, parse: (string, Option<SummaryPage>) -> map<string, string>): (records: seq<map<string, string>>)
    requires n <= |tickers|
    ensures |records| <= n
  {
    GatheredShort(tickers, n, t => Kept(t, fetch, parse));
    Gathered(tickers, n, t => Kept(t, fetch, parse))
  }

  /** The records `fetch_stocks` keeps over a whole ticker list. */
  function Screened(tickers: seq<string>, fetch: string -> Option<SummaryPage>, parse: (string, Option<SummaryPage>) -> map<string, string>): (records: seq<map<string, string>>)
    ensures |records| <= |tickers|
  {
    ScreenedUpTo(tickers, |tickers|, fetch, parse)
  }

  /** The records of the first `n` tickers depend on those tickers only. */
  lemma ScreenedUpToPrefix(ts: seq<string>, us: seq<string>, n: nat, fetch: string -> Option<SummaryPage>, parse: (string, Option<SummaryPage>) -> map<string, string>)
    requires n <= |ts| && n <= |us| && ts[..n] == us[..n]
    ensures ScreenedUpTo(ts, n, fetch, parse) == ScreenedUpTo(us, n, fetch, parse)
  {
    GatheredPrefix(ts, us, n, t => Kept(t, fetch, parse));
  }

  /** Screening a list in two parts screens each part in turn, so the
      records come out in ticker order. */
  lemma ScreenedAppend(a: seq<string>, b: seq<string>, fetch: string -> Option<SummaryPage>, parse: (string, Option<SummaryPage>) -> map<string, string>)
    ensures Screened(a + b, fetch, parse) == Screened(a, fetch, parse) + Screened(b, fetch, parse)
  {
    GatheredAppend(a, b, |b|, t => Kept(t, fetch, parse));
  }

  /** A record is kept exactly when it is the record of one of the tickers. */
  lemma ScreenedMembers(tickers: seq<string>, n: nat, fetch: string -> Option<SummaryPage>, parse: (string, Option<SummaryPage>) -> map<string, string>,
                        data: map<string, string>)
    requires n <= |tickers|
    ensures data in ScreenedUpTo(tickers, n, fetch, parse) <==> exists i | 0 <= i < n :: data in Kept(tickers[i], fetch, parse)
  {
    var keep := t => Kept(t, fetch, parse);
    if data in ScreenedUpTo(tickers, n, fetch, parse) {
      var i := GatheredSource(tickers, n, keep, data);
      assert data in Kept(tickers[i], fetch, parse);
    }
    if exists i | 0 <= i < n :: data in Kept(tickers[i], fetch, parse) {
      var i :| 0 <= i < n && data in Kept(tickers[i], fetch, parse);
      GatheredKeeps(tickers, n, keep, i, data);
    }
  }

  /** The body of the inner loop of `fetch_stocks` for one ticker: fetch the
      page, parse the cached page when the page source is not empty, and
      append the record to those so far when it is not empty. */
  method FetchOne(ticker: string, fetch: string -> Option<SummaryPage>, parse: (string, Option<SummaryPage>) -> map<string, string>,
                  records0: seq<map<string, string>>)
    returns (records: seq<map<string, string>>)
    ensures records == records0 + Kept(ticker, fetch, parse)
    ensures |records| <= |records0| + 1
  {
    records := records0;
    var html := fetch(Strip(ticker));
    if Rendered(html) {
      var cached := if Stripped(ticker) then html else None;
      var summary := parse(ticker, cached);
      if |summary| > 0 {
        records := records + [summary];
      }
    }
  }

  /** One ticker with `parse_summary_data` as the parser: a rendered page of
      a ticker without surrounding whitespace always adds its summary, and
      nothing else adds anything. */
  method FetchOneSummary(ticker: string, fetch: string -> Option<SummaryPage>, records0: seq<map<string, string>>)
    returns (records: seq<map<string, string>>)
    ensures records == records0
      + if Stripped(ticker) && Rendered(fetch(ticker)) then [ParseSummaryData(ticker, fetch(ticker))] else []
  {
    records := FetchOne(ticker, fetch, ParseSummaryData, records0);
    KeptSummary(ticker, fetch);
  }

  /** Screening one more ticker adds that ticker's records at the end. */
  lemma ScreenedSnoc(ts: seq<string>, t: string, fetch: string -> Option<SummaryPage>, parse: (string, Option<SummaryPage>) -> map<string, string>)
    ensures Screened(ts + [t], fetch, parse) == Screened(ts, fetch, parse) + Kept(t, fetch, parse)
  {
    GatheredAppend(ts, [t], 1, u => Kept(u, fetch, parse));
  }

  /** One batch of `fetch_stocks`: each ticker of the batch handled in
      order, the first one before the rest. */
  method FetchBatch(batch: seq<string>, fetch: string -> Option<SummaryPage>, parse: (string, Option<SummaryPage>) -> map<string, string>,
                    fetched0: seq<string>, records0: seq<map<string, string>>)
    returns (fetched: seq<string>, records: seq<map<string, string>>)
    requires records0 == Screened(fetched0, fetch, parse)
    ensures fetched == fetched0 + batch
    ensures records == Screened(fetched, fetch, parse)
    decreases |batch|
  {
    if batch == [] {
      return fetched0, records0;
    }
    var ticker := batch[0];
    var records1 := FetchOne(ticker, fetch, parse, records0);
    ScreenedSnoc(fetched0, ticker, fetch, parse);
    fetched, records := FetchBatch(batch[1..], fetch, parse, fetched0 + [ticker], records1);
    assert batch == [ticker] + batch[1..];
    AppendAssoc(fetched0, [ticker], batch[1..]);
  }

  /** The loop of `fetch_stocks`: the ticker list cut into batches of five,
      every ticker fetched exactly once and in order, and every non-empty
      parsed record kept. `fetch` stands for the browser session; it answers
      `None` where `fetch_stock` catches an error. */
  method FetchBatches(tickers: seq<string>, fetch: string -> Option<SummaryPage>, parse: (string, Option<SummaryPage>) -> map<string, string>)
    returns (fetched: seq<string>, records: seq<map<string, string>>)
    ensures fetched == tickers
    ensures records == Screened(tickers, fetch, parse)
  {
    var batches := Batches(tickers);
    fetched := [];
    records := [];
    var b := 0;
    while b < |batches|
      invariant 0 <= b <= |batches|
      invariant fetched == Concat(batches[..b])
      invariant records == Screened(fetched, fetch, parse)
    {
      fetched, records := FetchBatch(batches[b], fetch, parse, fetched, records);
      ConcatPrefix(batches, b);
      b := b + 1;
    }
    assert batches[..b] == batches;
  }

  /** The loop with `parse_summary_data` as the parser, over any ticker list:
      the records are the summaries of the rendered pages of the tickers
      without surrounding whitespace, in ticker order. */
  method FetchSummaries(tickers: seq<string>, fetch: string -> Option<SummaryPage>)
    returns (fetched: seq<string>, records: seq<map<string, string>>)
    ensures fetched == tickers
    ensures records == Screened(tickers, fetch, ParseSummaryData)
    ensures forall data :: data in records <==>
      exists i | 0 <= i < |tickers| :: Stripped(tickers[i]) && Rendered(fetch(tickers[i]))
        && data == ParseSummaryData(tickers[i], fetch(tickers[i]))
  {
    fetched, records := FetchBatches(tickers, fetch, ParseSummaryData);
    forall data ensures data in records <==>
      exists i | 0 <= i < |tickers| :: Stripped(tickers[i]) && Rendered(fetch(tickers[i]))
        && data == ParseSummaryData(tickers[i], fetch(tickers[i]))
    {
      ScreenedMembers(tickers, |tickers|, fetch, ParseSummaryData, data);
      forall i | 0 <= i < |tickers| {
        KeptSummary(tickers[i], fetch);
      }
    }
  }

  /** `fetch_stocks` as a whole: the tickers come from `get_tickers` on the
      ticker file's text (`None` when the file cannot be read), so every one
      is stripped and every rendered page yields its summary. */
  method FetchStocks(content: Option<string>, fetch: string -> Option<SummaryPage>)
    returns (fetched: seq<string>, records: seq<map<string, string>>)
    ensures fetched == GetTickers(content)
    ensures content.None? ==> records == []
    ensures records == Screened(fetched, fetch, ParseSummaryData)
    ensures forall data :: data in records <==>
      exists i | 0 <= i < |fetched| :: Rendered(fetch(fetched[i]))
        && data == ParseSummaryData(fetched[i], fetch(fetched[i]))
  {
    var tickers := GetTickers(content);
    fetched, records := FetchSummaries(tickers, fetch);
  }
}

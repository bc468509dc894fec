/**
 The text-to-record routines of the Morningstar trailing-returns scraper:
 reading the exchange/ticker list, mapping the cells of the returns table to
 period names, and assembling one output row per listing. The browser is a
 parameter: a page is whatever the session returned, with the tables already
 cut out into rows of cell texts.
 */
module Morningstar {
  import opened Wrappers
  import opened Strings
  import Writes

  // ---------------------------------------------------------------------
  // The ticker file

  /** One `exchange,ticker` entry of the ticker file. */
  datatype Listing = Listing(exchange: string, ticker: string)

  /** One line of the ticker file: stripped, and kept when it splits on `,`
      into exactly two parts, which are taken as they are. A blank line has
      no comma, so it is dropped with the rest. */
  function ListingOf(line: string): (r: Option<Listing>)
    ensures r.Some? <==> Count(Strip(line), ',') == 1
    ensures r.Some? ==> ',' !in r.value.exchange && ',' !in r.value.ticker
    ensures r.Some? ==> r.value.exchange + [','] + r.value.ticker == Strip(line)
  {
    var stripped := Strip(line);
    if stripped == [] then None
    else
      var parts := Split(stripped, ',');
      SplitCount(stripped, ',');
      if |parts| == 2 then
        assert parts[0] in parts && parts[1] in parts;
        JoinSplit(stripped, ',');
        assert parts[1..] == [parts[1]];
        Some(Listing(parts[0], parts[1]))
      else None
  }

  /** Writing a listing out as `exchange,ticker` and reading it back gives
      the listing, when neither part holds a comma and the line has no
      whitespace at either end. */
  lemma ListingOfFormat(l: Listing)
    requires ',' !in l.exchange && ',' !in l.ticker
    requires Stripped(l.exchange + [','] + l.ticker)
    ensures ListingOf(l.exchange + [','] + l.ticker) == Some(l)
  {
    var parts := [l.exchange, l.ticker];
    var line := l.exchange + [','] + l.ticker;
    assert parts[1..] == [l.ticker];
    assert Join(parts, ',') == line;
    SplitJoin(parts, ',');
  }

  /** The listings of a sequence of lines, in line order. */
  function Listings(lines: seq<string>): (r: seq<Listing>)
    ensures |r| <= |lines|
    decreases |lines|
  {
    if lines == [] then [] else LineListing(lines[0]) + Listings(lines[1..])
  }

  /** The listing of one line, as a sequence of none or one. */
  function LineListing(line: string): seq<Listing> {
    match ListingOf(line)
    case Some(l) => [l]
    case None => []
  }

  /** A listing is read exactly when some line reads as it. */
  lemma {:induction false} ListingsMembers(lines: seq<string>, l: Listing)
    ensures l in Listings(lines) <==> exists line | line in lines :: ListingOf(line) == Some(l)
    decreases |lines|
  {
    if lines != [] {
      ListingsMembers(lines[1..], l);
      if exists line | line in lines[1..] :: ListingOf(line) == Some(l) {
        var line :| line in lines[1..] && ListingOf(line) == Some(l);
        assert line in lines;
      }
      if exists line | line in lines :: ListingOf(line) == Some(l) {
        var line :| line in lines && ListingOf(line) == Some(l);
        if line != lines[0] {
          assert line in lines[1..];
        }
      }
    }
  }

  /** Dropped lines do not disturb the order of the rest. */
  lemma {:induction false} ListingsAppend(a: seq<string>, b: seq<string>)
    ensures Listings(a + b) == Listings(a) + Listings(b)
    decreases |a|
  {
    if a != [] {
      assert (a + b)[0] == a[0];
      assert (a + b)[1..] == a[1..] + b;
      ListingsAppend(a[1..], b);
      AppendAssoc(LineListing(a[0]), Listings(a[1..]), Listings(b));
    } else {
      assert a + b == b;
    }
  }

  /** `read_stock_tickers` over the content of the ticker file, read line by
      line as Python's text-mode file iteration does. */
  function ReadStockTickers(content: string): (r: seq<Listing>)
    ensures |r| <= |Lines(content, FileIteration)|
  {
    Listings(Lines(content, FileIteration))
  }

  /** Every listing read is a comma-free pair that spells out a stripped line
      of the file. */
  lemma ReadStockTickersSound(content: string, l: Listing)
    ensures l in ReadStockTickers(content) ==> ',' !in l.exchange && ',' !in l.ticker
    ensures l in ReadStockTickers(content) ==>
      exists line | line in Lines(content, FileIteration) :: l.exchange + [','] + l.ticker == Strip(line)
  {
    ListingsMembers(Lines(content, FileIteration), l);
  }

  // ---------------------------------------------------------------------
  // The trailing-returns table

  /** The column names of the output sheet; the returns are keyed by the
      last ten. */
  const Columns: seq<string> := ["Exchange", "Ticker", "1-Day", "1-Week", "1-Month", "3-Month", "YTD",
                                 "1-Year", "3-Year", "5-Year", "10-Year", "15-Year"]

  /** No name appears twice in a column list. */
  predicate Distinct(columns: seq<string>) {
    forall a, b | 0 <= a < b < |columns| :: columns[a] != columns[b]
  }

  /** What the browser session produced for one listing's page. */
  datatype ReturnsPage =
    | LoadFailed                             // navigation or parsing raised
    | TableTimeout                           // no table appeared within the wait
    | Loaded(tables: seq<seq<seq<string>>>)  // the `td` texts of each `tr` of each table

  /** `col.text.strip().replace('%', '')`: the text handed to `float`. */
  function PercentFree(cell: string): (r: string)
    ensures '%' !in r
  {
    Replace(Strip(cell), "%", "")
  }

  /** The assignments `returns[columns[i + 1]] = float(value)` the value
      loop makes for cells `i`, `i + 1`, ..., or `None` when an index `i + 1`
      runs off `columns`: the `IndexError` the outer handler turns into a
      `None` result. `parse` is `float`, with `None` for a `ValueError`. */
  function PeriodWrites<V>(cells: seq<string>, columns: seq<string>, parse: string -> Option<V>, i: nat)
    : (r: Option<seq<(string, Option<V>)>>)
    requires i <= |cells|
    ensures r.None? <==> i < |cells| && |columns| <= |cells|
    ensures r.Some? ==> |r.value| == |cells| - i
    decreases |cells| - i
  {
    if i == |cells| then Some([])
    else if i + 1 >= |columns| then None
    else
      var value := PercentFree(cells[i]);
      match PeriodWrites(cells, columns, parse, i + 1)
      case None => None
      case Some(rest) => Some([(columns[i + 1], parse(value))] + rest)
  }

  /** Write `k` of the loop starting at cell `i` stores cell `i + k` under
      `columns[i + k + 1]`: the value cells are shifted one column right of
      their own index. */
  lemma {:induction false} PeriodWritesAt<V>(cells: seq<string>, columns: seq<string>, parse: string -> Option<V>,
                                            i: nat, k: nat)
    requires i <= |cells|
    requires PeriodWrites(cells, columns, parse, i).Some?
    requires k < |cells| - i
    ensures PeriodWrites(cells, columns, parse, i).value[k]
      == (columns[i + k + 1], parse(PercentFree(cells[i + k])))
    decreases k
  {
    var rest := PeriodWrites(cells, columns, parse, i + 1);
    assert PeriodWrites(cells, columns, parse, i).value
      == [(columns[i + 1], parse(PercentFree(cells[i])))] + rest.value;
    if k > 0 {
      PeriodWritesAt(cells, columns, parse, i + 1, k - 1);
    }
  }

  /** The trailing-returns table as `get_stock_returns` reads it: `None` on
      a failed load, a timeout, a page without tables, a first table with
      fewer than two rows after its header, a data row with fewer than two
      cells, or a data row too long for `columns`; otherwise the map from
      period name to parsed value. */
  function StockReturns<V>(page: ReturnsPage, columns: seq<string>, parse: string -> Option<V>)
    : (r: Option<map<string, Option<V>>>)
    ensures r.Some? <==> page.Loaded? && page.tables != [] && |page.tables[0]| >= 3
                         && 2 <= |page.tables[0][1]| < |columns|
  {
    match page
    case LoadFailed => None
    case TableTimeout => None
    case Loaded(tables) =>
      if tables == [] then None
      else
        var rows := if tables[0] == [] then [] else tables[0][1..];
        if |rows| >= 2 then
          var cells := rows[0];
          var loop := if |cells| >= 2 then PeriodWrites(cells, columns, parse, 1) else Some([]);
          if loop.None? then None
          else
            var periods := Writes.Apply(map[], loop.value);
            FilledReturns(loop.value);
            if |periods| > 0 then Some(periods) else None
        else None
  }

  /** A loop that wrote something leaves a non-empty map. */
  lemma FilledReturns<V>(ws: seq<(string, Option<V>)>)
    ensures |Writes.Apply(map[], ws)| > 0 <==> ws != []
  {
    if ws != [] {
      Writes.TouchesIndex(ws, ws[0].0);
      assert ws[0].0 in Writes.Apply(map[], ws);
    }
  }

  /** The names a successful loop from cell `i` writes are the column
      names from `i + 1` up to one past the last cell. */
  lemma {:induction false} PeriodWritesKeys<V>(cells: seq<string>, columns: seq<string>, parse: string -> Option<V>, i: nat, key: string)
    requires i <= |cells| < |columns|
    ensures PeriodWrites(cells, columns, parse, i).Some?
    ensures Writes.Touches(PeriodWrites(cells, columns, parse, i).value, key)
        <==> key in columns[i + 1..|cells| + 1]
    decreases |cells| - i
  {
    if i < |cells| {
      var rest := PeriodWrites(cells, columns, parse, i + 1);
      PeriodWritesKeys(cells, columns, parse, i + 1, key);
      var ws := PeriodWrites(cells, columns, parse, i).value;
      assert ws == [(columns[i + 1], parse(PercentFree(cells[i])))] + rest.value;
      assert ws[1..] == rest.value;
      assert columns[i + 1..|cells| + 1] == [columns[i + 1]] + columns[i + 2..|cells| + 1];
    }
  }

  /** A successful result is the loop's writes from the second cell of the
      data row, applied to an empty map. */
  lemma StockReturnsWrites<V>(page: ReturnsPage, columns: seq<string>, parse: string -> Option<V>)
    requires StockReturns(page, columns, parse).Some?
    ensures PeriodWrites(page.tables[0][1], columns, parse, 1).Some?
    ensures StockReturns(page, columns, parse).value
         == Writes.Apply(map[], PeriodWrites(page.tables[0][1], columns, parse, 1).value)
  {
    assert page.tables[0][1..][0] == page.tables[0][1];
  }

  /** Only the first data row is read: two loaded pages whose first tables
      have the same first data row, and at least two data rows each, give
      the same returns, whatever the other rows and tables hold. */
  lemma StockReturnsFirstRowOnly<V>(p: ReturnsPage, q: ReturnsPage, columns: seq<string>, parse: string -> Option<V>)
    requires p.Loaded? && p.tables != [] && |p.tables[0]| >= 3
    requires q.Loaded? && q.tables != [] && |q.tables[0]| >= 3
    requires p.tables[0][1] == q.tables[0][1]
    ensures StockReturns(p, columns, parse) == StockReturns(q, columns, parse)
  {
    assert p.tables[0][1..][0] == p.tables[0][1];
    assert q.tables[0][1..][0] == q.tables[0][1];
  }

  /** In a list of distinct names, the name at `k` lies in the slice
      `lo..hi` exactly when `k` does. */
  lemma DistinctIn(columns: seq<string>, lo: nat, hi: nat, k: nat)
    requires Distinct(columns)
    requires lo <= hi <= |columns| && k < |columns|
    ensures columns[k] in columns[lo..hi] <==> lo <= k < hi
  {
    if columns[k] in columns[lo..hi] {
      var j :| 0 <= j < hi - lo && columns[lo..hi][j] == columns[k];
      assert columns[lo + j] == columns[k];
    }
  }

  /** The periods of a result are exactly the column names from the third
      up to one past the last cell of the data row: the first value cell
      lands under the third name, and no name past the data is written. */
  lemma StockReturnsKeys<V>(page: ReturnsPage, columns: seq<string>, parse: string -> Option<V>, key: string)
    requires StockReturns(page, columns, parse).Some?
    ensures key in StockReturns(page, columns, parse).value
        <==> key in columns[2..|page.tables[0][1]| + 1]
  {
    StockReturnsWrites(page, columns, parse);
    PeriodWritesKeys(page.tables[0][1], columns, parse, 1, key);
  }

  /** With distinct column names, the loop's writes from cell `1` leave
      value cell `i` under `columns[i + 1]`: no later write reuses the name. */
  lemma {:induction false} PeriodWritesValue<V>(cells: seq<string>, columns: seq<string>, parse: string -> Option<V>, i: nat)
    requires Distinct(columns)
    requires 1 <= i < |cells|
    requires PeriodWrites(cells, columns, parse, 1).Some?
    ensures columns[i + 1] in Writes.Apply(map[], PeriodWrites(cells, columns, parse, 1).value)
    ensures Writes.Apply(map[], PeriodWrites(cells, columns, parse, 1).value)[columns[i + 1]]
         == parse(PercentFree(cells[i]))
  {
    var ws := PeriodWrites(cells, columns, parse, 1).value;
    var k := i - 1;
    var rest := ws[k + 1..];
    PeriodWritesAt(cells, columns, parse, 1, k);
    Writes.TouchesIndex(rest, columns[i + 1]);
    forall j | 0 <= j < |rest| ensures rest[j].0 != columns[i + 1] {
      PeriodWritesAt(cells, columns, parse, 1, k + 1 + j);
      assert rest[j] == ws[k + 1 + j];
    }
    assert ws == ws[..k] + [ws[k]] + rest;
    Writes.ApplyLastWins(map[], ws[..k], ws[k], rest);
  }

  /** With distinct column names, value cell `i` of the data row is stored,
      stripped and without `%`, under `columns[i + 1]`. */
  lemma StockReturnsValue<V>(page: ReturnsPage, columns: seq<string>, parse: string -> Option<V>, i: nat)
    requires Distinct(columns)
    requires StockReturns(page, columns, parse).Some?
    requires 1 <= i < |page.tables[0][1]|
    ensures columns[i + 1] in StockReturns(page, columns, parse).value
    ensures StockReturns(page, columns, parse).value[columns[i + 1]] == parse(PercentFree(page.tables[0][1][i]))
  {
    StockReturnsWrites(page, columns, parse);
    PeriodWritesValue(page.tables[0][1], columns, parse, i);
  }

  /** The twelve sheet columns are pairwise distinct. */
  lemma ColumnsDistinct()
    ensures Distinct(Columns)
  {
  }

  /** With the sheet's columns, the first value cell, the one after the row
      label, is the one-day return. */
  lemma FirstValueOneDay<V>(page: ReturnsPage, parse: string -> Option<V>)
    requires StockReturns(page, Columns, parse).Some?
    ensures "1-Day" in StockReturns(page, Columns, parse).value
    ensures StockReturns(page, Columns, parse).value["1-Day"] == parse(PercentFree(page.tables[0][1][1]))
  {
    ColumnsDistinct();
    StockReturnsValue(page, Columns, parse, 1);
  }

  // ---------------------------------------------------------------------
  // The output rows

  /** One cell of the output sheet: a text, a parsed number, or empty (the
      source's `None`). */
  datatype Cell<V> = Text(text: string) | Number(value: V) | Empty

  /** A parsed value as a cell. */
  function ValueCell<V>(v: Option<V>): Cell<V> {
    match v
    case Some(x) => Number(x)
    case None => Empty
  }

  /** `returns.get(period, None)`: empty when the period is missing or its
      text did not parse. */
  function PeriodCell<V>(periods: map<string, Option<V>>, period: string): (c: Cell<V>)
    ensures period !in periods ==> c == Empty
    ensures period in periods ==> c == ValueCell(periods[period])
  {
    if period in periods then ValueCell(periods[period]) else Empty
  }

  /** The cells the loop `for period in columns[2:]` appends. */
  function PeriodCells<V>(periods: map<string, Option<V>>, names: seq<string>): (cells: seq<Cell<V>>)
    ensures |cells| == |names|
    ensures forall k | 0 <= k < |names| :: cells[k] == PeriodCell(periods, names[k])
    decreases |names|
  {
    if names == [] then []
    else [PeriodCell(periods, names[0])] + PeriodCells(periods, names[1..])
  }

  /** The row `main` appends for a listing: exchange, ticker, and one cell
      for each period column. */
  function AssembleRow<V>(l: Listing, periods: map<string, Option<V>>): (row: seq<Cell<V>>)
    ensures |row| == |Columns|
    ensures row[0] == Text(l.exchange) && row[1] == Text(l.ticker)
  {
    [Text(l.exchange), Text(l.ticker)] + PeriodCells(periods, Columns[2..])
  }

  /** Slot `k` of an assembled row, past exchange and ticker, holds the
      period named by column `k`. */
  lemma AssembleRowSlot<V>(l: Listing, periods: map<string, Option<V>>, k: nat)
    requires 2 <= k < |Columns|
    ensures AssembleRow(l, periods)[k] == PeriodCell(periods, Columns[k])
  {
    assert Columns[2..][k - 2] == Columns[k];
  }

  /** End to end for one page: slot `k` of the row holds value cell `k - 1`
      of the data row when there is one, and is empty past the last cell. */
  lemma RowOfPage<V>(l: Listing, page: ReturnsPage, parse: string -> Option<V>, k: nat)
    requires StockReturns(page, Columns, parse).Some?
    requires 2 <= k < |Columns|
    ensures AssembleRow(l, StockReturns(page, Columns, parse).value)[k]
      == if k < |page.tables[0][1]| + 1 then ValueCell(parse(PercentFree(page.tables[0][1][k - 1]))) else Empty
  {
    var cells := page.tables[0][1];
    AssembleRowSlot(l, StockReturns(page, Columns, parse).value, k);
    ColumnsDistinct();
    if k < |cells| + 1 {
      StockReturnsValue(page, Columns, parse, k - 1);
    } else {
      StockReturnsKeys(page, Columns, parse, Columns[k]);
      DistinctIn(Columns, 2, |cells| + 1, k);
    }
  }

  // ---------------------------------------------------------------------
  // Collecting the rows

  /** The returns lookup `main` performs for a listing: its page, read
      against the twelve sheet columns. */
  function ReturnsOf<V>(fetch: Listing -> ReturnsPage, parse: string -> Option<V>)
    : Listing -> Option<map<string, Option<V>>>
  {
    l => StockReturns(fetch(l), Columns, parse)
  }

  /** `AssembleRow` as a value, for the collecting loop. */
  function Assembler<V>(): (Listing, map<string, Option<V>>) -> seq<Cell<V>> {
    (l, periods) => AssembleRow(l, periods)
  }

  /** The rows one listing contributes: one when its returns came back
      non-empty (`if returns:`), none otherwise. */
  function RowFor<V>(l: Listing, lookup: Listing -> Option<map<string, Option<V>>>,
                     assemble: (Listing, map<string, Option<V>>) -> seq<Cell<V>>): seq<seq<Cell<V>>> {
    var r := lookup(l);
    if r.Some? && |r.value| > 0 then [assemble(l, r.value)] else []
  }

  /** The rows collected from the first `n` listings, in listing order. */
  function RowsUpTo<V>(listings: seq<Listing>, n: nat, lookup: Listing -> Option<map<string, Option<V>>>,
                       assemble: (Listing, map<string, Option<V>>) -> seq<Cell<V>>)
    : (rows: seq<seq<Cell<V>>>)
    requires n <= |listings|
    ensures |rows| <= n
  {
    if n == 0 then [] else RowsUpTo(listings, n - 1, lookup, assemble) + RowFor(listings[n - 1], lookup, assemble)
  }

  /** Rows are only ever appended: the rows of the first `m` listings are a
      prefix of those of the first `n`. */
  lemma {:induction false} RowsUpToPrefix<V>(listings: seq<Listing>, m: nat, n: nat,
                                             lookup: Listing -> Option<map<string, Option<V>>>,
                                             assemble: (Listing, map<string, Option<V>>) -> seq<Cell<V>>)
    requires m <= n <= |listings|
    ensures RowsUpTo(listings, m, lookup, assemble) <= RowsUpTo(listings, n, lookup, assemble)
    decreases n
  {
    if m < n {
      RowsUpToPrefix(listings, m, n - 1, lookup, assemble);
    }
  }

  /** A row is collected exactly when some listing among the first `n` had
      non-empty returns and the row is the one assembled from them. */
  lemma {:induction false} RowsMembers<V>(listings: seq<Listing>, n: nat,
                                          lookup: Listing -> Option<map<string, Option<V>>>,
                                          assemble: (Listing, map<string, Option<V>>) -> seq<Cell<V>>,
                                          row: seq<Cell<V>>)
    requires n <= |listings|
    ensures row in RowsUpTo(listings, n, lookup, assemble)
        <==> exists i | 0 <= i < n :: row in RowFor(listings[i], lookup, assemble)
    decreases n
  {
    if n > 0 {
      var prev := RowsUpTo(listings, n - 1, lookup, assemble);
      var last := RowFor(listings[n - 1], lookup, assemble);
      RowsMembers(listings, n - 1, lookup, assemble, row);
      assert row in prev + last <==> row in prev || row in last;
      if row in last {
        assert 0 <= n - 1 < n && row in RowFor(listings[n - 1], lookup, assemble);
      }
      if exists i | 0 <= i < n :: row in RowFor(listings[i], lookup, assemble) {
        var i :| 0 <= i < n && row in RowFor(listings[i], lookup, assemble);
        assert i < n - 1 ==> row in prev;
      }
    }
  }

  /** Every collected row is a full sheet row whose first two cells are the
      exchange and ticker of a listing that was read. */
  lemma {:induction false} RowsShape<V>(listings: seq<Listing>, lookup: Listing -> Option<map<string, Option<V>>>, row: seq<Cell<V>>)
    requires row in RowsUpTo(listings, |listings|, lookup, Assembler())
    ensures |row| == |Columns|
    ensures exists i | 0 <= i < |listings| :: row[0] == Text(listings[i].exchange) && row[1] == Text(listings[i].ticker)
  {
    RowsMembers(listings, |listings|, lookup, Assembler(), row);
    var i :| 0 <= i < |listings| && row in RowFor(listings[i], lookup, Assembler());
    RowForShape(listings[i], lookup, row);
    assert row[0] == Text(listings[i].exchange) && row[1] == Text(listings[i].ticker);
  }

  /** The row a single listing contributes is its assembled row. */
  lemma RowForShape<V>(l: Listing, lookup: Listing -> Option<map<string, Option<V>>>, row: seq<Cell<V>>)
    requires row in RowFor(l, lookup, Assembler())
    ensures |row| == |Columns|
    ensures row[0] == Text(l.exchange) && row[1] == Text(l.ticker)
  {
    var r := lookup(l);
    assert row == Assembler()(l, r.value);
  }

  /** The loop of `main`: ask for each listing's returns in turn and append
      a row for each non-empty result. */
  method CollectRows<V>(listings: seq<Listing>, lookup: Listing -> Option<map<string, Option<V>>>,
                        assemble: (Listing, map<string, Option<V>>) -> seq<Cell<V>>)
    returns (rows: seq<seq<Cell<V>>>)
    ensures rows == RowsUpTo(listings, |listings|, lookup, assemble)
  {
    rows := [];
    for k := 0 to |listings|
      invariant rows == RowsUpTo(listings, k, lookup, assemble)
    {
      var r := lookup(listings[k]);
      if r.Some? && |r.value| > 0 {
        rows := rows + [assemble(listings[k], r.value)];
      }
    }
  }

  /** `main` up to the spreadsheet: read the ticker file, ask for each
      listing's returns and keep a row for each non-empty result. A file
      that cannot be read (`None`) raises inside the outer `try`, so no
      rows are collected. */
  method CollectReturns<V>(content: Option<string>, fetch: Listing -> ReturnsPage, parse: string -> Option<V>)
    returns (rows: seq<seq<Cell<V>>>)
    ensures content.None? ==> rows == []
    ensures content.Some? ==> rows == RowsUpTo(ReadStockTickers(content.value), |ReadStockTickers(content.value)|,
                                               ReturnsOf(fetch, parse), Assembler())
    ensures content.Some? ==> |rows| <= |ReadStockTickers(content.value)|
    ensures content.Some? ==> forall row | row in rows ::
              |row| == |Columns|
              && exists i | 0 <= i < |ReadStockTickers(content.value)| ::
                   row[0] == Text(ReadStockTickers(content.value)[i].exchange)
                   && row[1] == Text(ReadStockTickers(content.value)[i].ticker)
  {
    if content.None? {
      return [];
    }
    var listings := ReadStockTickers(content.value);
    rows := CollectRows(listings, ReturnsOf(fetch, parse), Assembler());
    forall row | row in rows
      ensures |row| == |Columns|
        && exists i | 0 <= i < |listings| :: row[0] == Text(listings[i].exchange) && row[1] == Text(listings[i].ticker)
    {
      RowsShape(listings, ReturnsOf(fetch, parse), row);
    }
  }
}

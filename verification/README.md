# 100x stock screener — the scraping core, modelled in Dafny

The repository scrapes two financial sites.

- `gurufocus_scrape.py` reads a list of tickers, fetches each ticker's
  GuruFocus summary page in batches of five, and folds the page's tables into
  one dictionary per ticker.
- `morningstar_scrape.py` reads a list of `exchange,ticker` pairs, reads the
  first data row of each stock's Morningstar trailing-returns table, and
  assembles one spreadsheet row per stock.

This project models the text-to-record logic of both scripts. It covers the
header cleaning, the ticker files, the batch loop, the summary fold, the
returns-table column mapping and the row assembly. The browser and the HTML
parser are parameters: a page is whatever the session returned, with its
tables already cut into rows of cell texts.

Modules, one file each:

- `Wrappers` (`wrappers.dfy`): `Option`.
- `Strings` (`strings.dfy`): the Python `str` operations the scripts use.
  These are `replace`, `strip`, `lower`, `split(',')`, `splitlines()` and
  text-mode line iteration, each with its own laws.
- `Writes` (`writes.dfy`): a run of dictionary assignments, `d[k] = v` in
  program order. The last write to a key wins.
- `GuruFocus` (`gurufocus.dfy`): `clean_title`, `get_tickers`, the batches
  and `parse_summary_data`.
- `FetchLoop` (`fetchloop.dfy`): the loop of `fetch_stocks`.
- `Morningstar` (`morningstar.dfy`): `read_stock_tickers`, the table
  reading of `get_stock_returns`, and the loop and row assembly of `main`.

## Model

| member | source | states |
|---|---|---|
| Strings.Replace | gurufocus_scrape.py:112-118 | `str.replace` scans left to right without overlap. A pattern whose first character never occurs leaves the text alone. A substitution no longer than the pattern never lengthens the text. A one-character pattern absent from the substitution is absent from the result. |
| Strings.ReplaceDelete | gurufocus_scrape.py:112-117 | Replacing one character by nothing removes every occurrence of it and keeps every other character with its multiplicity. |
| Strings.ReplaceCharAppend | gurufocus_scrape.py:112-117 | A one-character replacement distributes over concatenation, so it acts on each character independently. |
| Strings.ReplaceSkip | gurufocus_scrape.py:118 | A prefix holding no first character of the pattern is copied unchanged, and replacement continues on the rest. |
| Strings.ReplaceKeepsOut | gurufocus_scrape.py:112-118 | A character absent from both the text and the substitution is absent from the result, so each replacement in the chain removes its symbol for good. |
| Strings.ReplaceCharPointwise | gurufocus_scrape.py:120 | Replacing one character by one character changes exactly the positions holding it and keeps the length. |
| Strings.ReplaceDoubleSpaceRun | gurufocus_scrape.py:118 | One pass of `"  " -> " "` over a run of `n` spaces leaves `(n + 1) / 2` of them, whatever non-space text follows. It does not collapse the run to one space. |
| Strings.Strip | gurufocus_scrape.py:119 | `strip()` leaves no whitespace at either end, never lengthens, and is the identity on stripped text. |
| Strings.StripInfix | gurufocus_scrape.py:119 | The stripped text is a contiguous infix of the original, with only whitespace cut from each side. |
| Strings.StripChars | gurufocus_scrape.py:119 | Every character of the stripped text occurs in the original. |
| Strings.StripEmptyIffBlank | gurufocus_scrape.py:49 | `strip()` returns the empty string exactly when the text is all whitespace, which is the test `if ticker.strip()`. |
| Strings.StripIdempotent | gurufocus_scrape.py:156 | Stripping twice is stripping once. |
| Strings.Lower | gurufocus_scrape.py:121 | `lower()` keeps the length and lowers each ASCII capital in place. Text without capitals is unchanged. |
| Strings.LowerKeepsOut | gurufocus_scrape.py:121 | A character absent from the text that is not a lower-case ASCII letter stays absent after `lower()`, so none of the removed symbols comes back. |
| Strings.Split | morningstar_scrape.py:21 | `split(',')` yields at least one part, and no part holds a comma. |
| Strings.SplitCount | morningstar_scrape.py:21-22 | `split(',')` yields exactly one more part than there are commas, which is what `len(parts) == 2` tests. |
| Strings.JoinSplit | morningstar_scrape.py:21 | Joining the parts with commas gives back the text. |
| Strings.SplitJoin | morningstar_scrape.py:21 | Splitting comma-free parts joined by commas gives back the parts. |
| Strings.Lines | morningstar_scrape.py:18 | There are never more lines than characters, so the empty text has no lines. |
| Strings.LinesHaveNoBreaks | gurufocus_scrape.py:49 | No line, from `splitlines()` or file iteration, holds a line break. |
| Strings.LinesSplit | morningstar_scrape.py:18 | For text without carriage returns that does not end in a newline, iterating over the file's lines is `split('\n')`. |
| Strings.LinesCount | morningstar_scrape.py:18 | Such text has exactly one more line than it has newlines. |
| Strings.LinesKeepText | morningstar_scrape.py:18 | The lines laid end to end are the text with its line breaks removed: nothing is lost or reordered. |
| Writes.Apply | gurufocus_scrape.py:129-156 | After a run of assignments, the dictionary's keys are the old keys plus every key assigned. |
| Writes.TouchesIndex | gurufocus_scrape.py:137 | A run assigns a key exactly when some assignment in it names the key. |
| Writes.ApplyUntouched | gurufocus_scrape.py:129 | A key that no assignment names keeps its old value. |
| Writes.ApplyLastWins | gurufocus_scrape.py:137 | The last assignment to a key decides its value. |
| Writes.ApplyAppend | gurufocus_scrape.py:129-156 | Two runs in sequence are applied one after the other. |
| GuruFocus.ScrubSymbols | gurufocus_scrape.py:112-117 | After the first six replacements the title holds no newline, dash, parenthesis, percent or dollar sign. The title never grows, and one already free of these is unchanged. |
| GuruFocus.ScrubSymbolsEach | gurufocus_scrape.py:112-117 | The six replacements act on each character on its own: a newline, `)`, `%` or `$` disappears, `-` becomes `_`, `(` becomes a space, and anything else is kept. |
| GuruFocus.CleanTitle | gurufocus_scrape.py:109-121 | The empty title cleans to the empty key. Every cleaned title is a clean key: no symbol, no space, no ASCII capital, no whitespace at either end. The key is never longer than the title. |
| GuruFocus.CleanTitleFixedPoints | gurufocus_scrape.py:109-121 | Cleaning leaves a string unchanged exactly when it is a clean key: both directions. |
| GuruFocus.CleanTitleIdempotent | gurufocus_scrape.py:109-121 | Cleaning an already cleaned title changes nothing. |
| GuruFocus.CleanTitleWord | gurufocus_scrape.py:109-121 | A title without spaces or `(` cleans to its characters scrubbed one by one, then lowered. |
| GuruFocus.CleanTitleHyphenated | gurufocus_scrape.py:113-121 | Two symbol-free words joined by `-` clean to the lowered words joined by `_`. |
| GuruFocus.CleanTitleSpacedWords | gurufocus_scrape.py:118-120 | Two clean words separated by n spaces clean to the words separated by (n + 1) / 2 underscores. The single `"  " -> " "` pass does not collapse a run of three or more spaces to one. |
| GuruFocus.KeepNonBlankMembers | gurufocus_scrape.py:49 | A string is in the comprehension exactly when it is non-empty and is the stripped form of some line. |
| GuruFocus.KeepNonBlankAppend | gurufocus_scrape.py:49 | Blank lines drop out without reordering the rest. |
| GuruFocus.GetTickers | gurufocus_scrape.py:45-52 | An unreadable file gives no tickers. Every ticker is non-empty and stripped, and there are no more tickers than lines. |
| GuruFocus.GetTickersExact | gurufocus_scrape.py:49 | The tickers are exactly the stripped non-blank lines of `splitlines()`. |
| GuruFocus.GetTickersHaveNoBreaks | gurufocus_scrape.py:49 | No ticker holds a line break. |
| GuruFocus.Batches | gurufocus_scrape.py:76-80 | The batches laid end to end are the ticker list. Every batch holds one to five tickers, all but the last hold exactly five, and there are ⌈n/5⌉ of them. |
| GuruFocus.RowWritesTouch | gurufocus_scrape.py:132-146 | A table's loop writes a key exactly when some row with at least three cells has a header cleaning to it, or a non-empty one in the caption table. |
| GuruFocus.RowKeyClean | gurufocus_scrape.py:135-146 | Every key a table writes is clean, and the caption table never writes the empty key. |
| GuruFocus.RowWritesAppend | gurufocus_scrape.py:132-137 | The rows of a table are processed in order. |
| GuruFocus.ParseSummaryData | gurufocus_scrape.py:123-160 | The record is empty exactly when the page source is missing or empty. Otherwise it holds `"ticker"`. `gf_value` is the span text without `$`. `price` is the span text stripped, without `$`, and stripped again. |
| GuruFocus.ParseSummaryKeys | gurufocus_scrape.py:129-156 | For a rendered page, a key is in the record exactly when it is `"ticker"`, a qualifying row's cleaned header, or a present span's key. Every key is clean. |
| GuruFocus.SummaryTouch | gurufocus_scrape.py:129-156 | The assignments of `parse_summary_data` touch exactly those keys. |
| GuruFocus.SpansFinal | gurufocus_scrape.py:148-156 | The span values are written last, so no table row can override them. |
| GuruFocus.SummaryStages | gurufocus_scrape.py:129-156 | The record is built in four stages: ticker entry, indicator table, caption table, spans. |
| GuruFocus.RowWins | gurufocus_scrape.py:132-146 | After a table's loop, a qualifying row's stripped value stands when no later qualifying row has the same key. |
| GuruFocus.TickerKept | gurufocus_scrape.py:129 | The `"ticker"` entry keeps the ticker unless some table row's header cleans to `ticker`. |
| GuruFocus.IndicatorRowWins | gurufocus_scrape.py:132-137 | The last indicator row for a key decides its value when neither the caption table nor a span writes that key later. |
| GuruFocus.CaptionRowWins | gurufocus_scrape.py:140-146 | The last caption row for a key decides its value when no span writes that key. |
| GuruFocus.EmptyKeyOnlyFromIndicators | gurufocus_scrape.py:132-146 | The record has the empty key exactly when some indicator row's header cleans to nothing. The caption loop's `if key:` rules it out there. |
| FetchLoop.ScreenedUpToPrefix | gurufocus_scrape.py:84-92 | The records of the first n tickers depend on those tickers only. |
| FetchLoop.ScreenedAppend | gurufocus_scrape.py:79-92 | Screening a list in two parts screens each part in turn, so records come out in ticker order. |
| FetchLoop.ScreenedMembers | gurufocus_scrape.py:84-92 | A record is kept exactly when it is the kept record of one of the tickers. |
| FetchLoop.ScreenedSnoc | gurufocus_scrape.py:84-92 | Handling one more ticker appends that ticker's records at the end. |
| FetchLoop.FetchOneSummary | gurufocus_scrape.py:54-92 | One ticker appends at most one record. It appends the ticker's summary exactly when the ticker is already stripped and its page rendered, since `fetch_stock` caches the page under the stripped ticker and `parse_summary_data` looks it up under the ticker as given. |
| FetchLoop.FetchBatch | gurufocus_scrape.py:84-92 | A batch handles its tickers in order and extends the records by exactly theirs. |
| FetchLoop.FetchBatches | gurufocus_scrape.py:74-99 | Walking the batches fetches every ticker exactly once and in list order, and keeps exactly the screened records. |
| FetchLoop.FetchSummaries | gurufocus_scrape.py:54-99 | With `parse_summary_data` as the parser, a record is kept exactly when it is the summary of some stripped ticker whose page rendered. A ticker with surrounding whitespace finds no cached page and is dropped. |
| FetchLoop.FetchStocks | gurufocus_scrape.py:45-99 | `fetch_stocks` fetches exactly the tickers of `get_tickers`, so an unreadable file fetches nothing. Since those tickers are stripped, a record is kept exactly when it is the summary of some ticker whose page rendered. |
| Morningstar.ListingOf | morningstar_scrape.py:19-24 | A line gives a listing exactly when its stripped form holds exactly one comma. The parts are comma-free and spell the stripped line around that comma. |
| Morningstar.ListingOfFormat | morningstar_scrape.py:19-24 | Writing a comma-free listing as a stripped `exchange,ticker` line and reading it back gives the listing. |
| Morningstar.ListingsMembers | morningstar_scrape.py:18-24 | A listing is read exactly when some line reads as it. |
| Morningstar.ListingsAppend | morningstar_scrape.py:18-24 | Dropped lines do not reorder the listings. |
| Morningstar.ReadStockTickers | morningstar_scrape.py:15-25 | There are never more listings than lines in the file. |
| Morningstar.ReadStockTickersSound | morningstar_scrape.py:15-25 | Every listing read is a comma-free pair that spells out a stripped line of the file. |
| Morningstar.PercentFree | morningstar_scrape.py:82 | A cleaned cell holds no `%`. |
| Morningstar.PeriodWrites | morningstar_scrape.py:81-86 | The loop over value cells fails (the `IndexError`) exactly when a cell's index runs past the column names. Otherwise it makes one assignment per remaining cell. |
| Morningstar.PeriodWritesAt | morningstar_scrape.py:81-86 | Assignment k of the loop from cell i stores the parsed cell i + k under column name i + k + 1. |
| Morningstar.PeriodWritesKeys | morningstar_scrape.py:81-86 | A successful loop writes exactly the column names from position i + 1 to one past the last cell. |
| Morningstar.StockReturns | morningstar_scrape.py:45-97 | A page gives returns exactly when it loaded, has a table, and that table has at least two rows after the header. Its first data row must also have at least two cells and fewer cells than there are column names. |
| Morningstar.FilledReturns | morningstar_scrape.py:93 | The returns map is empty exactly when the loop wrote nothing. This is the test `returns if returns else None`. |
| Morningstar.StockReturnsKeys | morningstar_scrape.py:73-86 | The periods returned are exactly the column names from the third up to one past the last cell of the first data row. |
| Morningstar.StockReturnsValue | morningstar_scrape.py:77-86 | With distinct column names, value cell i of the first data row is stored, stripped and without `%`, under column name i + 1. |
| Morningstar.StockReturnsFirstRowOnly | morningstar_scrape.py:73-78 | Only the first data row is read: two loaded pages with the same first data row and at least two data rows give the same returns, whatever else they hold. |
| Morningstar.FirstValueOneDay | morningstar_scrape.py:81-84 | With the sheet's columns, the first value cell after the row label is stored under `1-Day`. |
| Morningstar.ColumnsDistinct | morningstar_scrape.py:104-105 | The twelve sheet columns are pairwise distinct. |
| Morningstar.DistinctIn | morningstar_scrape.py:104-105 | Among distinct names, the name at k lies in a slice exactly when k does. |
| Morningstar.AssembleRow | morningstar_scrape.py:110-113 | A row is as wide as the sheet and opens with the exchange and the ticker. |
| Morningstar.AssembleRowSlot | morningstar_scrape.py:111-112 | Slot k of a row, past exchange and ticker, holds `returns.get(columns[k], None)`. |
| Morningstar.RowOfPage | morningstar_scrape.py:73-113 | End to end for one page: slot k of the row holds the parsed value cell k - 1 of the first data row when that cell exists, and is empty past the last cell. |
| Morningstar.RowsUpToPrefix | morningstar_scrape.py:108-114 | Rows are only appended: the rows of the first m listings prefix those of the first n. |
| Morningstar.RowsMembers | morningstar_scrape.py:108-114 | A row is collected exactly when some listing had non-empty returns and the row is assembled from them. |
| Morningstar.RowForShape | morningstar_scrape.py:110-114 | The row one listing contributes is full width and opens with that listing's exchange and ticker. |
| Morningstar.RowsShape | morningstar_scrape.py:108-114 | Every collected row is full width and opens with the exchange and ticker of a listing that was read. |
| Morningstar.CollectRows | morningstar_scrape.py:108-114 | The loop collects exactly the rows of the listings with non-empty returns, in listing order. |
| Morningstar.CollectReturns | morningstar_scrape.py:101-114 | An unreadable ticker file collects no rows. Otherwise the rows are those of the listings read from the file, in file order, at most one per listing. Every row is twelve cells wide and opens with the exchange and ticker of a listing read from the file. |

## Left out

- The browser. Selenium, the WebDriver setup and reset, the waits and the `sleep`s are left out. In `fetch_stocks` a page fetch is the pure parameter `fetch`, which answers `None` where `fetch_stock` catches an error. In `main` it is a function from a listing to `LoadFailed`, `TableTimeout` or the loaded tables.
- HTML parsing. BeautifulSoup and the CSS selectors are left out: a page is given as its rows of cell texts and the text of each span, if present. A parsed tag is always truthy, so `if gf_value:` and `if price:` test only whether the span was found.
- The page cache as a dictionary. `fetch_stock` stores the page under the stripped ticker and `parse_summary_data` reads it back under the ticker it is given. The model keeps only that pair of keys: the summary sees the page when the ticker is already stripped and sees nothing otherwise. Pages cached by earlier tickers are not modelled, since the loop never looks them up under another ticker.
- Floating point. `float(value)` in `get_stock_returns` is the parameter `parse`, which returns `None` where Python raises `ValueError`.
- Numeric screening. `stock_screen`, `parse_number` and `ps_valuation` work on floats and are left out. The records `fetch_stocks` keeps are the parsed summaries that would be handed to `stock_screen`.
- Output. pandas, the Excel and CSV writers, `print` and `tqdm` are left out; the model ends at the list of rows or records.
- File reading. Opening a file is a parameter: the content is `Some(text)`, or `None` when opening fails. For `get_tickers` that gives the empty list. For `main` the outer `try` ends the run with no rows.
- The `concurrent.futures` import is unused by the code and is not modelled.
- Lower: `str.lower()` is modelled for ASCII capitals only. Other letters whose lower-case form differs are kept as they are.
- Strip: `strip()` uses the full set of characters Python's `str.isspace` accepts. The scripts rely on no narrower set.
- CleanTitle: the `if not title` test is modelled for the empty string only. Every caller passes a cell's text, which is never `None`.
